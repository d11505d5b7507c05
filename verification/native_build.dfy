/** The pure naming rules of native-build.py: OS and architecture names,
    the platform string, the output file extension, the object file name and
    the source file test. Everything that touches the file system, runs the
    compiler or prints is outside this module. */
module NativeBuild {
  import opened Wrappers
  import opened Strings
  import Util

  // ---------------------------------------------------------------------------
  // Platform names
  // ---------------------------------------------------------------------------

  /** `get_os_name(v)`: `posix` is reported as `linux`, `local` stands for the
      host's own name (`os.name`, passed in as `host`, which is never
      `local`), and any other name is kept. A missing name (`None`, from a
      `null` in the build file's OS list) fails both tests and stays missing. */
  function OsName(v: Option<string>, host: string): (r: Option<string>)
    requires host != "local"
    ensures r.None? <==> v.None?
    ensures r != Some("posix") && r != Some("local")
    ensures v == Some("posix") ==> r == Some("linux")
    ensures v.Some? && v.value != "posix" && v.value != "local" ==> r == v
    ensures v == Some("local") ==> r == Some(if host == "posix" then "linux" else host)
    decreases if v == Some("local") then 1 else 0
  {
    if v == Some("posix") then Some("linux")
    else if v != Some("local") then v
    else OsName(Some(host), host)
  }

  /** Normalising an OS name twice gives the same name. */
  lemma OsNameIdempotent(v: Option<string>, host: string)
    requires host != "local"
    ensures OsName(OsName(v, host), host) == OsName(v, host)
    ensures forall other :: other != "local" ==> OsName(OsName(v, host), other) == OsName(v, host)
  {
  }

  /** `get_arch_name(v)`: `x86_64` is reported as `x64`, `local` stands for
      the host's processor (`platform.processor()`, passed in as
      `processor`, which is never `local`), and any other name is kept. */
  function ArchName(v: string, processor: string): (r: string)
    requires processor != "local"
    ensures r != "x86_64" && r != "local"
    ensures v == "x86_64" ==> r == "x64"
    ensures v != "x86_64" && v != "local" ==> r == v
    ensures v == "local" ==> r == (if processor == "x86_64" then "x64" else processor)
    decreases if v == "local" then 1 else 0
  {
    if v == "x86_64" then "x64"
    else if v != "local" then v
    else ArchName(processor, processor)
  }

  lemma ArchNameIdempotent(v: string, processor: string)
    requires processor != "local"
    ensures ArchName(ArchName(v, processor), processor) == ArchName(v, processor)
  {
  }

  /** `get_platform_str(os, arch)`: `arch-os`, or just `arch` without an OS. */
  function PlatformStr(os: Option<string>, arch: string): (r: string)
    ensures |r| == |arch| + (if os.None? then 0 else 1 + |os.value|)
    ensures r[..|arch|] == arch
    ensures os.Some? ==> r[|arch|..] == "-" + os.value
    ensures os.None? ==> r == arch
  {
    arch + (if os.Some? then "-" + os.value else "")
  }

  /** Reads a platform string back: the text before the first `-` is the
      architecture, the text after it (if there is a `-`) the OS. */
  function SplitPlatform(s: string): (string, Option<string>)
  {
    var i := IndexOf(s, '-');
    if i == |s| then (s, None) else (s[..i], Some(s[i + 1..]))
  }

  /** A platform string determines its parts as long as the architecture
      has no `-`. */
  lemma PlatformStrRoundTrip(os: Option<string>, arch: string)
    requires forall k :: 0 <= k < |arch| ==> arch[k] != '-'
    ensures SplitPlatform(PlatformStr(os, arch)) == (arch, os)
  {
    var s := PlatformStr(os, arch);
    if os.Some? {
      assert s[|arch|] == '-';
      assert IndexOf(s, '-') == |arch|;
      assert s[|arch| + 1..] == os.value;
    } else {
      assert s == arch;
    }
  }

  /** With a `-` inside the architecture, two different platforms share one string. */
  lemma PlatformStrAmbiguous()
    ensures PlatformStr(Some("b-c"), "a") == PlatformStr(Some("c"), "a-b") == "a-b-c"
  {
  }

  // ---------------------------------------------------------------------------
  // Output file extension
  // ---------------------------------------------------------------------------

  /** What `get_output_file_name` raises: `ValueError` on a `lib...` type
      that has no `:spec`, and `AttributeError` when a missing OS name
      (`None`) reaches `osName.lower()`. */
  datatype BuildError = InvalidTargetType(ty: string) | MissingOsName(ty: string)

  /** `osName.lower().find(word) != -1`. */
  predicate Mentions(os: string, word: string)
  {
    Find(Lower(os), word) != -1
  }

  /** The extension chosen for a target type, given whether the OS counts as
      Windows: `executable` gets `.exe` on Windows; `lib:static` gets `.a` on
      Linux and `.lib` elsewhere; `lib:dynamic` gets `.dll` on Windows, `.so`
      on Linux and `.dylib` elsewhere; the spec is the piece after the first
      `:`; any other type gets no extension. */
  function ExtFor(ty: string, os: string, windows: bool): (r: Result<string, BuildError>)
    ensures r.Failure? <==> ty != "executable" && StartsWith(ty, "lib") && ':' !in ty
    ensures r.Failure? ==> r.error == InvalidTargetType(ty)
    ensures r.Success? ==> r.value in {"", ".exe", ".a", ".lib", ".dll", ".so", ".dylib"}
    ensures r == Success(".exe") <==> ty == "executable" && windows
    ensures r == Success(".dll") <==> ty != "executable" && StartsWith(ty, "lib") && ':' in ty && Split(ty, ':')[1] == "dynamic" && windows
  {
    SplitSecond(ty, ':');
    if ty == "executable" then
      Success(if windows then ".exe" else "")
    else if StartsWith(ty, "lib") then
      var spl := Split(ty, ':');
      if |spl| < 2 then Failure(InvalidTargetType(ty))
      else if spl[1] == "static" then
        Success(if Mentions(os, "linux") then ".a" else ".lib")
      else if spl[1] == "dynamic" then
        Success(if windows then ".dll" else if Mentions(os, "linux") then ".so" else ".dylib")
      else Success("")
    else Success("")
  }

  /** A `lib...` type without a `:spec`, which `get_output_file_name` rejects. */
  predicate LacksSpec(ty: string)
  {
    ty != "executable" && StartsWith(ty, "lib") && ':' !in ty
  }

  /** The target types whose extension depends on the OS: the ones that
      reach an `osName.lower()` call. */
  predicate ReadsOs(ty: string)
  {
    || ty == "executable"
    || (StartsWith(ty, "lib") && |Split(ty, ':')| > 1 && Split(ty, ':')[1] in {"static", "dynamic"})
  }

  /** The extension choice when the OS name is missing: the type tests run as
      usual, and the first `osName.lower()` reached raises. */
  function ExtWithoutOs(ty: string): (r: Result<string, BuildError>)
    ensures r.Failure? <==> ReadsOs(ty) || LacksSpec(ty)
    ensures LacksSpec(ty) ==> r == Failure(InvalidTargetType(ty))
    ensures ReadsOs(ty) ==> r == Failure(MissingOsName(ty))
    ensures r.Success? ==> r.value == ""
  {
    SplitSecond(ty, ':');
    if ty == "executable" then Failure(MissingOsName(ty))
    else if StartsWith(ty, "lib") then
      var spl := Split(ty, ':');
      if |spl| < 2 then Failure(InvalidTargetType(ty))
      else if spl[1] == "static" || spl[1] == "dynamic" then Failure(MissingOsName(ty))
      else Success("")
    else Success("")
  }

  /** The extension part of `get_output_file_name`, as written: an OS counts
      as Windows when its lower-cased name contains `win`. */
  function OutputExt(ty: string, os: Option<string>): (r: Result<string, BuildError>)
    ensures r.Failure? <==> LacksSpec(ty) || (os.None? && ReadsOs(ty))
    ensures os.None? && ReadsOs(ty) ==> r == Failure(MissingOsName(ty))
    ensures os.None? && !ReadsOs(ty) && !LacksSpec(ty) ==> r == Success("")
    ensures os.Some? && ty == "executable" ==> (r == Success(".exe") <==> Contains(Lower(os.value), "win"))
    ensures os.Some? && ty == "executable" ==> r.Success? && r.value in {"", ".exe"}
  {
    match os
    case None => ExtWithoutOs(ty)
    case Some(name) =>
      FindFindsOccurrence(Lower(name), "win");
      ExtFor(ty, name, Mentions(name, "win"))
  }

  /** A missing OS name changes the outcome only for the types that read it:
      every other type gets what any OS name would give it, and those that
      read it fail where any OS name would succeed. */
  lemma MissingOsOnlyWhereRead(ty: string, os: string)
    ensures !ReadsOs(ty) ==> OutputExt(ty, None) == OutputExt(ty, Some(os))
    ensures ReadsOs(ty) ==> OutputExt(ty, None).Failure? && OutputExt(ty, Some(os)).Success?
  {
    SplitSecond(ty, ':');
  }

  /** Without an OS name, a library raises exactly when its spec is `static`
      or `dynamic`; any other spec gets no extension. */
  lemma MissingOsLib(ty: string, spec: string)
    requires ty != "executable" && StartsWith(ty, "lib") && ':' in ty && Split(ty, ':')[1] == spec
    ensures spec in {"static", "dynamic"} ==> OutputExt(ty, None) == Failure(MissingOsName(ty))
    ensures spec !in {"static", "dynamic"} ==> OutputExt(ty, None) == Success("")
  {
    SplitSecond(ty, ':');
  }

  /** Without an OS name, an executable raises and a type that is neither
      `executable` nor `lib...` gets no extension. */
  lemma MissingOsExamples()
    ensures OutputExt("executable", None) == Failure(MissingOsName("executable"))
    ensures OutputExt("app", None) == Success("")
  {
  }

  /** Without an OS name, `lib:static` raises. */
  lemma MissingOsStaticLib()
    ensures OutputExt("lib:static", None) == Failure(MissingOsName("lib:static"))
  {
    LibSpec("lib:static", 3, 6, "static");
    MissingOsLib("lib:static", "static");
  }

  /** Without an OS name, `lib:shared` still gets no extension. */
  lemma MissingOsSharedLib()
    ensures OutputExt("lib:shared", None) == Success("")
  {
    LibSpec("lib:shared", 3, 6, "shared");
    MissingOsLib("lib:shared", "shared");
  }

  /** Each extension names the kind of target it was chosen for. */
  lemma ExtensionNamesTheKind(ty: string, os: string, windows: bool)
    ensures ExtFor(ty, os, windows).Success? && ExtFor(ty, os, windows).value in {".a", ".lib", ".dll", ".so", ".dylib"} ==>
              StartsWith(ty, "lib") && ':' in ty && Split(ty, ':')[1] in {"static", "dynamic"}
    ensures ExtFor(ty, os, windows).Success? && ExtFor(ty, os, windows).value in {".a", ".lib"} ==>
              Split(ty, ':')[1] == "static"
    ensures ExtFor(ty, os, windows).Success? && ExtFor(ty, os, windows).value in {".dll", ".so", ".dylib"} ==>
              Split(ty, ':')[1] == "dynamic"
  {
    SplitSecond(ty, ':');
  }

  /** Each extension follows from the OS tests in a fixed order: Windows
      first, then Linux, then the rest. */
  lemma ExtensionFollowsOs(ty: string, os: string, windows: bool)
    ensures var r := ExtFor(ty, os, windows);
            r.Success? ==>
              && (r.value == ".a" ==> Mentions(os, "linux"))
              && (r.value == ".lib" ==> !Mentions(os, "linux"))
              && (r.value == ".so" ==> !windows && Mentions(os, "linux"))
              && (r.value == ".dylib" ==> !windows && !Mentions(os, "linux"))
  {
  }

  /** A `lib` type whose piece after the first `:` is `spec`. */
  lemma LibSpec(ty: string, i: nat, j: nat, spec: string)
    requires 3 <= i < |ty| && ty[..3] == "lib" && ty[i] == ':' && forall k :: 0 <= k < i ==> ty[k] != ':'
    requires i + 1 + j <= |ty| && (i + 1 + j < |ty| ==> ty[i + 1 + j] == ':')
    requires forall k :: i + 1 <= k < i + 1 + j ==> ty[k] != ':'
    requires |spec| == j && forall k :: 0 <= k < j ==> ty[i + 1 + k] == spec[k]
    ensures ty != "executable" && StartsWith(ty, "lib") && ':' in ty && Split(ty, ':')[1] == spec
  {
    SplitSecondIs(ty, ':', i, j);
    assert ty[i + 1..i + 1 + j] == spec;
    assert "executable"[..3] == "exe";
    assert ':' in ty by {
      assert ty[i] == ':';
    }
  }

  /** The extension of a `lib` type with a given spec. */
  lemma LibExt(ty: string, os: string, windows: bool, spec: string)
    requires ty != "executable" && StartsWith(ty, "lib") && ':' in ty && Split(ty, ':')[1] == spec
    ensures spec == "static" ==> ExtFor(ty, os, windows) == Success(if Mentions(os, "linux") then ".a" else ".lib")
    ensures spec == "dynamic" ==> ExtFor(ty, os, windows) == Success(if windows then ".dll" else if Mentions(os, "linux") then ".so" else ".dylib")
    ensures spec != "static" && spec != "dynamic" ==> ExtFor(ty, os, windows) == Success("")
  {
    SplitSecond(ty, ':');
  }

  /** The spec is the piece after the first `:`, whatever follows it. */
  lemma StaticSpecBeforeSecondColon(os: string)
    requires Mentions(os, "linux")
    ensures OutputExt("lib:static:extra", Some(os)) == Success(".a")
  {
    LibSpec("lib:static:extra", 3, 6, "static");
    LibExt("lib:static:extra", os, Mentions(os, "win"), "static");
  }

  /** The `lib` prefix need not be followed by the `:` directly. */
  lemma LibPrefixAnyName(os: string)
    requires Mentions(os, "linux") && !Mentions(os, "win")
    ensures OutputExt("libfoo:dynamic", Some(os)) == Success(".so")
  {
    LibSpec("libfoo:dynamic", 6, 7, "dynamic");
    LibExt("libfoo:dynamic", os, false, "dynamic");
  }

  /** A `lib` type without a spec is an error; an unknown spec and a type
      that is neither `executable` nor `lib...` get no extension. */
  lemma LibWithoutSpec(os: string)
    ensures OutputExt("lib", Some(os)) == Failure(InvalidTargetType("lib"))
    ensures OutputExt("lib:shared", Some(os)) == Success("")
    ensures OutputExt("app", Some(os)) == Success("")
  {
    assert "lib"[..3] == "lib";
    LibSpec("lib:shared", 3, 6, "shared");
  }

  /** As written, `darwin` contains `win`: a macOS executable is named `.exe`. */
  lemma DarwinExecutableTakenForWindows()
    ensures OutputExt("executable", Some("darwin")) == Success(".exe")
  {
    FoundInLower("darwin", "win", 3);
  }

  /** As written, a macOS dynamic library is named `.dll`. */
  lemma DarwinLibraryTakenForWindows()
    ensures OutputExt("lib:dynamic", Some("Darwin")) == Success(".dll")
  {
    FoundInLower("Darwin", "win", 3);
    LibSpec("lib:dynamic", 3, 7, "dynamic");
  }

  /** An OS counts as Windows when its name contains `win` and is not `darwin`. */
  predicate IsWindowsName(os: string)
  {
    Mentions(os, "win") && !Mentions(os, "darwin")
  }

  /** The extension choice with `darwin` no longer taken for Windows. */
  function OutputExtCorrected(ty: string, os: Option<string>): (r: Result<string, BuildError>)
    ensures r.Failure? <==> OutputExt(ty, os).Failure?
    ensures os.Some? && Mentions(os.value, "darwin") ==> r.Success? ==> r.value != ".exe" && r.value != ".dll"
    ensures os.None? || !Mentions(os.value, "darwin") ==> r == OutputExt(ty, os)
  {
    match os
    case None => ExtWithoutOs(ty)
    case Some(name) => ExtFor(ty, name, IsWindowsName(name))
  }

  /** Corrected, a macOS executable has no extension. */
  lemma DarwinExecutableCorrected()
    ensures OutputExtCorrected("executable", Some("darwin")) == Success("")
  {
    FoundInLower("darwin", "darwin", 0);
  }

  /** Corrected, a macOS dynamic library is a `.dylib`. */
  lemma DarwinLibraryCorrected()
    ensures OutputExtCorrected("lib:dynamic", Some("Darwin")) == Success(".dylib")
  {
    FoundInLower("Darwin", "darwin", 0);
    MissingFromLower("Darwin", "linux", 0);
    LibSpec("lib:dynamic", 3, 7, "dynamic");
  }

  /** Corrected, a Windows name still gets `.exe`. */
  lemma WindowsExecutableCorrected()
    ensures OutputExtCorrected("executable", Some("win32")) == Success(".exe")
  {
    FoundInLower("win32", "win", 0);
    MissingFromLower("win32", "darwin", 0);
  }

  // ---------------------------------------------------------------------------
  // Object file names
  // ---------------------------------------------------------------------------

  /** Both separator kinds written as `+`, so a relative path becomes one file name. */
  function Mangle(rel: string): (r: string)
    ensures |r| == |rel|
    ensures forall i :: 0 <= i < |rel| ==> r[i] == (if Util.IsPathSep(rel[i]) then '+' else rel[i])
    ensures forall i :: 0 <= i < |r| ==> !Util.IsPathSep(r[i])
  {
    ReplaceChar(ReplaceChar(rel, '/', '+'), '\\', '+')
  }

  /** The index of the last `c` in `s`, or `-1`. */
  function LastIndexOf(s: string, c: char): (i: int)
    ensures -1 <= i < |s|
    ensures i >= 0 ==> s[i] == c
    ensures forall k :: i < k < |s| ==> s[k] != c
  {
    if s == [] then -1
    else if s[|s| - 1] == c then |s| - 1
    else LastIndexOf(s[..|s| - 1], c)
  }

  /** The last path component of `p` has a `.` somewhere after a character
      that is not a `.`: the case in which it has an extension. */
  ghost predicate HasExtension(p: string)
  {
    exists k :: LastIndexOf(p, '/') < k < |p| && p[k] != '.' && '.' in p[k + 1..]
  }

  /** `os.path.splitext` on POSIX: the extension runs from the last `.` of the
      last path component, unless that component has only dots before it. */
  function SplitExt(p: string): (parts: (string, string))
    ensures parts.0 + parts.1 == p
    ensures HasExtension(p) ==> parts.1 == p[LastIndexOf(p, '.')..]
    ensures !HasExtension(p) ==> parts.1 == []
    ensures parts.1 == [] || parts.1[0] == '.'
    ensures forall k :: 0 < k < |parts.1| ==> parts.1[k] != '.' && parts.1[k] != '/'
  {
    var sepIndex := LastIndexOf(p, '/');
    var dotIndex := LastIndexOf(p, '.');
    if dotIndex > sepIndex && exists k :: sepIndex < k < dotIndex && p[k] != '.' then
      (p[..dotIndex], p[dotIndex..])
    else
      (p, "")
  }

  /** The file-name part of `get_obj_output`: the relative path mangled, its
      extension replaced by `.o`. */
  function ObjName(rel: string): (r: string)
    ensures |r| >= 2 && r[|r| - 2..] == ".o"
    ensures forall i :: 0 <= i < |r| ==> !Util.IsPathSep(r[i])
    ensures r[..|r| - 2] + SplitExt(Mangle(rel)).1 == Mangle(rel)
  {
    var m := Mangle(rel);
    var root := SplitExt(m).0;
    assert root == m[..|root|];
    root + ".o"
  }

  /** The last `c` is at `i` (or there is none, when `i == -1`). */
  lemma LastIndexOfIs(s: string, c: char, i: int)
    requires -1 <= i < |s| && (i >= 0 ==> s[i] == c)
    requires forall k :: i < k < |s| ==> s[k] != c
    ensures LastIndexOf(s, c) == i
  {
  }

  /** The extension of a name with no `/` whose first character is not a dot
      starts at its last dot. */
  lemma SplitExtAtLastDot(p: string, d: nat)
    requires 0 < d < |p| && p[d] == '.' && p[0] != '.'
    requires forall k :: d < k < |p| ==> p[k] != '.'
    requires forall k :: 0 <= k < |p| ==> p[k] != '/'
    ensures SplitExt(p) == (p[..d], p[d..])
  {
    LastIndexOfIs(p, '/', -1);
    LastIndexOfIs(p, '.', d);
    assert -1 < 0 < d && p[0] != '.';
  }

  /** The object name of a relative path whose mangled form has its last dot at `d`. */
  lemma ObjNameAtLastDot(rel: string, d: nat)
    requires 0 < d < |rel| && rel[d] == '.' && rel[0] != '.' && !Util.IsPathSep(rel[0])
    requires forall k :: d < k < |rel| ==> rel[k] != '.'
    ensures ObjName(rel) == Mangle(rel)[..d] + ".o"
  {
    var m := Mangle(rel);
    forall k | 0 <= k < |m| ensures m[k] != '/' {
    }
    SplitExtAtLastDot(m, d);
  }

  /** `a<sep>b.<ext>` has its only dot at index 3 when `ext` has none. */
  lemma ABPathShape(sep: char, ext: string)
    requires forall k :: 0 <= k < |ext| ==> ext[k] != '.'
    ensures var rel := "a" + [sep] + "b." + ext;
            && 3 < |rel| && rel[..3] == "a" + [sep] + "b" && rel[3] == '.'
            && forall k :: 3 < k < |rel| ==> rel[k] != '.'
  {
    var rel := "a" + [sep] + "b." + ext;
    forall k | 3 < k < |rel| ensures rel[k] != '.' {
      assert rel[k] == ext[k - 4];
    }
  }

  /** `a/b`, `a\\b` and `a+b` mangle alike. */
  lemma MangledAB(rel: string, sep: char)
    requires Util.IsPathSep(sep) || sep == '+'
    requires 3 <= |rel| && rel[..3] == "a" + [sep] + "b"
    ensures Mangle(rel)[..3] == "a+b"
  {
    assert rel[0] == 'a' && rel[1] == sep && rel[2] == 'b';
  }

  /** Different sources can share an object file: `a/b`, `a\\b` and `a+b`
      are not told apart, nor are their extensions, so every `a<sep>b.<ext>`
      becomes `a+b.o`. */
  lemma ObjNameCollisions(sep: char, ext: string)
    requires Util.IsPathSep(sep) || sep == '+'
    requires forall k :: 0 <= k < |ext| ==> ext[k] != '.'
    ensures ObjName("a" + [sep] + "b." + ext) == "a+b.o"
  {
    var rel := "a" + [sep] + "b." + ext;
    ABPathShape(sep, ext);
    MangledAB(rel, sep);
    assert rel[0] == rel[..3][0];
    ObjNameAtLastDot(rel, 3);
  }

  /** A leading dot does not start an extension. */
  lemma ObjNameLeadingDot()
    ensures ObjName(".hidden") == ".hidden.o"
  {
    assert Mangle(".hidden") == ".hidden";
    LastIndexOfIs(".hidden", '/', -1);
    LastIndexOfIs(".hidden", '.', 0);
    assert SplitExt(".hidden") == (".hidden", "");
  }

  // ---------------------------------------------------------------------------
  // Source file test
  // ---------------------------------------------------------------------------

  /** `SRC_FILE_EXTENSIONS`. */
  const SrcFileExtensions: seq<string> := ["c", "cpp", "cxx", "cx", "c++"]

  /** The test in `compile_all_in`: split on `.`, there are at least two
      pieces and the second is a known extension. */
  predicate IsSourceFile(name: string)
  {
    var spl := Split(name, '.');
    |spl| > 1 && spl[1] in SrcFileExtensions
  }

  /** The text between the first `.` of a name and the next `.` (or the
      end), if the name has a `.` at all. */
  function FirstSuffix(name: string): (r: Option<string>)
    ensures r.None? <==> '.' !in name
    ensures r.Some? ==> forall k :: 0 <= k < |r.value| ==> r.value[k] != '.'
  {
    var i := IndexOf(name, '.');
    if i == |name| then None
    else
      var rest := name[i + 1..];
      Some(rest[..IndexOf(rest, '.')])
  }

  /** A file is compiled exactly when the text after its first `.`, up to the
      next `.`, is a known extension: the last extension plays no part. */
  lemma IsSourceFileByFirstSuffix(name: string)
    ensures IsSourceFile(name) <==> FirstSuffix(name).Some? && FirstSuffix(name).value in SrcFileExtensions
  {
    SplitSecond(name, '.');
  }

  lemma SourceFileExample()
    ensures IsSourceFile("main.cpp")
  {
    SplitSecondIs("main.cpp", '.', 4, 3);
  }

  /** The second `.`-separated piece of `stem.mid.rest`, for a `stem` and a
      `mid` without dots, is `mid`. */
  lemma SecondPieceIs(stem: string, mid: string, rest: string)
    requires forall k :: 0 <= k < |stem| ==> stem[k] != '.'
    requires forall k :: 0 <= k < |mid| ==> mid[k] != '.'
    ensures |Split(stem + "." + mid + "." + rest, '.')| > 1
    ensures Split(stem + "." + mid + "." + rest, '.')[1] == mid
  {
    var s := stem + "." + mid + "." + rest;
    var i := |stem|;
    assert s[i] == '.' && s[i + 1 + |mid|] == '.';
    forall k | 0 <= k < i ensures s[k] != '.' {
      assert s[k] == stem[k];
    }
    forall k | i + 1 <= k < i + 1 + |mid| ensures s[k] != '.' {
      assert s[k] == mid[k - i - 1];
    }
    SplitSecondIs(s, '.', i, |mid|);
    assert s[i + 1..i + 1 + |mid|] == mid;
  }

  /** Only the piece after the first dot counts: whatever follows a source
      extension, such as the `.bak` of `a.cpp.bak`, the file is compiled ... */
  lemma FirstSuffixCounts(stem: string, ext: string, rest: string)
    requires forall k :: 0 <= k < |stem| ==> stem[k] != '.'
    requires ext in SrcFileExtensions
    ensures IsSourceFile(stem + "." + ext + "." + rest)
  {
    assert forall k :: 0 <= k < |ext| ==> ext[k] != '.';
    SecondPieceIs(stem, ext, rest);
  }

  /** ... and when that piece is not a source extension, the last one does
      not help: `a.b.cpp` is not compiled. */
  lemma LastSuffixIgnored(stem: string, mid: string, ext: string)
    requires forall k :: 0 <= k < |stem| ==> stem[k] != '.'
    requires forall k :: 0 <= k < |mid| ==> mid[k] != '.'
    requires mid !in SrcFileExtensions
    ensures !IsSourceFile(stem + "." + mid + "." + ext)
  {
    SecondPieceIs(stem, mid, ext);
  }

  /** A name without a dot is never compiled; a bare `.c` is. */
  lemma DotlessAndDotOnly()
    ensures !IsSourceFile("Makefile")
    ensures IsSourceFile(".c")
  {
    IndexOfIs("Makefile", '.', 8);
    SplitSecond("Makefile", '.');
    SplitSecondIs(".c", '.', 0, 1);
  }
}
