/** The free functions of libpy/util.py: `is_path_sep`, `fix_path` and
    `get_idx_by_pos`. */
module Util {
  import opened Wrappers
  import opened Readers

  /** `is_path_sep`: both the POSIX and the Windows separator. */
  predicate IsPathSep(c: char)
  {
    c == '\\' || c == '/'
  }

  /** `get_idx_by_pos(len, pos)`: a negative position counts back from `len`,
      any other position is taken as it is (no clamping here). */
  function GetIdxByPos(len: int, pos: int): (i: int)
    ensures pos < 0 ==> i < len
    ensures pos >= 0 ==> i == pos
    ensures i - pos == (if pos < 0 then len else 0)
  {
    if pos < 0 then len + pos else pos
  }

  // ---------------------------------------------------------------------------
  // fix_path
  // ---------------------------------------------------------------------------

  /** A path cut at its separators: the segments closed by a separator, in
      order, and the unterminated text after the last separator. */
  datatype Segments = Segments(complete: seq<string>, tail: string)

  /** The segmentation of `s`, built one character at a time from the left. */
  function PathSegments(s: string): (segs: Segments)
    ensures forall i :: 0 <= i < |segs.tail| ==> !IsPathSep(segs.tail[i])
    ensures forall i, j :: 0 <= i < |segs.complete| && 0 <= j < |segs.complete[i]| ==> !IsPathSep(segs.complete[i][j])
  {
    if s == [] then Segments([], [])
    else
      var prev := PathSegments(s[..|s| - 1]);
      var c := s[|s| - 1];
      if IsPathSep(c) then Segments(prev.complete + [prev.tail], [])
      else Segments(prev.complete, prev.tail + [c])
  }

  /** A segment of the form `%NAME%` names an environment variable. */
  predicate IsEnvRef(seg: string)
  {
    |seg| > 2 && seg[0] == '%'
  }

  /** The value a segment contributes: `os.getenv(seg[1:-1])` for an
      environment reference (its last character is dropped unchecked), the
      segment itself otherwise. `env` stands for the process environment. */
  function Expand(seg: string, env: string -> Option<string>): Option<string>
  {
    if IsEnvRef(seg) then env(seg[1..|seg| - 1]) else Some(seg)
  }

  function ExpandAll(segs: seq<string>, env: string -> Option<string>): (r: seq<Option<string>>)
    ensures |r| == |segs|
    ensures forall i :: 0 <= i < |segs| ==> r[i] == Expand(segs[i], env)
  {
    seq(|segs|, i requires 0 <= i < |segs| => Expand(segs[i], env))
  }

  /** Every segment followed by `/`; a missing segment (an unset variable)
      makes `segment + "/"` raise, modelled as `None`. */
  function Stitch(segs: seq<Option<string>>): (r: Option<string>)
    ensures r.None? <==> exists i :: 0 <= i < |segs| && segs[i].None?
  {
    if segs == [] then Some("")
    else
      var init := Stitch(segs[..|segs| - 1]);
      var last := segs[|segs| - 1];
      if init.None? || last.None? then None else Some(init.value + last.value + "/")
  }

  /** Where the text after the last separator starts (0 when there is none). */
  function LastSepEnd(s: string): (k: nat)
    ensures k <= |s|
    ensures k > 0 ==> IsPathSep(s[k - 1])
    ensures forall j :: k <= j < |s| ==> !IsPathSep(s[j])
  {
    if s == [] then 0
    else if IsPathSep(s[|s| - 1]) then |s|
    else LastSepEnd(s[..|s| - 1])
  }

  /** Every separator of `s` written as `/`. */
  function SlashSeps(s: string): (r: string)
    ensures |r| == |s|
    ensures forall i :: 0 <= i < |s| ==> r[i] == (if IsPathSep(s[i]) then '/' else s[i])
  {
    seq(|s|, i requires 0 <= i < |s| => if IsPathSep(s[i]) then '/' else s[i])
  }

  /** The independent description of `fix_path` on a path without
      environment references: the path up to and including its last
      separator, with both separator kinds written as `/`. */
  function SlashPrefix(s: string): string
  {
    SlashSeps(s[..LastSepEnd(s)])
  }

  predicate NoEnvRefs(s: string)
  {
    forall i :: 0 <= i < |PathSegments(s).complete| ==> !IsEnvRef(PathSegments(s).complete[i])
  }

  /** The tail is exactly the text after the last separator. */
  lemma {:induction false} TailAfterLastSep(s: string)
    ensures s == s[..LastSepEnd(s)] + PathSegments(s).tail
  {
    if s != [] {
      var init := s[..|s| - 1];
      TailAfterLastSep(init);
      if !IsPathSep(s[|s| - 1]) {
        assert s == init + [s[|s| - 1]];
        assert s[..LastSepEnd(s)] == init[..LastSepEnd(init)];
      }
    }
  }

  /** Closing a segment with a separator extends the slash prefix by that
      segment and a `/`. */
  lemma SlashPrefixAtSep(s: string)
    requires s != [] && IsPathSep(s[|s| - 1])
    ensures SlashPrefix(s) == SlashPrefix(s[..|s| - 1]) + PathSegments(s[..|s| - 1]).tail + "/"
  {
    var init := s[..|s| - 1];
    var tail := PathSegments(init).tail;
    var head := init[..LastSepEnd(init)];
    assert s == init + [s[|s| - 1]];
    assert LastSepEnd(s) == |s|;
    assert SlashPrefix(s) == SlashSeps(s) by {
      assert s[..|s|] == s;
    }
    SlashSepsAppend(init, [s[|s| - 1]]);
    assert SlashSeps([s[|s| - 1]]) == "/";
    TailAfterLastSep(init);
    SlashSepsAppend(head, tail);
    assert SlashSeps(tail) == tail;
    assert SlashSeps(init) == SlashPrefix(init) + tail;
  }

  /** Without environment references, stitching the complete segments gives
      the slash-normalised prefix: separators become `/`, empty segments are
      kept, and text after the last separator is dropped. */
  lemma {:induction false} StitchIsSlashPrefix(s: string, env: string -> Option<string>)
    requires NoEnvRefs(s)
    ensures Stitch(ExpandAll(PathSegments(s).complete, env)) == Some(SlashPrefix(s))
  {
    if s != [] {
      var init := s[..|s| - 1];
      var prev := PathSegments(init);
      if IsPathSep(s[|s| - 1]) {
        var all := ExpandAll(PathSegments(s).complete, env);
        assert PathSegments(s).complete == prev.complete + [prev.tail];
        assert NoEnvRefs(init) by {
          forall i | 0 <= i < |prev.complete| ensures !IsEnvRef(prev.complete[i]) {
            assert PathSegments(s).complete[i] == prev.complete[i];
          }
        }
        StitchIsSlashPrefix(init, env);
        assert all[..|all| - 1] == ExpandAll(prev.complete, env);
        assert all[|all| - 1] == Some(prev.tail) by {
          assert PathSegments(s).complete[|all| - 1] == prev.tail;
        }
        SlashPrefixAtSep(s);
      } else {
        assert PathSegments(s).complete == prev.complete;
        StitchIsSlashPrefix(init, env);
        assert s[..LastSepEnd(s)] == init[..LastSepEnd(init)];
      }
    }
  }

  lemma SlashSepsAppend(a: string, b: string)
    ensures SlashSeps(a + b) == SlashSeps(a) + SlashSeps(b)
  {
    assert forall i :: 0 <= i < |a + b| ==> SlashSeps(a + b)[i] == (SlashSeps(a) + SlashSeps(b))[i];
  }

  /** The reader loop of `fix_path`: cuts the path at separators and expands each complete segment. */
  method ExpandSegments(pstr: string, env: string -> Option<string>) returns (segments: seq<Option<string>>)
    ensures segments == ExpandAll(PathSegments(pstr).complete, env)
  {
    var seg := "";
    segments := [];
    ghost var raw: seq<string> := [];
    var reader := Start(pstr);
    var ch := Current(reader);
    while ch != None
      invariant reader.text == pstr && 0 <= reader.idx <= |pstr|
      invariant ch == Current(reader)
      invariant PathSegments(pstr[..reader.idx]) == Segments(raw, seg)
      invariant segments == ExpandAll(raw, env)
      decreases |pstr| - reader.idx
    {
      assert pstr[..reader.idx + 1][..reader.idx] == pstr[..reader.idx];
      if IsPathSep(ch.value) {
        var value := if |seg| > 2 && seg[0] == '%' then env(seg[1..|seg| - 1]) else Some(seg);
        segments := segments + [value];
        raw := raw + [seg];
        seg := "";
      } else {
        seg := seg + [ch.value];
      }
      var moved := Next(reader, 1);
      reader := moved.reader;
      ch := moved.read;
    }
    assert pstr[..reader.idx] == pstr;
  }

  /** The stitching loop of `fix_path`: every segment followed by `/`, failing on a missing one. */
  method StitchSegments(segments: seq<Option<string>>) returns (r: Option<string>)
    ensures r == Stitch(segments)
  {
    var result := "";
    var k := 0;
    while k < |segments|
      invariant 0 <= k <= |segments|
      invariant Stitch(segments[..k]) == Some(result)
    {
      assert segments[..k + 1][..k] == segments[..k];
      if segments[k].None? {
        assert Stitch(segments).None?;
        return None;
      }
      result := result + segments[k].value + "/";
      k := k + 1;
    }
    assert segments[..k] == segments;
    r := Some(result);
  }

  /** `fix_path(pstr)`, driven by a `Reader` exactly as the source loop is. */
  method FixPath(pstr: string, env: string -> Option<string>) returns (r: Option<string>)
    ensures r == Stitch(ExpandAll(PathSegments(pstr).complete, env))
    ensures r.None? <==> exists i :: 0 <= i < |PathSegments(pstr).complete| && Expand(PathSegments(pstr).complete[i], env).None?
    ensures NoEnvRefs(pstr) ==> r == Some(SlashPrefix(pstr))
  {
    var segments := ExpandSegments(pstr, env);
    r := StitchSegments(segments);
    if NoEnvRefs(pstr) {
      StitchIsSlashPrefix(pstr, env);
    }
  }

  /** `"a\\b/c"` gives `"a/b/"`; a path without separators gives `""`. */
  lemma FixPathExamples()
    ensures SlashPrefix("a\\b/c") == "a/b/"
    ensures SlashPrefix("abc") == ""
  {
    assert LastSepEnd("a\\b/c") == 4 by {
      assert "a\\b/c"[..4] == "a\\b/";
    }
    assert "a\\b/c"[..4] == "a\\b/";
    assert LastSepEnd("abc") == 0 by {
      assert "abc"[..2] == "ab";
      assert "ab"[..1] == "a";
    }
  }
}
