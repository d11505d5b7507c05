# Command-line parsing and build naming rules, in Dafny

This project models the small Python utility library behind a native build
script, and the pure naming rules of the script itself:

- **`Reader`** (libpy/util.py): a string with an integer cursor. The cursor
  is never clamped, and reads outside the text give "no character". It has
  `current`, `next`, `prev`, `peek`, `at`, `collect` and `pcollect`.
- **`fix_path`, `is_path_sep`, `get_idx_by_pos`** (libpy/util.py):
  - `fix_path` cuts a path at `/` and `\`.
  - It expands `%NAME%` segments from the environment.
  - It rejoins the complete segments with `/`.
- **`Arg` and `ArgParser`** (libpy/args.py):
  - the argument constructors and `POS_APPEND_BACK`;
  - registration (`add`, `define_type`);
  - the command-line `parse` loop with its long (`--name=v`, `--name v`), short (`-abF...`) and positional branches.
- **native-build.py**:
  - OS and architecture name normalisation and the platform string;
  - the output file extension chosen by target type and OS;
  - the object file name derived from a source path;
  - the test that decides which files get compiled.

Each Python object that is mutated in place is an immutable datatype here.
Each mutating method is a function that returns the new value.

- **The parse loop.** It is one function per iteration (`Args.Step`), driven
  by `Args.Loop` over a `State` (the reader, the positional index and the
  output map).
- **Errors.** An exception becomes a `Failure`. A failed parse keeps the map
  as it stood, because Python does not undo the writes made before the
  failing token.
- **Caller-supplied code.** The value converters (`arg.ty.parse`) and the
  switch handlers are parameters:
  - A converter receives the argument and the reader. It returns a value and
    how many characters it consumed, or an error message.
  - A switch handler maps the argument to a value.
- **The environment.** `os.getenv` in `fix_path` is a lookup-function
  parameter.
- **Host queries.** `os.name` and `platform.processor()` in the `'local'`
  branches are string parameters.

Files:

- `wrappers.dfy`: `Option` and `Result`.
- `reader.dfy`: module `Readers`.
- `util.dfy`: module `Util`.
- `args.dfy`: module `Args`.
- `args_props.dfy`: module `ArgsProps`, the properties of registration and parsing.
- `strings.dfy`: module `Strings`, the Python `str` operations the build rules use.
- `native_build.dfy`: module `NativeBuild`.

Where the code does something a reader might not expect, the model follows the code:

- **Registration order.** Registering A (appended), then B (position 0),
  then C (position -1) gives the positional order B, C, A. Python inserts
  position -1 *before* the last element, so C does not end up last
  (`ArgsProps.RegistrationOrderExample`).
- **Duplicates.** Re-registering a name or a character overwrites silently.
  No error is raised.
- **Short flag lookup.** Short flags are looked up in `arg_map`, which is
  keyed by *name*. `by_char` is written but never read, so `-a` only works
  for an argument whose name is `a` (`ArgsProps.ShortFlagLooksUpNames`).
  The type registry filled by `define_type` is never read either
  (`ArgsProps.ParseIgnoresRegistries`).
- **No end check after whitespace.** After skipping whitespace, the loop does
  not check again for the end of the input. With the advancing `pcollect`
  (see Findings), trailing whitespace therefore reaches the positional branch
  and fails when no positional argument is left (`ArgsProps.TrailingSpaceFails`).
  As written, `pcollect` never advances, so any whitespace hangs there instead.
- **Lookup errors.** An unknown name or character raises `KeyError` and a
  surplus positional token raises `IndexError`. The `if not arg` checks after
  them are unreachable. The model reports these as `UnknownName`,
  `UnknownChar` and `MissingPositional`.

## Model

| member | source | states |
|---|---|---|
| `Readers.Start` | libpy/util.py:8-10 | a new reader keeps the whole text and puts its cursor at index 0, on the first character, or on nothing for the empty string |
| `Readers.Current` | libpy/util.py:12-15 | there is no character exactly when the cursor is before 0 or at/after the end; otherwise the character under the cursor |
| `Readers.Next` | libpy/util.py:17-21 | the cursor moves forward by any amount, the text is unchanged, and the character returned is the one now under the cursor |
| `Readers.Prev` | libpy/util.py:23-27 | the cursor moves back by any amount, the text is unchanged, and the character returned is the one now under the cursor |
| `Readers.NextPrevRoundTrip` | libpy/util.py:17-27 | `next(k)` and `prev(k)` undo each other in either order |
| `Readers.Peek` | libpy/util.py:29-33 | peeking at an offset reads what moving there would read; the result exists exactly when the offset lands inside the text |
| `Readers.At` | libpy/util.py:35-42 | index 0 is the current character; a non-positive index is a relative peek; a positive index is absolute and fails exactly when it is past the end |
| `Readers.CollectAsWritten` | libpy/util.py:44-48 | `collect` as written, with an iteration bound: whatever it returns is the text accumulated so far |
| `Readers.CollectAsWrittenNeverAdvances` | libpy/util.py:44-53 | as written, the collection loop never returns when the predicate accepts the first character, for any number of iterations, and returns `""` at once otherwise |
| `Readers.CollectAsWrittenHangsOnName` | libpy/util.py:44-48 | on `ab` with the long-name predicate, `collect` as written never returns, while the advancing version returns `ab` |
| `Readers.Collect` | libpy/util.py:44-48 | the advancing collection returns the longest run of accepted characters at the cursor, which is exactly the slice it skipped; it stops at the end or on a rejected character; a rejected first character leaves the reader where it was |
| `Readers.PCollect` | libpy/util.py:50-53 | the advancing skip moves forward over accepted characters only and stops at the end or on a rejected character |
| `Readers.CollectReadsForward` | libpy/util.py:44-48 | collection depends only on the text from the cursor onwards |
| `Readers.CollectWord` | libpy/util.py:44-48 | a word of accepted characters, followed by the end or a rejected one, is collected exactly |
| `Util.GetIdxByPos` | libpy/util.py:83-87 | a negative position counts back from the length; any other position is kept as it is |
| `Util.IsPathSep` | libpy/util.py:55-56 | defines a separator as `/` or `\`, nothing else |
| `Util.PathSegments` | libpy/util.py:58-73 | the segments and the trailing text of a path contain no separator |
| `Util.Expand` | libpy/util.py:66-67 | defines a segment's value: for `%...` longer than two characters, the environment lookup of the text between the first and the last character (the last is dropped whether or not it is `%`); any other segment is itself |
| `Util.Stitch` | libpy/util.py:75-79 | stitching fails exactly when some segment is missing (an unset environment variable) |
| `Util.TailAfterLastSep` | libpy/util.py:58-73 | the text left in the segment buffer at the end is exactly what follows the last separator |
| `Util.StitchIsSlashPrefix` | libpy/util.py:58-79 | without `%NAME%` segments, the stitched result is the path up to its last separator with every separator written as `/` |
| `Util.FixPath` | libpy/util.py:58-79 | the reader-driven loop and the stitching loop compute the stitched expansion of the complete segments; the result is missing exactly when one segment expands to nothing; without `%NAME%` segments it is the slash-normalised prefix |
| `Util.ExpandSegments` | libpy/util.py:59-73 | the reader loop yields the expansions of exactly the complete segments, those ended by a separator, in order |
| `Util.StitchSegments` | libpy/util.py:75-79 | the stitching loop gives every segment followed by `/`, and fails at the first missing one |
| `Util.FixPathExamples` | libpy/util.py:58-79 | `a\b/c` becomes `a/b/`, and a path without a separator becomes `""` |
| `Args.ConstructorKinds` | libpy/args.py:18-35 | `new` makes a named value argument, `new_switch` a named switch, `new_positional` a positional one appended at the back, `new_positional_at` a positional one at the given position |
| `Args.ListInsert` | libpy/args.py:67 | Python's `list.insert` puts the element at the clamped index, keeps everything before it, and shifts everything after it by one |
| `Args.PlacePositional` | libpy/args.py:63-67 | a non-positional argument leaves the list alone; a positional one lands at its placement, and removing it gives the old list back; `POS_APPEND_BACK` appends |
| `Args.Add` | libpy/args.py:59-67 | `add` files the argument under its name and its character, overwriting, leaving every other entry alone; a positional argument is inserted at its placement, and removing it gives the old list back; `POS_APPEND_BACK` appends |
| `Args.Empty` | libpy/args.py:50-54 | a new parser has no registered name and satisfies the registry invariant that `add` preserves |
| `Args.DefineType` | libpy/args.py:56-57 | `define_type` files the type parser under its key and changes nothing else |
| `Args.AddPreservesWellFormed` | libpy/args.py:59-67 | registration keeps every argument under its own name and character, and only positional arguments in the positional list |
| `Args.Fresh` | libpy/args.py:77-78 | a missing or empty output map is replaced by an empty one, and a non-empty map is used as it is (by value; see "Left out" for the empty-dict case) |
| `Args.ParseVal` | libpy/args.py:69-74 | succeeds exactly when the converter does; then the value is the converter's and the reader has moved forward by exactly the count the converter consumed; a converter error becomes a failure naming the argument and carrying its message |
| `Args.ConvertInto` | libpy/args.py:122-124 | succeeds exactly when the converter does; then the output is the old map with the argument's name set to the converted value, the reader has moved by exactly the consumed count and the positional index is kept; a failure keeps the output as it was and carries the converter's message |
| `Args.IsSpace` | libpy/args.py:86 | defines whitespace as the characters Python's `str.isspace` accepts: tab to carriage return, the separators 0x1C-0x1F, space, 0x85, no-break space and the other Unicode spaces |
| `Args.IsNameChar` | libpy/args.py:96 | defines a long-name character as anything but a space or `=` |
| `Args.LongArg` | libpy/args.py:93-113 | the long branch never moves back, writes only registered names, and a failure keeps the output as it was |
| `Args.ShortRun` | libpy/args.py:114-128 | the short branch never moves back, writes only registered names, and keeps the positional index |
| `Args.Positional` | libpy/args.py:129-134 | a plain token uses up exactly one positional argument, and fails when none is left |
| `Args.Dispatch` | libpy/args.py:88-134 | after whitespace, the branch taken keeps the text, never moves back, either moves forward or uses up one positional argument, and writes only registered names |
| `Args.Step` | libpy/args.py:84-134 | one iteration skips whitespace and dispatches; it keeps the text, moves forward or uses up a positional argument, and writes only registered names |
| `Args.Loop` | libpy/args.py:84-136 | the loop writes only registered names, on success and in the partial map of a failure, and returns the map unchanged at the end of the input |
| `Args.Parse` | libpy/args.py:76-136 | parsing updates the (fresh if missing) output map at registered names only; an empty input returns it unchanged; which registered names a given text can write is `ArgsProps.ParseKeepsUnmentioned` |
| `ArgsProps.PlacementIndex` | libpy/args.py:63-67 | a positional argument lands at the index Python's insert gives for each range of positions, including the double count-back for positions below minus the length |
| `ArgsProps.RegistrationOrderExample` | libpy/args.py:59-67 | appending A, then B at 0, then C at -1 gives the order B, C, A |
| `ArgsProps.AddOverwrites` | libpy/args.py:59-62 | re-adding a name replaces the earlier argument silently |
| `ArgsProps.StepIsDispatch` | libpy/args.py:84-93 | an iteration skips whitespace and then dispatches on `--`, `-` or anything else at the first non-space character |
| `ArgsProps.DispatchIsIndexed` | libpy/args.py:88-93 | the dispatch at index `j` tests `t[j]` and `t[j+1]` for dashes and enters the long branch at `j+2`, the short run at `j+1`, or the positional branch at `j` |
| `ArgsProps.StepSkipsWhitespace` | libpy/args.py:85-88 | an iteration starting on a stretch of whitespace does what an iteration starting after it does |
| `ArgsProps.TrailingWhitespaceIsPositional` | libpy/args.py:84-131 | with the advancing `pcollect` (see Findings), trailing whitespace is followed by no end check: the positional branch runs at the end of the input and fails when no positional argument is left |
| `ArgsProps.PositionalToken` | libpy/args.py:129-134 | a token not starting with `-` binds to the next positional argument, or fails when none is left |
| `ArgsProps.LongStep` | libpy/args.py:91-96 | an iteration on `--name` enters the long branch just past the dashes, and the name read there is exactly `name` |
| `ArgsProps.LongArgValue` | libpy/args.py:98-108 | once the name is read, a value argument, or a switch followed by `=`, skips one character and converts |
| `ArgsProps.LongSwitchAfterName` | libpy/args.py:106-113 | once a switch's name is read with no `=` after it, the handler's value is stored under the name and the reader stays after the name |
| `ArgsProps.LongValueSkipsOneChar` | libpy/args.py:93-108 | for a value argument (or a switch written with `=`), exactly one character after the name is skipped and the converter sees the rest |
| `ArgsProps.LongSwitchConsumesNothing` | libpy/args.py:106-113 | a long switch without `=` stores its handler's value and consumes nothing after its name |
| `ArgsProps.UnknownLongNameFails` | libpy/args.py:96-100 | an unregistered long name fails and writes nothing |
| `ArgsProps.SwitchWritesContent` | libpy/args.py:126-128 | a run of switches writes each switch's handler value under its name and touches nothing else |
| `ArgsProps.ShortRunSwitches` | libpy/args.py:115-128 | switch characters are consumed one at a time, each storing its handler's value |
| `ArgsProps.ShortRunSwitchChar` | libpy/args.py:126-128 | a switch character stores its handler's value under its argument's name and the run goes on at the next character |
| `ArgsProps.ShortStep` | libpy/args.py:91-93 | an iteration on a single `-` enters the short branch just past it |
| `ArgsProps.ShortRunEnds` | libpy/args.py:115 | the short branch stops at a space or the end of the input without writing |
| `ArgsProps.ShortRunValue` | libpy/args.py:115-125 | the short branch on a value character converts from the next character |
| `ArgsProps.ShortRunUnknown` | libpy/args.py:115-118 | the short branch on a character that names nothing fails and keeps the output |
| `ArgsProps.ShortSwitchesThenEnd` | libpy/args.py:114-128 | a run of switches ends at a space or the end of the input, after storing every switch |
| `ArgsProps.ShortValueEndsRun` | libpy/args.py:120-125 | the first value character in a run hands the rest of the text to its converter and ends the run |
| `ArgsProps.UnknownShortCharFails` | libpy/args.py:115-118 | an unregistered character in a run fails, keeping the writes of the switches before it |
| `ArgsProps.ParseWithoutPositionalsFails` | libpy/args.py:129-132 | without positional arguments, an input starting with a plain token fails at once |
| `ArgsProps.ParseUnknownLongNameFails` | libpy/args.py:93-100 | `--name` with an unregistered name fails the parse with the output map untouched |
| `ArgsProps.ParseUnknownShortCharFails` | libpy/args.py:114-118 | `-c` with no argument named `c` fails the parse with the output map untouched |
| `ArgsProps.ShortFlagLooksUpNames` | libpy/args.py:116 | a switch named `all` with character `a` is filed in `by_char`, yet `-a` fails, because short flags are looked up by name |
| `ArgsProps.SwitchAStored` | libpy/args.py:84-128 | `-a` for a switch named `a` stores the switch's value and nothing else |
| `ArgsProps.SwitchAThenSpace` | libpy/args.py:114-128 | the first iteration on `-a ` stores the switch and stops at the space |
| `ArgsProps.TrailingSpaceFails` | libpy/args.py:84-131 | with the advancing `pcollect` (see Findings), `-a` stores the switch, but `-a ` fails for want of a positional argument and keeps the switch's write |
| `ArgsProps.ConvertIntoReadsForward` | libpy/args.py:122-124 | storing a conversion depends only on the text from the reader onwards, given a converter that reads forward |
| `ArgsProps.ShortRunReadsForward` | libpy/args.py:115-128 | the short branch depends only on the text from the reader onwards, given converters that read forward |
| `ArgsProps.LongArgReadsForward` | libpy/args.py:95-113 | the long branch depends only on the text from the reader onwards, given converters that read forward |
| `ArgsProps.DispatchReadsForward` | libpy/args.py:88-134 | the dispatch after whitespace depends only on the text from the dispatch point onwards, given converters that read forward |
| `ArgsProps.StepReadsForward` | libpy/args.py:84-134 | one iteration depends only on the text from the cursor onwards, given converters that read forward |
| `ArgsProps.LoopReadsForward` | libpy/args.py:84-136 | the rest of a parse depends only on the text from the cursor onwards, given converters that read forward |
| `ArgsProps.LongFormEquivalence` | libpy/args.py:102-108 | `--name=rest` and `--name rest` parse identically for a value argument |
| `ArgsProps.ShortRunKeeps` | libpy/args.py:114-128 | in a registry built by `add`, a short run writes only one-character names: every other entry, and its absence, is kept, also in a failure's partial map |
| `ArgsProps.LongArgKeeps` | libpy/args.py:93-113 | the long branch entered after a `--` writes only the name that follows that `--`: a name never written after `--` in the text keeps its entry |
| `ArgsProps.DispatchKeeps` | libpy/args.py:88-134 | a dispatch keeps every name that is not positional, not one character long and never written `--name` in the text |
| `ArgsProps.StepKeeps` | libpy/args.py:84-134 | one iteration keeps every such name |
| `ArgsProps.LoopKeeps` | libpy/args.py:84-136 | the rest of a parse keeps every such name, on success and in a failure's partial map |
| `ArgsProps.ParseKeepsUnmentioned` | libpy/args.py:76-136 | a value already in the output map (a default the caller put there) survives a parse whose text never writes `--name`, when the name is not positional and not one character long, and such a name is never added; likewise in a failure's partial map |
| `ArgsProps.WorkdirDefaultSurvives` | libpy/args.py:76-128 | with a switch `a` and a value argument `workdir` registered, a caller's `workdir` default is still there after parsing `-a`, whether the parse succeeds or fails |
| `ArgsProps.ShortRunIgnoresRegistries` | libpy/args.py:115-128 | the short branch's own code never reads `by_char` or the type registry: it gives the same result whatever they hold (converters and handlers are modelled without the parser; see "Left out") |
| `ArgsProps.LoopIgnoresRegistries` | libpy/args.py:84-136 | the parse loop's own code never reads `by_char` or the type registry (converters and handlers are modelled without the parser; see "Left out") |
| `ArgsProps.ParseIgnoresRegistries` | libpy/args.py:49-57 | parse's own code never reads `by_char` or the type registry: replacing either, or calling `define_type`, changes no parse result (converters and handlers are modelled without the parser; see "Left out") |
| `Strings.Find` | native-build.py:181 | `find` returns the first occurrence, or -1 |
| `Strings.StartsWith` | native-build.py:185 | defines `startswith`: the prefix is no longer than the text and equals its beginning |
| `Strings.FindFindsOccurrence` | native-build.py:181 | `find(...) != -1` holds exactly when the word occurs |
| `Strings.Lower` | native-build.py:181 | lower-casing maps every ASCII capital to its small letter and keeps every other character |
| `Strings.LowerIdempotent` | native-build.py:181 | lower-casing twice is lower-casing once |
| `Strings.ReplaceChar` | native-build.py:125-126 | replacing a character changes exactly its occurrences |
| `Strings.ReplaceCharRemoves` | native-build.py:125-126 | after the replacement the character no longer occurs, and the replacement can be undone when the new character was absent |
| `Strings.Split` | native-build.py:186 | `split` on one character gives at least one piece, and no piece contains the separator |
| `Strings.JoinSplit` | native-build.py:186 | joining the pieces of a split with the separator gives the text back |
| `Strings.SplitJoin` | native-build.py:186 | splitting a join of separator-free pieces gives the pieces back |
| `Strings.SplitFirst` | native-build.py:186 | the first piece of a split is the text up to the first separator, or all of it |
| `Strings.SplitSecond` | native-build.py:277-278 | there is a second piece exactly when the separator occurs, and it is the text between the first separator and the next |
| `NativeBuild.OsName` | native-build.py:90-95 | `posix` becomes `linux`, `local` is replaced by the host's name normalised the same way, and any other name is kept; a missing name stays missing; the result is never `posix` or `local` |
| `NativeBuild.OsNameIdempotent` | native-build.py:90-95 | normalising an OS name twice gives the same name |
| `NativeBuild.ArchName` | native-build.py:97-102 | `x86_64` becomes `x64`, `local` is replaced by the host's processor normalised the same way, and any other name is kept |
| `NativeBuild.ArchNameIdempotent` | native-build.py:97-102 | normalising an architecture name twice gives the same name |
| `NativeBuild.PlatformStr` | native-build.py:104-105 | the platform string is the architecture alone without an OS, and otherwise the architecture, a dash and the OS |
| `NativeBuild.PlatformStrRoundTrip` | native-build.py:104-105 | when the architecture has no `-`, the platform string splits back into the architecture and the OS |
| `NativeBuild.PlatformStrAmbiguous` | native-build.py:104-105 | with a `-` in the architecture, two different platforms give the same string |
| `NativeBuild.ExtFor` | native-build.py:179-201 | a `lib` type without `:` fails and nothing else does; the extension is one of the seven known ones; `.exe` exactly for a Windows executable; `.dll` exactly for a Windows dynamic library |
| `NativeBuild.OutputExt` | native-build.py:179-201 | an executable gets `.exe` exactly when the lower-cased OS contains `win`, and otherwise no extension; without an OS name, exactly the executable and the static and dynamic library types fail (on `osName.lower()`), a `lib` type without `:` still fails on its spec, and every other type gets no extension |
| `NativeBuild.ExtWithoutOs` | native-build.py:179-201 | without an OS name, the types that reach `osName.lower()` (executable, `lib:static`, `lib:dynamic`) fail with `MissingOsName`, a `lib` type without `:` fails with `InvalidTargetType`, and the rest get no extension |
| `NativeBuild.MissingOsOnlyWhereRead` | native-build.py:179-201 | a missing OS name changes the outcome only for the types whose extension reads it: every other type gets what any OS name gives, and those that read it fail where any OS name succeeds |
| `NativeBuild.MissingOsLib` | native-build.py:185-201 | without an OS name, a library fails exactly when its spec is `static` or `dynamic`, and otherwise gets no extension |
| `NativeBuild.MissingOsExamples` | native-build.py:179-184 | without an OS name, `executable` fails and `app` gets no extension |
| `NativeBuild.MissingOsStaticLib` | native-build.py:185-194 | without an OS name, `lib:static` fails |
| `NativeBuild.MissingOsSharedLib` | native-build.py:185-201 | without an OS name, `lib:shared` gets no extension |
| `NativeBuild.ExtensionNamesTheKind` | native-build.py:185-201 | `.a` and `.lib` are chosen only for `static` libraries, and `.dll`, `.so` and `.dylib` only for `dynamic` ones |
| `NativeBuild.ExtensionFollowsOs` | native-build.py:190-201 | each library extension follows the OS tests in order: Windows first, then Linux, then the rest |
| `NativeBuild.LibExt` | native-build.py:189-201 | the extension of a library type is decided by the piece after its first `:` |
| `NativeBuild.StaticSpecBeforeSecondColon` | native-build.py:186-194 | `lib:static:extra` is a static library, `.a` on Linux |
| `NativeBuild.LibPrefixAnyName` | native-build.py:185-199 | `libfoo:dynamic` counts as a library type and gets `.so` on Linux |
| `NativeBuild.LibWithoutSpec` | native-build.py:185-189 | `lib` fails; an unknown library kind and a non-library type get no extension |
| `NativeBuild.DarwinExecutableTakenForWindows` | native-build.py:180-182 | as written, an executable for `darwin` gets `.exe` |
| `NativeBuild.DarwinLibraryTakenForWindows` | native-build.py:195-197 | as written, a dynamic library for `Darwin` gets `.dll` |
| `NativeBuild.OutputExtCorrected` | native-build.py:179-201 | with `darwin` not taken for Windows, errors are unchanged, a `darwin` OS never gets `.exe` or `.dll`, and a missing or other OS gets what the code gives |
| `NativeBuild.DarwinExecutableCorrected` | native-build.py:180-184 | corrected, an executable for `darwin` has no extension |
| `NativeBuild.DarwinLibraryCorrected` | native-build.py:195-201 | corrected, a dynamic library for `Darwin` is a `.dylib` |
| `NativeBuild.WindowsExecutableCorrected` | native-build.py:180-182 | corrected, an executable for `win32` still gets `.exe` |
| `NativeBuild.Mangle` | native-build.py:125-126 | every `/` and `\` becomes `+`, every other character is kept, and no separator remains |
| `NativeBuild.SplitExt` | native-build.py:128 | POSIX `splitext`: root and extension put back together give the name; when the last path component has a dot after some non-dot character, the extension runs from the last dot to the end, and otherwise it is empty |
| `NativeBuild.ObjName` | native-build.py:123-128 | the object file name has no separator, ends in `.o`, and is the mangled path with its extension replaced |
| `NativeBuild.ObjNameCollisions` | native-build.py:125-128 | every `a<sep>b.<ext>`, for `<sep>` a separator or `+` and any dotless extension, becomes `a+b.o`: `a/b.c`, `a+b.c` and `a\b.cpp` collide |
| `NativeBuild.ObjNameLeadingDot` | native-build.py:125-128 | `.hidden` keeps its leading dot, which starts no extension, and becomes `.hidden.o` |
| `NativeBuild.IsSourceFileByFirstSuffix` | native-build.py:277-278 | a file is compiled exactly when the text between its first dot and the next is one of the source extensions |
| `NativeBuild.IsSourceFile` | native-build.py:277-278 | defines the test: split on `.`, there are at least two pieces, and the second is in `SRC_FILE_EXTENSIONS` |
| `NativeBuild.SecondPieceIs` | native-build.py:277-278 | the second piece of `stem.mid.rest`, for a dotless stem and middle, is the middle |
| `NativeBuild.FirstSuffixCounts` | native-build.py:277-278 | a name whose piece after the first dot is a source extension is compiled whatever follows, as `a.cpp.bak` is |
| `NativeBuild.LastSuffixIgnored` | native-build.py:277-278 | a name whose piece after the first dot is not a source extension is not compiled whatever its last extension, as `a.b.cpp` is not |
| `NativeBuild.DotlessAndDotOnly` | native-build.py:277-278 | `Makefile` is not compiled, and `.c` is |
| `NativeBuild.SourceFileExample` | native-build.py:267-278 | `main.cpp` is compiled |

## Left out

- Python's `str.lower()` covers all of Unicode. `Strings.Lower` folds ASCII capitals only. The OS names the rules test (`win`, `linux`, `darwin`) are ASCII.
- `os.getenv` is the `env` parameter of `Util.FixPath`. The process environment is not modelled.
- The `'local'` branches of `get_os_name` and `get_arch_name` query the host through `os.name` and `platform.processor()`. These are parameters that are assumed never to be `'local'`, as they are in practice.
- `os.path.join`, directory creation in `get_obj_dir`, and the final `replace_placeholders` call of `get_output_file_name` are left out: the first two do file-system work, and `replace_placeholders` is not part of this model. `NativeBuild.ObjName` is the file-name part of `get_obj_output`, and `NativeBuild.OutputExt` is the extension part of `get_output_file_name`.
- Left out as I/O: build orchestration (`compile_file`, `link_target`, the directory walk of `compile_all_in`, `build_all*`, `main`), `BuildState` setters, `prepare` and `clean`. They run subprocesses, print and touch the file system. Only the file-name test of `compile_all_in` is modelled.
- The logging in `parse_val` is left out. Its `str + exception` concatenation raises a `TypeError` before the re-wrap. Every converter error is modelled as the parse failing with `ConversionFailed`, which carries the converter's message.
- The converters and switch handlers themselves are parameters. The repository defines none. Both are called with the parser as an extra argument: `arg.ty.parse(self, arg, reader)` (libpy/args.py:71) and `arg.sw_handler(self, arg)` (libpy/args.py:110, 127). The model drops that argument. So a converter or handler that reads `by_char`, the type registry or anything else of the parser is not modelled, and the `IgnoresRegistries` lemmas speak of `parse`'s own code only.
- `Args.Fresh` works on map values. In the source, an empty dict passed in is replaced by a new one (libpy/args.py:77-78), so the caller's own dict receives no writes at all, partial or final. A non-empty dict passed in is written in place, so after a failure the caller's dict holds the partial writes. The model returns the resulting map in both cases and does not track which dict object the caller holds.
- `ArgsProps.ParseKeepsUnmentioned` covers names that are not positional and are longer or shorter than one character. A one-character name can be written by any short run that contains its character, and a positional name by any plain token. For those names the only frame is the registered-name one of `Args.Parse`.
- Converters are modelled as moving the reader forward only: a converter returns how many characters it consumed, a `nat`. In the source a converter gets the live reader (libpy/args.py:71) and may move it anywhere, backwards too with `prev()`. The "never moves back" ensures of `Args.LongArg`, `Args.ShortRun`, `Args.Positional` and `Args.Dispatch`, the progress ensures of `Args.Step`, and the termination of `Args.Loop` all rest on this. A converter that steps back could make the source's parse loop run forever, and the model does not represent that.
- `ArgsProps.LongFormEquivalence` and `ArgsProps.LoopReadsForward` assume converters that read only from the reader's position onwards (`ArgsProps.ForwardOnly`). A converter that peeks backwards could tell the two long forms apart.
- `Readers.CollectAsWritten` counts loop iterations with a bound, because a Python loop has none. Running out of the bound stands for "has not returned yet".
- `Readers.At` reports a positive index past the end as `IndexOutOfRange`, where Python raises `IndexError`.
- Integer width is not modelled: `POS_APPEND_BACK` is the unbounded integer 0xFFFFFFFF, as in Python.

## Findings

| source | as written | input that shows it | evidently intended | confidence | as-written member | corrected member |
|---|---|---|---|---|---|---|
| libpy/util.py:44-53 | `collect` and `pcollect` loop while `current()` is accepted but never move the cursor | `parse("--ab")`: collecting the name `ab` never returns | each accepted character advances the cursor, returning the longest accepted run and leaving the reader after it | not executed; high | `Readers.CollectAsWritten` (`Readers.CollectAsWrittenHangsOnName`) | `Readers.Collect` |
| native-build.py:181 | an OS counts as Windows when its lower-cased name contains `win`, which `darwin` does | `get_output_file_name` for an `executable` on `darwin` gives `.exe`, and for `lib:dynamic` gives `.dll` | macOS gets no executable extension and `.dylib` for dynamic libraries | not executed; medium | `NativeBuild.OutputExt` (`NativeBuild.DarwinExecutableTakenForWindows`) | `NativeBuild.OutputExtCorrected` |
