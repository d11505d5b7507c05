/** Properties of `ArgParser.add` and `ArgParser.parse` (libpy/args.py).

    Most lemmas describe one loop iteration (`Step`), or one of its three
    branches, on a text with the reader at index `i` of a token: which
    characters it consumes, which keys it writes, and when it fails. Later
    groups lift these to whole `Parse` calls. */
module ArgsProps {
  import opened Wrappers
  import opened Readers
  import opened Args

  // ---------------------------------------------------------------------------
  // Registration
  // ---------------------------------------------------------------------------

  /** Where a positional argument lands, for every position and list length:
      non-negative positions are indices (appending past the end), and a
      negative position counts back from the current length and, if still
      negative, once more (Python's `list.insert`) before flooring at 0. */
  lemma PlacementIndex(len: nat, pos: int)
    ensures pos == PosAppendBack ==> Placement(len, pos) == len
    ensures 0 <= pos <= len && pos != PosAppendBack ==> Placement(len, pos) == pos
    ensures pos > len ==> Placement(len, pos) == len
    ensures -(len as int) <= pos < 0 ==> Placement(len, pos) == len + pos
    ensures -2 * (len as int) <= pos < -(len as int) ==> Placement(len, pos) == 2 * len + pos
    ensures pos < -2 * (len as int) ==> Placement(len, pos) == 0
  {
  }

  /** Registering A (appended), B (position 0) and C (position -1), in that
      order, gives the positional order B, C, A: C's -1 counts back from the
      length 2 the list has when C is added. */
  lemma RegistrationOrderExample<V>()
    ensures
      var a := NewPositional("A", "str");
      var b := NewPositionalAt("B", "str", 0);
      var c := NewPositionalAt("C", "str", -1);
      Add(Add(Add(Empty<V>(), a), b), c).posArgs == [b, c, a]
  {
    var a := NewPositional("A", "str");
    var b := NewPositionalAt("B", "str", 0);
    var c := NewPositionalAt("C", "str", -1);
    var p1 := Add(Empty<V>(), a);
    assert p1.posArgs == [a];
    var q2 := Add(p1, b).posArgs;
    assert Placement(1, 0) == 0;
    assert q2[0] == b && RemoveAt(q2, 0) == [a];
    assert q2[1] == RemoveAt(q2, 0)[0];
    assert q2 == [b, a];
    var q3 := Add(Add(p1, b), c).posArgs;
    assert Placement(2, -1) == 1;
    assert q3[1] == c && RemoveAt(q3, 1) == [b, a];
    assert q3[0] == RemoveAt(q3, 1)[0] && q3[2] == RemoveAt(q3, 1)[1];
    assert q3 == [b, c, a];
  }

  /** Re-adding a name replaces the earlier argument without complaint, and
      only positional arguments make the positional list grow. */
  lemma AddOverwrites<V>(p: ArgParser<V>, first: Arg, second: Arg)
    requires first.name == second.name
    requires first.pos.None? && second.pos.None?
    ensures Add(Add(p, first), second).argMap == Add(p, second).argMap
    ensures Add(Add(p, first), second).posArgs == p.posArgs
  {
  }

  // ---------------------------------------------------------------------------
  // One iteration: whitespace and positional tokens
  // ---------------------------------------------------------------------------

  /** `Dispatch` with the reader at index `j` of `t`, its three branches
      spelled out by index. */
  ghost function DispatchAt<V>(p: ArgParser<V>, t: string, j: int, pIdx: nat, out: map<string, V>, convert: Converter<V>, switch: SwitchHandler<V>): Result<State<V>, ParseFailure<V>>
  {
    if 0 <= j < |t| && t[j] == '-' then
      if j + 1 < |t| && t[j + 1] == '-' then LongArg(p, State(Reader(t, j + 2), pIdx, out), convert, switch)
      else ShortRun(p, State(Reader(t, j + 1), pIdx, out), convert, switch)
    else Positional(p, State(Reader(t, j), pIdx, out), convert)
  }

  lemma DispatchIsIndexed<V>(p: ArgParser<V>, t: string, j: int, pIdx: nat, out: map<string, V>, convert: Converter<V>, switch: SwitchHandler<V>)
    requires pIdx <= |p.posArgs|
    ensures Dispatch(p, Reader(t, j), pIdx, out, convert, switch) == DispatchAt(p, t, j, pIdx, out, convert, switch)
  {
    assert Next(Reader(t, j), 1).reader == Reader(t, j + 1);
    assert Next(Reader(t, j + 1), 1).reader == Reader(t, j + 2);
  }

  lemma StepIsDispatch<V>(p: ArgParser<V>, t: string, i: int, pIdx: nat, out: map<string, V>, convert: Converter<V>, switch: SwitchHandler<V>)
    requires 0 <= i < |t| && pIdx <= |p.posArgs|
    ensures Step(p, State(Reader(t, i), pIdx, out), convert, switch)
            == DispatchAt(p, t, PCollect(Reader(t, i), IsSpace).idx, pIdx, out, convert, switch)
  {
    var r := PCollect(Reader(t, i), IsSpace);
    assert r == Reader(t, r.idx);
    DispatchIsIndexed(p, t, r.idx, pIdx, out, convert, switch);
  }

  /** Leading whitespace from `i` up to `j` is skipped before the token at `j` is looked at. */
  lemma StepSkipsWhitespace<V>(p: ArgParser<V>, text: string, i: nat, j: nat, pIdx: nat, out: map<string, V>, convert: Converter<V>, switch: SwitchHandler<V>)
    requires i <= j < |text| && pIdx <= |p.posArgs|
    requires forall k :: i <= k < j ==> IsSpace(text[k])
    requires !IsSpace(text[j])
    ensures Step(p, State(Reader(text, i), pIdx, out), convert, switch)
            == Step(p, State(Reader(text, j), pIdx, out), convert, switch)
  {
    CollectWord(Reader(text, i), IsSpace, text[i..j]);
    CollectWord(Reader(text, j), IsSpace, []);
    StepIsDispatch(p, text, i, pIdx, out, convert, switch);
    StepIsDispatch(p, text, j, pIdx, out, convert, switch);
  }

  /** Whitespace at the end of the input is not followed by an end check: it
      leads into the positional branch with the reader past the end, which
      fails once the positional arguments are used up. */
  lemma TrailingWhitespaceIsPositional<V>(p: ArgParser<V>, text: string, i: nat, pIdx: nat, out: map<string, V>, convert: Converter<V>, switch: SwitchHandler<V>)
    requires i < |text| && pIdx <= |p.posArgs|
    requires forall k :: i <= k < |text| ==> IsSpace(text[k])
    ensures Step(p, State(Reader(text, i), pIdx, out), convert, switch)
            == Positional(p, State(Reader(text, |text|), pIdx, out), convert)
    ensures pIdx == |p.posArgs| ==>
              Step(p, State(Reader(text, i), pIdx, out), convert, switch)
              == Failure(ParseFailure(MissingPositional(pIdx), out))
  {
    CollectWord(Reader(text, i), IsSpace, text[i..]);
    StepIsDispatch(p, text, i, pIdx, out, convert, switch);
  }

  /** A token not starting with `-` binds to the next positional argument,
      which converts from the token's first character; with none left the
      iteration fails. */
  lemma PositionalToken<V>(p: ArgParser<V>, text: string, i: nat, pIdx: nat, out: map<string, V>, convert: Converter<V>, switch: SwitchHandler<V>)
    requires i < |text| && pIdx <= |p.posArgs|
    requires !IsSpace(text[i]) && text[i] != '-'
    ensures Step(p, State(Reader(text, i), pIdx, out), convert, switch)
            == if pIdx < |p.posArgs| then ConvertInto(p.posArgs[pIdx], Reader(text, i), pIdx + 1, out, convert)
               else Failure(ParseFailure(MissingPositional(pIdx), out))
  {
    CollectWord(Reader(text, i), IsSpace, []);
    StepIsDispatch(p, text, i, pIdx, out, convert, switch);
  }

  // ---------------------------------------------------------------------------
  // One iteration: long arguments
  // ---------------------------------------------------------------------------

  /** The long branch once the name has been read: a value argument, or a
      switch followed by `=`, skips one character and converts. */
  lemma LongArgValue<V>(p: ArgParser<V>, r: Reader, name: string, pIdx: nat, out: map<string, V>, convert: Converter<V>, switch: SwitchHandler<V>)
    requires Collect(r, IsNameChar) == Collected(name, Reader(r.text, r.idx + |name|))
    requires name in p.argMap
    requires !IsSwitch(p.argMap[name]) || Current(Reader(r.text, r.idx + |name|)) == Some('=')
    ensures LongArg(p, State(r, pIdx, out), convert, switch)
            == ConvertInto(p.argMap[name], Reader(r.text, r.idx + |name| + 1), pIdx, out, convert)
  {
    var after := Reader(r.text, r.idx + |name|);
    assert Next(after, 1).reader == Reader(r.text, r.idx + |name| + 1);
  }

  /** `--name` starts at `i`: two dashes, then a name, then the end or a character outside names. */
  ghost predicate LongAt(text: string, i: int, name: string)
  {
    && 0 <= i && i + 2 + |name| <= |text|
    && text[i] == '-' && text[i + 1] == '-'
    && text[i + 2..i + 2 + |name|] == name
    && (forall k :: 0 <= k < |name| ==> IsNameChar(name[k]))
    && (i + 2 + |name| == |text| || !IsNameChar(text[i + 2 + |name|]))
  }

  /** `"--" + name + rest` has `--name` at 0. */
  lemma LongTextShape(name: string, rest: string)
    requires forall k :: 0 <= k < |name| ==> IsNameChar(name[k])
    requires rest == [] || !IsNameChar(rest[0])
    ensures var text := "--" + name + rest;
            && LongAt(text, 0, name)
            && text[2 + |name|..] == rest
            && (rest != [] ==> text[2 + |name|] == rest[0])
  {
    var text := "--" + name + rest;
    assert text[0] == '-' && text[1] == '-';
    assert text[2..2 + |name|] == name;
    assert text[2 + |name|..] == rest;
    assert 2 + |name| < |text| ==> text[2 + |name|] == rest[0];
  }

  /** An iteration on `--name` hands over to the long branch with the name read. */
  lemma LongStep<V>(p: ArgParser<V>, text: string, i: int, name: string, pIdx: nat, out: map<string, V>, convert: Converter<V>, switch: SwitchHandler<V>)
    requires LongAt(text, i, name) && pIdx <= |p.posArgs|
    ensures Step(p, State(Reader(text, i), pIdx, out), convert, switch) == LongArg(p, State(Reader(text, i + 2), pIdx, out), convert, switch)
    ensures Collect(Reader(text, i + 2), IsNameChar) == Collected(name, Reader(text, i + 2 + |name|))
  {
    CollectWord(Reader(text, i), IsSpace, []);
    StepIsDispatch(p, text, i, pIdx, out, convert, switch);
    CollectWord(Reader(text, i + 2), IsNameChar, name);
  }

  /** `--name=value` and `--name value` for a value argument (and
      `--name=value` for a switch): exactly one character after the name is
      skipped, and the converter starts right after it. */
  lemma LongValueSkipsOneChar<V>(p: ArgParser<V>, text: string, i: int, name: string, pIdx: nat, out: map<string, V>, convert: Converter<V>, switch: SwitchHandler<V>)
    requires LongAt(text, i, name) && pIdx <= |p.posArgs|
    requires name in p.argMap
    requires i + 2 + |name| < |text|
    requires !IsSwitch(p.argMap[name]) || text[i + 2 + |name|] == '='
    ensures Step(p, State(Reader(text, i), pIdx, out), convert, switch)
            == ConvertInto(p.argMap[name], Reader(text, i + |name| + 3), pIdx, out, convert)
  {
    LongStep(p, text, i, name, pIdx, out, convert, switch);
    LongArgValue(p, Reader(text, i + 2), name, pIdx, out, convert, switch);
  }

  /** The long branch once a switch's name has been read, with no `=` after it. */
  lemma LongSwitchAfterName<V>(p: ArgParser<V>, r: Reader, name: string, pIdx: nat, out: map<string, V>, convert: Converter<V>, switch: SwitchHandler<V>)
    requires Collect(r, IsNameChar) == Collected(name, Reader(r.text, r.idx + |name|))
    requires name in p.argMap && IsSwitch(p.argMap[name])
    requires Current(Reader(r.text, r.idx + |name|)) != Some('=')
    ensures LongArg(p, State(r, pIdx, out), convert, switch)
            == Success(State(Reader(r.text, r.idx + |name|), pIdx, out[p.argMap[name].name := switch(p.argMap[name])]))
  {
  }

  /** `--name` for a switch not followed by `=`: the handler's value is
      stored and nothing after the name is consumed. */
  lemma LongSwitchConsumesNothing<V>(p: ArgParser<V>, text: string, i: int, name: string, pIdx: nat, out: map<string, V>, convert: Converter<V>, switch: SwitchHandler<V>)
    requires LongAt(text, i, name) && pIdx <= |p.posArgs|
    requires name in p.argMap && IsSwitch(p.argMap[name])
    requires i + 2 + |name| == |text| || text[i + 2 + |name|] != '='
    ensures Step(p, State(Reader(text, i), pIdx, out), convert, switch)
            == Success(State(Reader(text, i + 2 + |name|), pIdx, out[p.argMap[name].name := switch(p.argMap[name])]))
  {
    LongStep(p, text, i, name, pIdx, out, convert, switch);
    assert Current(Reader(text, i + 2 + |name|)) != Some('=');
    LongSwitchAfterName(p, Reader(text, i + 2), name, pIdx, out, convert, switch);
  }

  /** `--name` with a name nobody registered fails, writing nothing. */
  lemma UnknownLongNameFails<V>(p: ArgParser<V>, text: string, i: int, name: string, pIdx: nat, out: map<string, V>, convert: Converter<V>, switch: SwitchHandler<V>)
    requires LongAt(text, i, name) && pIdx <= |p.posArgs|
    requires name !in p.argMap
    ensures Step(p, State(Reader(text, i), pIdx, out), convert, switch)
            == Failure(ParseFailure(UnknownName(name), out))
  {
    LongStep(p, text, i, name, pIdx, out, convert, switch);
  }

  // ---------------------------------------------------------------------------
  // One iteration: short runs
  // ---------------------------------------------------------------------------

  /** Every character of `run` is a registered switch (looked up by name). */
  predicate SwitchRun<V>(p: ArgParser<V>, run: string)
  {
    forall k :: 0 <= k < |run| ==> run[k] != ' ' && [run[k]] in p.argMap && IsSwitch(p.argMap[[run[k]]])
  }

  /** The writes a run of switch characters makes, left to right. */
  function SwitchWrites<V>(p: ArgParser<V>, out: map<string, V>, run: string, switch: SwitchHandler<V>): map<string, V>
    requires forall k :: 0 <= k < |run| ==> [run[k]] in p.argMap
    decreases |run|
  {
    if run == [] then out
    else
      var a := p.argMap[[run[0]]];
      SwitchWrites(p, out[a.name := switch(a)], run[1..], switch)
  }

  /** The one-character names a run spells. */
  function RunNames(run: string): set<string>
  {
    set k | 0 <= k < |run| :: [run[k]]
  }

  /** In a registry built by `add`, a run of switches writes each of its
      characters' names with that switch's value and nothing else. */
  lemma {:induction false} SwitchWritesContent<V>(p: ArgParser<V>, out: map<string, V>, run: string, switch: SwitchHandler<V>)
    requires WellFormed(p)
    requires forall k :: 0 <= k < |run| ==> [run[k]] in p.argMap
    ensures var w := SwitchWrites(p, out, run, switch);
            && w.Keys == out.Keys + RunNames(run)
            && (forall k :: 0 <= k < |run| ==> w[[run[k]]] == switch(p.argMap[[run[k]]]))
            && (forall n :: n in out && n !in RunNames(run) ==> w[n] == out[n])
    decreases |run|
  {
    if run != [] {
      var a := p.argMap[[run[0]]];
      var out' := out[a.name := switch(a)];
      SwitchWritesContent(p, out', run[1..], switch);
      assert RunNames(run) == {[run[0]]} + RunNames(run[1..]) by {
        forall n | n in RunNames(run) ensures n in {[run[0]]} + RunNames(run[1..]) {
          var k :| 0 <= k < |run| && n == [run[k]];
          if k > 0 {
            assert n == [run[1..][k - 1]];
          }
        }
        forall n | n in RunNames(run[1..]) ensures n in RunNames(run) {
          var k :| 0 <= k < |run[1..]| && n == [run[1..][k]];
          assert n == [run[k + 1]];
        }
      }
      var w := SwitchWrites(p, out, run, switch);
      forall k | 0 <= k < |run| ensures w[[run[k]]] == switch(p.argMap[[run[k]]]) {
        if k > 0 {
          assert run[k] == run[1..][k - 1];
        } else if [run[0]] in RunNames(run[1..]) {
          var j :| 0 <= j < |run[1..]| && [run[0]] == [run[1..][j]];
          assert run[1..][j] == run[0];
        }
      }
    }
  }

  /** A switch character stores its handler's value and the run goes on at the next character. */
  lemma ShortRunSwitchChar<V>(p: ArgParser<V>, text: string, j: int, pIdx: nat, out: map<string, V>, convert: Converter<V>, switch: SwitchHandler<V>)
    requires 0 <= j < |text| && text[j] != ' ' && [text[j]] in p.argMap && IsSwitch(p.argMap[[text[j]]])
    ensures ShortRun(p, State(Reader(text, j), pIdx, out), convert, switch)
            == ShortRun(p, State(Reader(text, j + 1), pIdx, out[p.argMap[[text[j]]].name := switch(p.argMap[[text[j]]])]), convert, switch)
  {
  }

  /** Switch characters are consumed one at a time, each storing its handler's value. */
  lemma {:induction false} ShortRunSwitches<V>(p: ArgParser<V>, text: string, j: nat, run: string, pIdx: nat, out: map<string, V>, convert: Converter<V>, switch: SwitchHandler<V>)
    requires j + |run| <= |text| && text[j..j + |run|] == run
    requires SwitchRun(p, run)
    ensures ShortRun(p, State(Reader(text, j), pIdx, out), convert, switch)
            == ShortRun(p, State(Reader(text, j + |run|), pIdx, SwitchWrites(p, out, run, switch)), convert, switch)
    decreases |run|
  {
    if run != [] {
      assert text[j] == run[0];
      var a := p.argMap[[run[0]]];
      ShortRunSwitchChar(p, text, j, pIdx, out, convert, switch);
      assert text[j + 1..j + 1 + |run[1..]|] == run[1..];
      ShortRunSwitches(p, text, j + 1, run[1..], pIdx, out[a.name := switch(a)], convert, switch);
    }
  }

  /** A single `-` (not followed by a second one) starts a short run at `i`. */
  ghost predicate ShortAt(text: string, i: int)
  {
    0 <= i < |text| && text[i] == '-' && (i + 1 == |text| || text[i + 1] != '-')
  }

  /** An iteration on a single `-` hands over to the short branch just past it. */
  lemma ShortStep<V>(p: ArgParser<V>, text: string, i: int, pIdx: nat, out: map<string, V>, convert: Converter<V>, switch: SwitchHandler<V>)
    requires ShortAt(text, i) && pIdx <= |p.posArgs|
    ensures Step(p, State(Reader(text, i), pIdx, out), convert, switch)
            == ShortRun(p, State(Reader(text, i + 1), pIdx, out), convert, switch)
  {
    CollectWord(Reader(text, i), IsSpace, []);
    StepIsDispatch(p, text, i, pIdx, out, convert, switch);
  }

  /** The short branch stops at a space or the end of the input. */
  lemma ShortRunEnds<V>(p: ArgParser<V>, text: string, j: int, pIdx: nat, out: map<string, V>, convert: Converter<V>, switch: SwitchHandler<V>)
    requires 0 <= j <= |text| && (j == |text| || text[j] == ' ')
    ensures ShortRun(p, State(Reader(text, j), pIdx, out), convert, switch) == Success(State(Reader(text, j), pIdx, out))
  {
  }

  /** The short branch on a value character converts from the next character. */
  lemma ShortRunValue<V>(p: ArgParser<V>, text: string, j: int, pIdx: nat, out: map<string, V>, convert: Converter<V>, switch: SwitchHandler<V>)
    requires 0 <= j < |text| && text[j] != ' ' && [text[j]] in p.argMap && !IsSwitch(p.argMap[[text[j]]])
    ensures ShortRun(p, State(Reader(text, j), pIdx, out), convert, switch)
            == ConvertInto(p.argMap[[text[j]]], Reader(text, j + 1), pIdx, out, convert)
  {
    assert Next(Reader(text, j), 1).reader == Reader(text, j + 1);
  }

  /** The short branch on a character that names nothing fails. */
  lemma ShortRunUnknown<V>(p: ArgParser<V>, text: string, j: int, pIdx: nat, out: map<string, V>, convert: Converter<V>, switch: SwitchHandler<V>)
    requires 0 <= j < |text| && text[j] != ' ' && [text[j]] !in p.argMap
    ensures ShortRun(p, State(Reader(text, j), pIdx, out), convert, switch)
            == Failure(ParseFailure(UnknownChar(text[j]), out))
  {
  }

  /** `-abc` where every character is a switch: all are stored, and the run
      ends at a space or the end of the input. Stated for the short branch
      entered at `j`, just past the `-` (see `ShortStep`). */
  lemma ShortSwitchesThenEnd<V>(p: ArgParser<V>, text: string, j: nat, run: string, pIdx: nat, out: map<string, V>, convert: Converter<V>, switch: SwitchHandler<V>)
    requires j + |run| <= |text| && text[j..j + |run|] == run && SwitchRun(p, run)
    requires j + |run| == |text| || text[j + |run|] == ' '
    ensures ShortRun(p, State(Reader(text, j), pIdx, out), convert, switch)
            == Success(State(Reader(text, j + |run|), pIdx, SwitchWrites(p, out, run, switch)))
  {
    ShortRunSwitches(p, text, j, run, pIdx, out, convert, switch);
    ShortRunEnds(p, text, j + |run|, pIdx, SwitchWrites(p, out, run, switch), convert, switch);
  }

  /** `-abFvalue`: the switches `a`, `b` are stored, then the first value
      character `F` hands everything after it to its converter and ends the run. */
  lemma ShortValueEndsRun<V>(p: ArgParser<V>, text: string, j: nat, run: string, f: char, pIdx: nat, out: map<string, V>, convert: Converter<V>, switch: SwitchHandler<V>)
    requires j + |run| < |text| && text[j..j + |run|] == run && SwitchRun(p, run)
    requires text[j + |run|] == f && f != ' ' && [f] in p.argMap && !IsSwitch(p.argMap[[f]])
    ensures ShortRun(p, State(Reader(text, j), pIdx, out), convert, switch)
            == ConvertInto(p.argMap[[f]], Reader(text, j + |run| + 1), pIdx, SwitchWrites(p, out, run, switch), convert)
  {
    ShortRunSwitches(p, text, j, run, pIdx, out, convert, switch);
    ShortRunValue(p, text, j + |run|, pIdx, SwitchWrites(p, out, run, switch), convert, switch);
  }

  /** A character in a short run that no argument is named by fails; the
      switches before it in the same run stay written. */
  lemma UnknownShortCharFails<V>(p: ArgParser<V>, text: string, j: nat, run: string, c: char, pIdx: nat, out: map<string, V>, convert: Converter<V>, switch: SwitchHandler<V>)
    requires j + |run| < |text| && text[j..j + |run|] == run && SwitchRun(p, run)
    requires text[j + |run|] == c && c != ' ' && [c] !in p.argMap
    ensures ShortRun(p, State(Reader(text, j), pIdx, out), convert, switch)
            == Failure(ParseFailure(UnknownChar(c), SwitchWrites(p, out, run, switch)))
  {
    ShortRunSwitches(p, text, j, run, pIdx, out, convert, switch);
    ShortRunUnknown(p, text, j + |run|, pIdx, SwitchWrites(p, out, run, switch), convert, switch);
  }

  // ---------------------------------------------------------------------------
  // Whole parse calls
  // ---------------------------------------------------------------------------

  /** With no positional arguments declared, an input that starts with a
      plain token fails at once, before writing anything. */
  lemma ParseWithoutPositionalsFails<V>(p: ArgParser<V>, text: string, out: Option<map<string, V>>, convert: Converter<V>, switch: SwitchHandler<V>)
    requires p.posArgs == []
    requires text != [] && !IsSpace(text[0]) && text[0] != '-'
    ensures Parse(p, text, out, convert, switch) == Failure(ParseFailure(MissingPositional(0), Fresh(out)))
  {
    PositionalToken(p, text, 0, 0, Fresh(out), convert, switch);
  }

  /** `--zz=1` (or `--zz`, `--zz 1`) with no argument named `zz` fails, writing nothing. */
  lemma ParseUnknownLongNameFails<V>(p: ArgParser<V>, name: string, rest: string, out: Option<map<string, V>>, convert: Converter<V>, switch: SwitchHandler<V>)
    requires forall k :: 0 <= k < |name| ==> IsNameChar(name[k])
    requires rest == [] || !IsNameChar(rest[0])
    requires name !in p.argMap
    ensures Parse(p, "--" + name + rest, out, convert, switch) == Failure(ParseFailure(UnknownName(name), Fresh(out)))
  {
    LongTextShape(name, rest);
    UnknownLongNameFails(p, "--" + name + rest, 0, name, 0, Fresh(out), convert, switch);
  }

  /** `-q...` with no argument named `q` fails, writing nothing. */
  lemma ParseUnknownShortCharFails<V>(p: ArgParser<V>, c: char, rest: string, out: Option<map<string, V>>, convert: Converter<V>, switch: SwitchHandler<V>)
    requires c != ' ' && c != '-' && [c] !in p.argMap
    ensures Parse(p, "-" + [c] + rest, out, convert, switch) == Failure(ParseFailure(UnknownChar(c), Fresh(out)))
  {
    var text := "-" + [c] + rest;
    assert text[0] == '-' && text[1] == c;
    ShortStep(p, text, 0, 0, Fresh(out), convert, switch);
    ShortRunUnknown(p, text, 1, 0, Fresh(out), convert, switch);
  }

  /** Short flags are looked up among the names, never by character: a
      switch named `all` with character `a` is filed under `a` in `byChar`,
      yet `-a` fails. */
  lemma ShortFlagLooksUpNames<V>(convert: Converter<V>, switch: SwitchHandler<V>)
    ensures var p := Add(Empty<V>(), NewSwitch("all", Some("a"), "bool", "set"));
            && "a" in p.byChar
            && Parse(p, "-a", None, convert, switch) == Failure(ParseFailure(UnknownChar('a'), map[]))
  {
    var p := Add(Empty<V>(), NewSwitch("all", Some("a"), "bool", "set"));
    assert p.argMap.Keys == {"all"};
    assert ['a'] != "all";
    ParseUnknownShortCharFails(p, 'a', [], None, convert, switch);
    assert "-" + ['a'] + [] == "-a";
  }

  /** A successful iteration hands the loop on to the state it produced. */
  lemma LoopAfterStep<V>(p: ArgParser<V>, st: State<V>, next: State<V>, convert: Converter<V>, switch: SwitchHandler<V>)
    requires 0 <= st.reader.idx < |st.reader.text| && st.pIdx <= |p.posArgs|
    requires Step(p, st, convert, switch) == Success(next)
    ensures Loop(p, st, convert, switch) == Loop(p, next, convert, switch)
  {
  }

  /** The parser holding the single switch `a` (character `a`). */
  function SwitchA<V>(): (p: ArgParser<V>)
    ensures p.argMap == map["a" := NewSwitch("a", Some("a"), "bool", "set")]
    ensures p.posArgs == []
  {
    Add(Empty<V>(), NewSwitch("a", Some("a"), "bool", "set"))
  }

  /** A failed iteration ends the loop with its failure. */
  lemma LoopStopsAtFailure<V>(p: ArgParser<V>, st: State<V>, f: ParseFailure<V>, convert: Converter<V>, switch: SwitchHandler<V>)
    requires 0 <= st.reader.idx < |st.reader.text| && st.pIdx <= |p.posArgs|
    requires Step(p, st, convert, switch) == Failure(f)
    ensures Loop(p, st, convert, switch) == Failure(f)
  {
  }

  /** `-a` stores the switch's value. */
  lemma SwitchAStored<V>(convert: Converter<V>, switch: SwitchHandler<V>)
    ensures Parse(SwitchA<V>(), "-a", None, convert, switch)
            == Success(map["a" := switch(NewSwitch("a", Some("a"), "bool", "set"))])
  {
    var p := SwitchA<V>();
    var w := map["a" := switch(NewSwitch("a", Some("a"), "bool", "set"))];
    assert SwitchRun(p, "a");
    assert SwitchWrites(p, map[], "a", switch) == w;
    assert "-a"[1..2] == "a";
    ShortStep(p, "-a", 0, 0, map[], convert, switch);
    ShortSwitchesThenEnd(p, "-a", 1, "a", 0, map[], convert, switch);
    LoopAfterStep(p, State(Reader("-a", 0), 0, map[]), State(Reader("-a", 2), 0, w), convert, switch);
  }

  /** The first iteration on `-a ` stores the switch and stops at the space. */
  lemma SwitchAThenSpace<V>(convert: Converter<V>, switch: SwitchHandler<V>)
    ensures var w := map["a" := switch(NewSwitch("a", Some("a"), "bool", "set"))];
            Step(SwitchA<V>(), State(Reader("-a ", 0), 0, map[]), convert, switch) == Success(State(Reader("-a ", 2), 0, w))
  {
    var p := SwitchA<V>();
    var w := map["a" := switch(NewSwitch("a", Some("a"), "bool", "set"))];
    assert SwitchRun(p, "a");
    assert SwitchWrites(p, map[], "a", switch) == w;
    assert "-a "[1..2] == "a";
    ShortStep(p, "-a ", 0, 0, map[], convert, switch);
    ShortSwitchesThenEnd(p, "-a ", 1, "a", 0, map[], convert, switch);
  }

  /** `-a ` with a trailing space fails even though `-a` alone parses: after
      the space the loop goes on into the positional branch. The switch's
      value stays in the partial map. */
  lemma TrailingSpaceFails<V>(convert: Converter<V>, switch: SwitchHandler<V>)
    ensures var w := map["a" := switch(NewSwitch("a", Some("a"), "bool", "set"))];
            && Parse(SwitchA<V>(), "-a", None, convert, switch) == Success(w)
            && Parse(SwitchA<V>(), "-a ", None, convert, switch) == Failure(ParseFailure(MissingPositional(0), w))
  {
    SwitchAStored(convert, switch);
    SwitchAThenSpace(convert, switch);
    var p := SwitchA<V>();
    var w := map["a" := switch(NewSwitch("a", Some("a"), "bool", "set"))];
    var st := State(Reader("-a ", 2), 0, w);
    LoopAfterStep(p, State(Reader("-a ", 0), 0, map[]), st, convert, switch);
    TrailingWhitespaceIsPositional(p, "-a ", 2, 0, w, convert, switch);
    LoopStopsAtFailure(p, st, ParseFailure(MissingPositional(0), w), convert, switch);
  }

  // ---------------------------------------------------------------------------
  // Parsing reads forward only
  // ---------------------------------------------------------------------------

  /** The texts have the same length and agree from index `i` on. */
  ghost predicate AgreeFrom(t1: string, t2: string, i: int)
  {
    |t1| == |t2| && forall j :: i <= j < |t1| && 0 <= j ==> t1[j] == t2[j]
  }

  /** A converter that, like every converter meant for this parser, looks
      only at the text from the reader's position onwards. */
  ghost predicate ForwardOnly<V>(convert: Converter<V>)
  {
    forall a: Arg, t1: string, t2: string, i: int ::
      AgreeFrom(t1, t2, i) ==> convert(a, Reader(t1, i)) == convert(a, Reader(t2, i))
  }

  /** Two iteration outcomes that agree on everything but the reader's text. */
  ghost predicate SameOutcome<V>(a: Result<State<V>, ParseFailure<V>>, b: Result<State<V>, ParseFailure<V>>)
  {
    && (a.Success? <==> b.Success?)
    && (a.Failure? ==> a.error == b.error)
    && (a.Success? ==> a.value.reader.idx == b.value.reader.idx && a.value.pIdx == b.value.pIdx && a.value.out == b.value.out)
  }

  lemma ConvertIntoReadsForward<V>(arg: Arg, t1: string, t2: string, k: int, pIdx: nat, out: map<string, V>, convert: Converter<V>)
    requires AgreeFrom(t1, t2, k) && ForwardOnly(convert)
    ensures SameOutcome(ConvertInto(arg, Reader(t1, k), pIdx, out, convert), ConvertInto(arg, Reader(t2, k), pIdx, out, convert))
  {
    assert convert(arg, Reader(t1, k)) == convert(arg, Reader(t2, k));
  }

  lemma {:induction false} ShortRunReadsForward<V>(p: ArgParser<V>, t1: string, t2: string, j: int, pIdx: nat, out: map<string, V>, convert: Converter<V>, switch: SwitchHandler<V>)
    requires 0 <= j && AgreeFrom(t1, t2, j) && ForwardOnly(convert)
    ensures SameOutcome(ShortRun(p, State(Reader(t1, j), pIdx, out), convert, switch), ShortRun(p, State(Reader(t2, j), pIdx, out), convert, switch))
    decreases |t1| - j
  {
    if j < |t1| && t1[j] != ' ' && [t1[j]] in p.argMap {
      var arg := p.argMap[[t1[j]]];
      if arg.handler.None? {
        ConvertIntoReadsForward(arg, t1, t2, j + 1, pIdx, out, convert);
      } else {
        ShortRunReadsForward(p, t1, t2, j + 1, pIdx, out[arg.name := switch(arg)], convert, switch);
      }
    }
  }

  lemma LongArgReadsForward<V>(p: ArgParser<V>, t1: string, t2: string, j: int, pIdx: nat, out: map<string, V>, convert: Converter<V>, switch: SwitchHandler<V>)
    requires 0 <= j && AgreeFrom(t1, t2, j) && ForwardOnly(convert)
    ensures SameOutcome(LongArg(p, State(Reader(t1, j), pIdx, out), convert, switch), LongArg(p, State(Reader(t2, j), pIdx, out), convert, switch))
  {
    CollectReadsForward(Reader(t1, j), Reader(t2, j), IsNameChar);
    var name := Collect(Reader(t1, j), IsNameChar);
    var k := name.reader.idx;
    assert name.reader == Reader(t1, k);
    assert Collect(Reader(t2, j), IsNameChar) == Collected(name.text, Reader(t2, k));
    if name.text in p.argMap {
      var arg := p.argMap[name.text];
      assert Current(Reader(t1, k)) == Current(Reader(t2, k));
      if !IsSwitch(arg) || Current(Reader(t1, k)) == Some('=') {
        assert Next(Reader(t1, k), 1).reader == Reader(t1, k + 1);
        assert Next(Reader(t2, k), 1).reader == Reader(t2, k + 1);
        ConvertIntoReadsForward(arg, t1, t2, k + 1, pIdx, out, convert);
      }
    }
  }

  lemma DispatchReadsForward<V>(p: ArgParser<V>, t1: string, t2: string, j: int, pIdx: nat, out: map<string, V>, convert: Converter<V>, switch: SwitchHandler<V>)
    requires 0 <= j && pIdx <= |p.posArgs|
    requires AgreeFrom(t1, t2, j) && ForwardOnly(convert)
    ensures SameOutcome(DispatchAt(p, t1, j, pIdx, out, convert, switch), DispatchAt(p, t2, j, pIdx, out, convert, switch))
  {
    if j < |t1| && t1[j] == '-' {
      if j + 1 < |t1| && t1[j + 1] == '-' {
        LongArgReadsForward(p, t1, t2, j + 2, pIdx, out, convert, switch);
      } else {
        ShortRunReadsForward(p, t1, t2, j + 1, pIdx, out, convert, switch);
      }
    } else if pIdx < |p.posArgs| {
      ConvertIntoReadsForward(p.posArgs[pIdx], t1, t2, j, pIdx + 1, out, convert);
    }
  }

  lemma StepReadsForward<V>(p: ArgParser<V>, t1: string, t2: string, i: int, pIdx: nat, out: map<string, V>, convert: Converter<V>, switch: SwitchHandler<V>)
    requires 0 <= i < |t1| && pIdx <= |p.posArgs|
    requires AgreeFrom(t1, t2, i) && ForwardOnly(convert)
    ensures SameOutcome(Step(p, State(Reader(t1, i), pIdx, out), convert, switch), Step(p, State(Reader(t2, i), pIdx, out), convert, switch))
  {
    CollectReadsForward(Reader(t1, i), Reader(t2, i), IsSpace);
    var j := PCollect(Reader(t1, i), IsSpace).idx;
    assert PCollect(Reader(t2, i), IsSpace).idx == j;
    StepIsDispatch(p, t1, i, pIdx, out, convert, switch);
    StepIsDispatch(p, t2, i, pIdx, out, convert, switch);
    DispatchReadsForward(p, t1, t2, j, pIdx, out, convert, switch);
  }

  /** The rest of a parse depends only on the text from the reader onwards. */
  lemma {:induction false} LoopReadsForward<V>(p: ArgParser<V>, t1: string, t2: string, i: int, pIdx: nat, out: map<string, V>, convert: Converter<V>, switch: SwitchHandler<V>)
    requires 0 <= i && pIdx <= |p.posArgs|
    requires AgreeFrom(t1, t2, i) && ForwardOnly(convert)
    ensures Loop(p, State(Reader(t1, i), pIdx, out), convert, switch) == Loop(p, State(Reader(t2, i), pIdx, out), convert, switch)
    decreases |t1| - i, |p.posArgs| - pIdx
  {
    if i < |t1| {
      StepReadsForward(p, t1, t2, i, pIdx, out, convert, switch);
      var s1 := Step(p, State(Reader(t1, i), pIdx, out), convert, switch);
      var s2 := Step(p, State(Reader(t2, i), pIdx, out), convert, switch);
      if s1.Success? {
        var n := s1.value;
        assert s2.value == State(Reader(t2, n.reader.idx), n.pIdx, n.out);
        LoopReadsForward(p, t1, t2, n.reader.idx, n.pIdx, n.out, convert, switch);
      }
    }
  }

  /** `--name=rest` and `--name rest` agree from the value onwards. */
  lemma SeparatorOnlyDiffers(name: string, rest: string)
    ensures var t1 := "--" + name + "=" + rest;
            var t2 := "--" + name + " " + rest;
            && t1 == "--" + name + ("=" + rest)
            && t2 == "--" + name + (" " + rest)
            && AgreeFrom(t1, t2, |name| + 3)
  {
    var t1 := "--" + name + "=" + rest;
    var t2 := "--" + name + " " + rest;
    var k := |name| + 3;
    assert t1[k..] == rest && t2[k..] == rest;
    forall j | k <= j < |t1| ensures t1[j] == t2[j] {
      assert t1[j] == t1[k..][j - k];
      assert t2[j] == t2[k..][j - k];
    }
  }

  /** `--name=value` and `--name value` parse alike for a value argument: the
      converter sees the same remaining text either way. */
  lemma LongFormEquivalence<V>(p: ArgParser<V>, name: string, rest: string, out: Option<map<string, V>>, convert: Converter<V>, switch: SwitchHandler<V>)
    requires name in p.argMap && !IsSwitch(p.argMap[name])
    requires forall k :: 0 <= k < |name| ==> IsNameChar(name[k])
    requires ForwardOnly(convert)
    ensures Parse(p, "--" + name + "=" + rest, out, convert, switch) == Parse(p, "--" + name + " " + rest, out, convert, switch)
  {
    var t1 := "--" + name + "=" + rest;
    var t2 := "--" + name + " " + rest;
    SeparatorOnlyDiffers(name, rest);
    LongTextShape(name, "=" + rest);
    LongTextShape(name, " " + rest);
    LongValueSkipsOneChar(p, t1, 0, name, 0, Fresh(out), convert, switch);
    LongValueSkipsOneChar(p, t2, 0, name, 0, Fresh(out), convert, switch);
    ConvertIntoReadsForward(p.argMap[name], t1, t2, |name| + 3, 0, Fresh(out), convert);
    var st1 := State(Start(t1), 0, Fresh(out));
    var st2 := State(Start(t2), 0, Fresh(out));
    var s1 := Step(p, st1, convert, switch);
    var s2 := Step(p, st2, convert, switch);
    if s1.Success? {
      var n := s1.value;
      LoopAfterStep(p, st1, n, convert, switch);
      LoopAfterStep(p, st2, s2.value, convert, switch);
      assert s2.value == State(Reader(t2, n.reader.idx), n.pIdx, n.out);
      LoopReadsForward(p, t1, t2, n.reader.idx, n.pIdx, n.out, convert, switch);
    }
  }

  // ---------------------------------------------------------------------------
  // Names the text does not mention
  // ---------------------------------------------------------------------------

  /** `--n` occurs somewhere in `text`. */
  ghost predicate MentionsLong(text: string, n: string)
  {
    exists i :: 0 <= i <= |text| && "--" + n <= text[i..]
  }

  /** A name no iteration over `text` can write: no positional argument has
      it, it is not one character long (a short-run character writes the
      one-character name it is looked up under), and `--n` does not occur. */
  ghost predicate Unmentioned<V>(p: ArgParser<V>, text: string, n: string)
  {
    && (forall i :: 0 <= i < |p.posArgs| ==> p.posArgs[i].name != n)
    && |n| != 1
    && !MentionsLong(text, n)
  }

  /** `after` has the same entry for `n` as `before`, or neither has one. */
  ghost predicate Keeps<V>(before: map<string, V>, after: map<string, V>, n: string)
  {
    && (n in after <==> n in before)
    && (n in before ==> after[n] == before[n])
  }

  /** An iteration's new output map, or its failure's partial map, keeps `n`. */
  ghost predicate OutcomeKeeps<V>(before: map<string, V>, res: Result<State<V>, ParseFailure<V>>, n: string)
  {
    if res.Success? then Keeps(before, res.value.out, n) else Keeps(before, res.error.partial, n)
  }

  /** `--w` at index `i` is a mention of `w`. */
  lemma MentionAt(t: string, i: int, w: string)
    requires 0 <= i && i + 2 + |w| <= |t|
    requires t[i] == '-' && t[i + 1] == '-' && t[i + 2..i + 2 + |w|] == w
    ensures MentionsLong(t, w)
  {
    assert t[i..][..2 + |w|] == "--" + w;
  }

  /** A short run writes only one-character names. */
  lemma {:induction false} ShortRunKeeps<V>(p: ArgParser<V>, st: State<V>, n: string, convert: Converter<V>, switch: SwitchHandler<V>)
    requires WellFormed(p) && |n| != 1
    ensures OutcomeKeeps(st.out, ShortRun(p, st, convert, switch), n)
    decreases |st.reader.text| - st.reader.idx
  {
    match Current(st.reader)
    case None =>
    case Some(c) =>
      if c != ' ' && [c] in p.argMap {
        var arg := p.argMap[[c]];
        assert arg.name == [c];
        if arg.handler.Some? {
          ShortRunKeeps(p, State(Next(st.reader, 1).reader, st.pIdx, st.out[arg.name := switch(arg)]), n, convert, switch);
        }
      }
  }

  /** The long branch, entered just past a `--`, writes only the name that follows it. */
  lemma LongArgKeeps<V>(p: ArgParser<V>, t: string, j: int, pIdx: nat, out: map<string, V>, n: string, convert: Converter<V>, switch: SwitchHandler<V>)
    requires WellFormed(p) && 2 <= j <= |t| && t[j - 2] == '-' && t[j - 1] == '-'
    requires !MentionsLong(t, n)
    ensures OutcomeKeeps(out, LongArg(p, State(Reader(t, j), pIdx, out), convert, switch), n)
  {
    var name := Collect(Reader(t, j), IsNameChar);
    MentionAt(t, j - 2, name.text);
    if name.text in p.argMap {
      assert p.argMap[name.text].name != n;
    }
  }

  lemma DispatchKeeps<V>(p: ArgParser<V>, t: string, j: int, pIdx: nat, out: map<string, V>, n: string, convert: Converter<V>, switch: SwitchHandler<V>)
    requires 0 <= j && pIdx <= |p.posArgs|
    requires WellFormed(p) && Unmentioned(p, t, n)
    ensures OutcomeKeeps(out, DispatchAt(p, t, j, pIdx, out, convert, switch), n)
  {
    if j < |t| && t[j] == '-' {
      if j + 1 < |t| && t[j + 1] == '-' {
        LongArgKeeps(p, t, j + 2, pIdx, out, n, convert, switch);
      } else {
        ShortRunKeeps(p, State(Reader(t, j + 1), pIdx, out), n, convert, switch);
      }
    } else if pIdx < |p.posArgs| {
      assert p.posArgs[pIdx].name != n;
    }
  }

  lemma StepKeeps<V>(p: ArgParser<V>, t: string, i: int, pIdx: nat, out: map<string, V>, n: string, convert: Converter<V>, switch: SwitchHandler<V>)
    requires 0 <= i < |t| && pIdx <= |p.posArgs|
    requires WellFormed(p) && Unmentioned(p, t, n)
    ensures OutcomeKeeps(out, Step(p, State(Reader(t, i), pIdx, out), convert, switch), n)
  {
    StepIsDispatch(p, t, i, pIdx, out, convert, switch);
    DispatchKeeps(p, t, PCollect(Reader(t, i), IsSpace).idx, pIdx, out, n, convert, switch);
  }

  /** The rest of a parse keeps every name the text cannot write. */
  lemma {:induction false} LoopKeeps<V>(p: ArgParser<V>, t: string, i: int, pIdx: nat, out: map<string, V>, n: string, convert: Converter<V>, switch: SwitchHandler<V>)
    requires 0 <= i && pIdx <= |p.posArgs|
    requires WellFormed(p) && Unmentioned(p, t, n)
    ensures var res := Loop(p, State(Reader(t, i), pIdx, out), convert, switch);
            if res.Success? then Keeps(out, res.value, n) else Keeps(out, res.error.partial, n)
    decreases |t| - i, |p.posArgs| - pIdx
  {
    if i < |t| {
      StepKeeps(p, t, i, pIdx, out, n, convert, switch);
      var s := Step(p, State(Reader(t, i), pIdx, out), convert, switch);
      if s.Success? {
        var next := s.value;
        assert next.reader == Reader(t, next.reader.idx);
        LoopKeeps(p, t, next.reader.idx, next.pIdx, next.out, n, convert, switch);
      }
    }
  }

  /** A value already in the output map (a default the caller put there)
      survives a parse whose text never names its argument, and a name the
      text never names is not added; both hold for a failure's partial map
      too. */
  lemma ParseKeepsUnmentioned<V>(p: ArgParser<V>, text: string, out: Option<map<string, V>>, n: string, convert: Converter<V>, switch: SwitchHandler<V>)
    requires WellFormed(p) && Unmentioned(p, text, n)
    ensures var res := Parse(p, text, out, convert, switch);
            && (res.Success? ==> (n in res.value <==> n in Fresh(out)))
            && (res.Success? && n in Fresh(out) ==> res.value[n] == Fresh(out)[n])
            && (res.Failure? ==> (n in res.error.partial <==> n in Fresh(out)))
            && (res.Failure? && n in Fresh(out) ==> res.error.partial[n] == Fresh(out)[n])
  {
    LoopKeeps(p, text, 0, 0, Fresh(out), n, convert, switch);
  }

  /** The switch `a` and the value argument `workdir`, registered by `add`. */
  function WorkdirParser<V>(): (p: ArgParser<V>)
    ensures WellFormed(p) && p.posArgs == []
  {
    AddPreservesWellFormed(Empty<V>(), NewSwitch("a", Some("a"), "bool", "set"));
    AddPreservesWellFormed(SwitchA<V>(), NewArg("workdir", None, "str"));
    Add(SwitchA<V>(), NewArg("workdir", None, "str"))
  }

  lemma WorkdirUnmentioned<V>()
    ensures Unmentioned(WorkdirParser<V>(), "-a", "workdir")
  {
    forall i | 0 <= i <= |"-a"| ensures !("--workdir" <= "-a"[i..]) {
    }
  }

  /** A `workdir` default the caller passes in is still there after `-a`,
      whether the parse succeeds or fails. */
  lemma WorkdirDefaultSurvives<V>(d: V, convert: Converter<V>, switch: SwitchHandler<V>)
    ensures var res := Parse(WorkdirParser<V>(), "-a", Some(map["workdir" := d]), convert, switch);
            && (res.Success? ==> "workdir" in res.value && res.value["workdir"] == d)
            && (res.Failure? ==> "workdir" in res.error.partial && res.error.partial["workdir"] == d)
  {
    WorkdirUnmentioned<V>();
    assert Fresh(Some(map["workdir" := d])) == map["workdir" := d];
    ParseKeepsUnmentioned(WorkdirParser<V>(), "-a", Some(map["workdir" := d]), "workdir", convert, switch);
  }

  // ---------------------------------------------------------------------------
  // Unread registries
  // ---------------------------------------------------------------------------

  lemma {:induction false} ShortRunIgnoresRegistries<V>(p: ArgParser<V>, types: map<TypeKey, TypeParser<V>>, byChar: map<string, Arg>, st: State<V>, convert: Converter<V>, switch: SwitchHandler<V>)
    ensures ShortRun(p.(types := types, byChar := byChar), st, convert, switch) == ShortRun(p, st, convert, switch)
    decreases |st.reader.text| - st.reader.idx
  {
    match Current(st.reader)
    case None =>
    case Some(c) =>
      if c != ' ' && [c] in p.argMap {
        var arg := p.argMap[[c]];
        if arg.handler.Some? {
          ShortRunIgnoresRegistries(p, types, byChar, State(Next(st.reader, 1).reader, st.pIdx, st.out[arg.name := switch(arg)]), convert, switch);
        }
      }
  }

  lemma {:induction false} LoopIgnoresRegistries<V>(p: ArgParser<V>, types: map<TypeKey, TypeParser<V>>, byChar: map<string, Arg>, st: State<V>, convert: Converter<V>, switch: SwitchHandler<V>)
    requires 0 <= st.reader.idx && st.pIdx <= |p.posArgs|
    ensures Loop(p.(types := types, byChar := byChar), st, convert, switch) == Loop(p, st, convert, switch)
    decreases |st.reader.text| - st.reader.idx, |p.posArgs| - st.pIdx
  {
    var q := p.(types := types, byChar := byChar);
    if Current(st.reader).Some? {
      var r := Next(PCollect(st.reader, IsSpace), 1).reader;
      ShortRunIgnoresRegistries(p, types, byChar, State(r, st.pIdx, st.out), convert, switch);
      assert Step(q, st, convert, switch) == Step(p, st, convert, switch);
      var s := Step(p, st, convert, switch);
      if s.Success? {
        LoopIgnoresRegistries(p, types, byChar, s.value, convert, switch);
      }
    }
  }

  /** `by_char` is written by `add` but never read, and the type registry
      filled by `define_type` is never consulted: replacing either leaves
      every parse unchanged. */
  lemma ParseIgnoresRegistries<V>(p: ArgParser<V>, t: TypeParser<V>, types: map<TypeKey, TypeParser<V>>, byChar: map<string, Arg>, text: string, out: Option<map<string, V>>, convert: Converter<V>, switch: SwitchHandler<V>)
    ensures Parse(p.(types := types, byChar := byChar), text, out, convert, switch) == Parse(p, text, out, convert, switch)
    ensures Parse(DefineType(p, t), text, out, convert, switch) == Parse(p, text, out, convert, switch)
  {
    LoopIgnoresRegistries(p, types, byChar, State(Start(text), 0, Fresh(out)), convert, switch);
    LoopIgnoresRegistries(p, p.types[t.ty := t], p.byChar, State(Start(text), 0, Fresh(out)), convert, switch);
  }
}
