/** The argument registry and parser of libpy/args.py.

    `ArgParser.parse` mutates a reader and an output dict in one loop; here
    each loop iteration is a pure function from a `State` (reader, positional
    index, output map) to the next `State` or to a `ParseFailure`. Value
    conversion (`arg.ty.parse`, a caller-supplied `TypeParser`) and switch
    handlers are caller-supplied, so they are parameters: a `Converter`
    reads from the reader and reports how many characters it consumed, a
    `SwitchHandler` produces a value without consuming any. */
module Args {
  import opened Wrappers
  import opened Readers
  import opened Util

  /** `POS_APPEND_BACK`: the position that appends an argument to the positional list. */
  const PosAppendBack: int := 0xFFFF_FFFF

  /** Names the `TypeParser` object an argument's `ty` refers to. */
  type TypeKey = string

  /** Names the switch-handler callable of a switch argument. */
  type HandlerKey = string

  /** `Arg`: a name, an optional short character string, the value type, an
      optional switch handler and an optional position. */
  datatype Arg = Arg(name: string, short: Option<string>, ty: TypeKey, handler: Option<HandlerKey>, pos: Option<int>)

  /** What a converter produced: the value and how far it moved the reader. */
  datatype Converted<V> = Converted(value: V, consumed: nat)

  /** `arg.ty.parse(parser, arg, reader)`: reads forward from the reader, or fails with a message. */
  type Converter<V> = (Arg, Reader) -> Result<Converted<V>, string>

  /** `arg.sw_handler(parser, arg)`: a value produced without reading input. */
  type SwitchHandler<V> = Arg -> V

  /** `TypeParser`: a type key and its parse function. */
  datatype TypeParser<V> = TypeParser(ty: TypeKey, pfunc: Converter<V>)

  /** `ArgParser`: arguments by name, the ordered positional list, arguments
      by short character, and the type-parser registry. */
  datatype ArgParser<V> = ArgParser(
    argMap: map<string, Arg>,
    posArgs: seq<Arg>,
    byChar: map<string, Arg>,
    types: map<TypeKey, TypeParser<V>>)

  /** The ways `parse` fails. The source raises `KeyError` for an unknown
      name or character, `IndexError` for a positional token with no
      positional argument left, and whatever the converter raises. */
  datatype ArgError =
    | UnknownName(name: string)
    | UnknownChar(c: char)
    | MissingPositional(index: nat)
    | ConversionFailed(name: string, message: string)

  /** A failed parse, with the output map as it stood: writes made before the
      failing token are not undone. */
  datatype ParseFailure<V> = ParseFailure(error: ArgError, partial: map<string, V>)

  /** The loop variables of `parse`: the reader, `pIdx` and `out`. */
  datatype State<V> = State(reader: Reader, pIdx: nat, out: map<string, V>)

  // ---------------------------------------------------------------------------
  // Arg constructors
  // ---------------------------------------------------------------------------

  predicate IsSwitch(a: Arg) { a.handler.Some? }

  predicate IsPositional(a: Arg) { a.pos.Some? }

  /** `Arg.new`: a named value argument. */
  function NewArg(name: string, short: Option<string>, ty: TypeKey): Arg
  {
    Arg(name, short, ty, None, None)
  }

  /** `Arg.new_positional`: a positional argument appended at the end. */
  function NewPositional(name: string, ty: TypeKey): Arg
  {
    Arg(name, None, ty, None, Some(PosAppendBack))
  }

  /** `Arg.new_positional_at`: a positional argument placed at `pos`. */
  function NewPositionalAt(name: string, ty: TypeKey, pos: int): Arg
  {
    Arg(name, None, ty, None, Some(pos))
  }

  /** `Arg.new_switch`: a named switch argument. */
  function NewSwitch(name: string, short: Option<string>, ty: TypeKey, handler: HandlerKey): Arg
  {
    Arg(name, short, ty, Some(handler), None)
  }

  /** Each constructor makes exactly one kind of argument: named value,
      named switch, or positional (never both positional and switch). */
  lemma ConstructorKinds(name: string, short: Option<string>, ty: TypeKey, pos: int, h: HandlerKey)
    ensures var a := NewArg(name, short, ty); a.name == name && a.short == short && !IsSwitch(a) && !IsPositional(a)
    ensures var a := NewSwitch(name, short, ty, h); a.name == name && a.short == short && IsSwitch(a) && !IsPositional(a)
    ensures var a := NewPositional(name, ty); a.short.None? && !IsSwitch(a) && a.pos == Some(PosAppendBack)
    ensures var a := NewPositionalAt(name, ty, pos); a.short.None? && !IsSwitch(a) && a.pos == Some(pos)
  {
  }

  // ---------------------------------------------------------------------------
  // Registration
  // ---------------------------------------------------------------------------

  /** `ArgParser()`: every registry empty. The registry invariant holds, and
      no name is registered yet. */
  function Empty<V>(): (p: ArgParser<V>)
    ensures WellFormed(p)
    ensures Names(p) == {}
  {
    ArgParser(map[], [], map[], map[])
  }

  /** The index Python's `list.insert(i, x)` inserts at in a list of length
      `len`: a negative index has `len` added, then is floored at 0; an index
      past the end appends. */
  function InsertIndex(len: nat, i: int): (k: nat)
    ensures k <= len
  {
    if i < 0 then (if len + i < 0 then 0 else len + i)
    else if i > len then len
    else i
  }

  /** `list.insert(i, x)`. */
  function ListInsert<T>(s: seq<T>, i: int, x: T): (r: seq<T>)
    ensures |r| == |s| + 1
    ensures r[InsertIndex(|s|, i)] == x
    ensures forall j :: 0 <= j < InsertIndex(|s|, i) ==> r[j] == s[j]
    ensures forall j :: InsertIndex(|s|, i) < j < |r| ==> r[j] == s[j - 1]
  {
    var k := InsertIndex(|s|, i);
    s[..k] + [x] + s[k..]
  }

  /** The sequence without its element at `k`. */
  function RemoveAt<T>(s: seq<T>, k: nat): seq<T>
    requires k < |s|
  {
    s[..k] + s[k + 1..]
  }

  /** Where `add` puts a positional argument with position `pos` into a
      positional list that currently has `len` entries. */
  function Placement(len: nat, pos: int): (k: nat)
    ensures k <= len
  {
    if pos == PosAppendBack then len else InsertIndex(len, GetIdxByPos(len, pos))
  }

  /** The positional list after `add(arg)`: unchanged for a non-positional
      argument, otherwise `arg` lands at `Placement` and the others keep
      their order around it. */
  function PlacePositional(posArgs: seq<Arg>, arg: Arg): (r: seq<Arg>)
    ensures arg.pos.None? ==> r == posArgs
    ensures arg.pos.Some? ==>
              var k := Placement(|posArgs|, arg.pos.value);
              |r| == |posArgs| + 1 && r[k] == arg && RemoveAt(r, k) == posArgs
    ensures arg.pos == Some(PosAppendBack) ==> r == posArgs + [arg]
  {
    if arg.pos.None? then posArgs
    else if arg.pos.value == PosAppendBack then
      assert (posArgs + [arg])[..|posArgs|] == posArgs;
      posArgs + [arg]
    else
      var k := Placement(|posArgs|, arg.pos.value);
      var r := ListInsert(posArgs, GetIdxByPos(|posArgs|, arg.pos.value), arg);
      assert r == posArgs[..k] + [arg] + posArgs[k..];
      assert r[..k] == posArgs[..k];
      assert r[k + 1..] == posArgs[k..];
      r
  }

  /** `add(arg)`: registers by name and by character, overwriting silently,
      and inserts a positional argument into the positional list. */
  function Add<V>(p: ArgParser<V>, arg: Arg): (q: ArgParser<V>)
    ensures q.types == p.types
    ensures q.argMap.Keys == p.argMap.Keys + {arg.name}
    ensures q.argMap[arg.name] == arg
    ensures forall k :: k in p.argMap && k != arg.name ==> q.argMap[k] == p.argMap[k]
    ensures arg.short.None? ==> q.byChar == p.byChar
    ensures arg.short.Some? ==> q.byChar.Keys == p.byChar.Keys + {arg.short.value} && q.byChar[arg.short.value] == arg
    ensures arg.short.Some? ==> forall k :: k in p.byChar && k != arg.short.value ==> q.byChar[k] == p.byChar[k]
    ensures arg.pos.None? ==> q.posArgs == p.posArgs
    ensures arg.pos.Some? ==>
              var k := Placement(|p.posArgs|, arg.pos.value);
              |q.posArgs| == |p.posArgs| + 1 && q.posArgs[k] == arg && RemoveAt(q.posArgs, k) == p.posArgs
    ensures arg.pos == Some(PosAppendBack) ==> q.posArgs == p.posArgs + [arg]
  {
    var byChar := if arg.short.Some? then p.byChar[arg.short.value := arg] else p.byChar;
    ArgParser(p.argMap[arg.name := arg], PlacePositional(p.posArgs, arg), byChar, p.types)
  }

  /** `define_type(ty)`: registers a type parser under its type key. */
  function DefineType<V>(p: ArgParser<V>, t: TypeParser<V>): (q: ArgParser<V>)
    ensures q.argMap == p.argMap && q.posArgs == p.posArgs && q.byChar == p.byChar
    ensures q.types.Keys == p.types.Keys + {t.ty}
    ensures q.types[t.ty] == t
    ensures forall k :: k in p.types && k != t.ty ==> q.types[k] == p.types[k]
  {
    p.(types := p.types[t.ty := t])
  }

  /** What registration through `add` maintains: every argument is filed
      under its own name and its own character, and the positional list
      holds positional arguments only. */
  ghost predicate WellFormed<V>(p: ArgParser<V>)
  {
    && (forall k :: k in p.argMap ==> p.argMap[k].name == k)
    && (forall k :: k in p.byChar ==> p.byChar[k].short == Some(k))
    && (forall i :: 0 <= i < |p.posArgs| ==> IsPositional(p.posArgs[i]))
  }

  lemma AddPreservesWellFormed<V>(p: ArgParser<V>, arg: Arg)
    requires WellFormed(p)
    ensures WellFormed(Add(p, arg))
  {
    var q := Add(p, arg);
    if arg.pos.Some? {
      var k := Placement(|p.posArgs|, arg.pos.value);
      forall i | 0 <= i < |q.posArgs| ensures IsPositional(q.posArgs[i]) {
        if i < k {
          assert q.posArgs[i] == RemoveAt(q.posArgs, k)[i];
        } else if i > k {
          assert q.posArgs[i] == RemoveAt(q.posArgs, k)[i - 1];
        }
      }
    }
  }

  /** All the names `parse` can write: those of registered arguments. */
  ghost function Names<V>(p: ArgParser<V>): set<string>
  {
    (set k | k in p.argMap :: p.argMap[k].name) + (set i | 0 <= i < |p.posArgs| :: p.posArgs[i].name)
  }

  // ---------------------------------------------------------------------------
  // Parsing
  // ---------------------------------------------------------------------------

  /** Python's `str.isspace()` on one character. */
  predicate IsSpace(c: char)
  {
    || ('\t' <= c <= '\r')
    || ('\U{1C}' <= c <= ' ')
    || c == '\U{85}' || c == '\U{A0}' || c == '\U{1680}'
    || ('\U{2000}' <= c <= '\U{200A}')
    || c == '\U{2028}' || c == '\U{2029}' || c == '\U{202F}' || c == '\U{205F}' || c == '\U{3000}'
  }

  /** The characters of a long argument name: anything but a space or `=`. */
  predicate IsNameChar(c: char)
  {
    c != ' ' && c != '='
  }

  /** `if not out: out = {}`. */
  function Fresh<V>(out: Option<map<string, V>>): (m: map<string, V>)
    ensures out.Some? ==> m == out.value
    ensures out.None? ==> m == map[]
  {
    if out.None? || |out.value| == 0 then map[] else out.value
  }

  /** `before` became `after` by writes to names in `names` only. */
  ghost predicate Frames<V>(before: map<string, V>, after: map<string, V>, names: set<string>)
  {
    && before.Keys <= after.Keys
    && forall k :: k in after && k !in names ==> k in before && after[k] == before[k]
  }

  /** One iteration never moves the reader back, keeps the text, and either
      moves the reader forward or uses up one positional argument. */
  ghost predicate Progress<V>(p: ArgParser<V>, st: State<V>, st': State<V>)
  {
    && st'.reader.text == st.reader.text
    && st.reader.idx <= st'.reader.idx
    && st.pIdx <= st'.pIdx <= |p.posArgs|
    && (st.reader.idx < st'.reader.idx || st.pIdx < st'.pIdx)
  }

  /** `parse_val(arg, reader)`: runs the converter and moves the reader past
      what it consumed; any converter error becomes a failure naming the argument. */
  function ParseVal<V>(arg: Arg, r: Reader, convert: Converter<V>): (res: Result<(V, Reader), ArgError>)
    ensures res.Success? <==> convert(arg, r).Success?
    ensures res.Success? ==> res.value.0 == convert(arg, r).value.value
    ensures res.Success? ==> res.value.1 == Reader(r.text, r.idx + convert(arg, r).value.consumed)
    ensures res.Failure? ==> res.error == ConversionFailed(arg.name, convert(arg, r).error)
  {
    match convert(arg, r)
    case Failure(msg) => Failure(ConversionFailed(arg.name, msg))
    case Success(c) => Success((c.value, Next(r, c.consumed).reader))
  }

  /** `val = self.parse_val(arg, reader); out[arg.name] = val`: convert at
      `r` and store under the argument's name; a failure keeps `out` as it is. */
  function ConvertInto<V>(arg: Arg, r: Reader, pIdx: nat, out: map<string, V>, convert: Converter<V>): (res: Result<State<V>, ParseFailure<V>>)
    ensures res.Success? <==> convert(arg, r).Success?
    ensures res.Success? ==> res.value.out == out[arg.name := convert(arg, r).value.value]
    ensures res.Success? ==> res.value.reader == Reader(r.text, r.idx + convert(arg, r).value.consumed) && res.value.pIdx == pIdx
    ensures res.Success? ==> res.value.out.Keys == out.Keys + {arg.name} && Frames(out, res.value.out, {arg.name})
    ensures res.Failure? ==> res.error.partial == out && res.error.error == ConversionFailed(arg.name, convert(arg, r).error)
  {
    match ParseVal(arg, r, convert)
    case Failure(e) => Failure(ParseFailure(e, out))
    case Success(v) => Success(State(v.1, pIdx, out[arg.name := v.0]))
  }

  /** The long branch, entered with the reader just past `--`: read the name
      up to a space or `=`; a value argument, or a switch written with `=`,
      skips exactly one character and converts; a switch otherwise stores its
      handler's value and consumes nothing more. */
  function LongArg<V>(p: ArgParser<V>, st: State<V>, convert: Converter<V>, switch: SwitchHandler<V>): (res: Result<State<V>, ParseFailure<V>>)
    ensures res.Success? ==> res.value.reader.text == st.reader.text && res.value.reader.idx >= st.reader.idx
    ensures res.Success? ==> res.value.pIdx == st.pIdx && Frames(st.out, res.value.out, Names(p))
    ensures res.Failure? ==> res.error.partial == st.out
  {
    var name := Collect(st.reader, IsNameChar);
    if name.text !in p.argMap then Failure(ParseFailure(UnknownName(name.text), st.out))
    else
      var arg := p.argMap[name.text];
      var r := name.reader;
      if arg.handler.None? || Current(r) == Some('=') then
        ConvertInto(arg, Next(r, 1).reader, st.pIdx, st.out, convert)
      else
        Success(State(r, st.pIdx, st.out[arg.name := switch(arg)]))
  }

  /** The short branch, entered with the reader just past `-`: up to a space
      or the end, each switch character stores its handler's value and
      advances one character; the first value character converts the rest
      and ends the run. Characters are looked up among the names. */
  function ShortRun<V>(p: ArgParser<V>, st: State<V>, convert: Converter<V>, switch: SwitchHandler<V>): (res: Result<State<V>, ParseFailure<V>>)
    ensures res.Success? ==> res.value.reader.text == st.reader.text && res.value.reader.idx >= st.reader.idx
    ensures res.Success? ==> res.value.pIdx == st.pIdx && Frames(st.out, res.value.out, Names(p))
    ensures res.Failure? ==> Frames(st.out, res.error.partial, Names(p))
    decreases |st.reader.text| - st.reader.idx
  {
    match Current(st.reader)
    case None => Success(st)
    case Some(c) =>
      if c == ' ' then Success(st)
      else if [c] !in p.argMap then Failure(ParseFailure(UnknownChar(c), st.out))
      else
        var arg := p.argMap[[c]];
        if arg.handler.None? then
          ConvertInto(arg, Next(st.reader, 1).reader, st.pIdx, st.out, convert)
        else
          ShortRun(p, State(Next(st.reader, 1).reader, st.pIdx, st.out[arg.name := switch(arg)]), convert, switch)
  }

  /** The positional branch: the next positional argument converts from the
      reader; there is none left once `pIdx` reaches the list's length. */
  function Positional<V>(p: ArgParser<V>, st: State<V>, convert: Converter<V>): (res: Result<State<V>, ParseFailure<V>>)
    ensures res.Success? ==> res.value.reader.text == st.reader.text && res.value.reader.idx >= st.reader.idx
    ensures res.Success? ==> res.value.pIdx == st.pIdx + 1 <= |p.posArgs| && Frames(st.out, res.value.out, Names(p))
    ensures res.Failure? ==> res.error.partial == st.out
    ensures st.pIdx >= |p.posArgs| ==> res == Failure(ParseFailure(MissingPositional(st.pIdx), st.out))
  {
    if st.pIdx >= |p.posArgs| then Failure(ParseFailure(MissingPositional(st.pIdx), st.out))
    else
      ConvertInto(p.posArgs[st.pIdx], st.reader, st.pIdx + 1, st.out, convert)
  }

  /** What an iteration does once whitespace is skipped and the reader is at
      `r`: `--` enters the long branch, a single `-` the short run, anything
      else (also no character at all) the positional branch. */
  function Dispatch<V>(p: ArgParser<V>, r: Reader, pIdx: nat, out: map<string, V>, convert: Converter<V>, switch: SwitchHandler<V>): (res: Result<State<V>, ParseFailure<V>>)
    requires pIdx <= |p.posArgs|
    ensures res.Success? ==> res.value.reader.text == r.text && r.idx <= res.value.reader.idx
    ensures res.Success? ==> pIdx <= res.value.pIdx <= |p.posArgs| && (r.idx < res.value.reader.idx || pIdx < res.value.pIdx)
    ensures res.Success? ==> Frames(out, res.value.out, Names(p))
    ensures res.Failure? ==> Frames(out, res.error.partial, Names(p))
  {
    if Current(r) == Some('-') then
      var r := Next(r, 1).reader;
      if Current(r) == Some('-') then LongArg(p, State(Next(r, 1).reader, pIdx, out), convert, switch)
      else ShortRun(p, State(r, pIdx, out), convert, switch)
    else
      Positional(p, State(r, pIdx, out), convert)
  }

  /** One iteration of the `while reader.current() != None` loop: skip
      whitespace (without checking for the end again), then dispatch. */
  function Step<V>(p: ArgParser<V>, st: State<V>, convert: Converter<V>, switch: SwitchHandler<V>): (res: Result<State<V>, ParseFailure<V>>)
    requires 0 <= st.reader.idx < |st.reader.text|
    requires st.pIdx <= |p.posArgs|
    ensures res.Success? ==> Progress(p, st, res.value) && Frames(st.out, res.value.out, Names(p))
    ensures res.Failure? ==> Frames(st.out, res.error.partial, Names(p))
  {
    Dispatch(p, PCollect(st.reader, IsSpace), st.pIdx, st.out, convert, switch)
  }

  /** The parse loop from a given state to the end of the input or the first failure. */
  function Loop<V>(p: ArgParser<V>, st: State<V>, convert: Converter<V>, switch: SwitchHandler<V>): (res: Result<map<string, V>, ParseFailure<V>>)
    requires 0 <= st.reader.idx
    requires st.pIdx <= |p.posArgs|
    ensures res.Success? ==> Frames(st.out, res.value, Names(p))
    ensures res.Failure? ==> Frames(st.out, res.error.partial, Names(p))
    ensures st.reader.idx >= |st.reader.text| ==> res == Success(st.out)
    decreases |st.reader.text| - st.reader.idx, |p.posArgs| - st.pIdx
  {
    if Current(st.reader).None? then Success(st.out)
    else
      match Step(p, st, convert, switch)
      case Failure(f) => Failure(f)
      case Success(next) => Loop(p, next, convert, switch)
  }

  /** `parse(str, out)`: the output map (a fresh one when `out` is `None` or
      empty) updated, token by token, at the names of the matched arguments
      only; every other entry is left as it was, also in a failure's partial map. */
  function Parse<V>(p: ArgParser<V>, text: string, out: Option<map<string, V>>, convert: Converter<V>, switch: SwitchHandler<V>): (res: Result<map<string, V>, ParseFailure<V>>)
    ensures res.Success? ==> Frames(Fresh(out), res.value, Names(p))
    ensures res.Failure? ==> Frames(Fresh(out), res.error.partial, Names(p))
    ensures text == [] ==> res == Success(Fresh(out))
  {
    Loop(p, State(Start(text), 0, Fresh(out)), convert, switch)
  }
}
