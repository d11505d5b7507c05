/** The string cursor of libpy/util.py (`Reader`).

    A `Reader` is an immutable string plus an integer cursor. The cursor is
    never clamped: it may move before the start or past the end, and every
    read outside `[0, |text|)` yields `None` instead of failing. Moving the
    cursor is modelled by returning a new `Reader`. */
module Readers {
  import opened Wrappers

  datatype Reader = Reader(text: string, idx: int)

  /** The result of `next`/`prev`: the moved reader and the character now under it. */
  datatype Moved = Moved(reader: Reader, read: Option<char>)

  /** The result of `collect`: the accepted text and the reader after it. */
  datatype Collected = Collected(text: string, reader: Reader)

  /** `at` with a positive index reads `str[index]` unchecked, which raises past the end. */
  datatype ReadError = IndexOutOfRange(index: int)

  /** A bounds-checked read: the character at `i`, or `None` outside the string. */
  function CharAt(s: string, i: int): Option<char>
  {
    if i < 0 || i >= |s| then None else Some(s[i])
  }

  /** `Reader(str)`: a fresh reader with its cursor on the first character. */
  function Start(s: string): (r: Reader)
    ensures r.text == s
    ensures r.idx == 0
    ensures Current(r) == (if s == [] then None else Some(s[0]))
  {
    Reader(s, 0)
  }

  /** `current()`: the character under the cursor, `None` when the cursor is outside the text. */
  function Current(r: Reader): (c: Option<char>)
    ensures c.None? <==> r.idx < 0 || r.idx >= |r.text|
    ensures c.Some? ==> c.value == r.text[r.idx]
  {
    CharAt(r.text, r.idx)
  }

  /** `next(amt)`: moves the cursor forward by `amt` (any sign, no clamping) and reads there. */
  function Next(r: Reader, amt: int): (m: Moved)
    ensures m.reader.text == r.text
    ensures m.reader.idx == r.idx + amt
    ensures m.read == Current(m.reader)
  {
    var moved := r.(idx := r.idx + amt);
    Moved(moved, CharAt(moved.text, moved.idx))
  }

  /** `prev(amt)`: moves the cursor back by `amt` (any sign, no clamping) and reads there. */
  function Prev(r: Reader, amt: int): (m: Moved)
    ensures m.reader.text == r.text
    ensures m.reader.idx == r.idx - amt
    ensures m.read == Current(m.reader)
  {
    var moved := r.(idx := r.idx - amt);
    Moved(moved, CharAt(moved.text, moved.idx))
  }

  /** `peek(off)`: the character `off` places from the cursor; the reader itself is not returned, so it cannot move. */
  function Peek(r: Reader, off: int): (c: Option<char>)
    ensures c == Current(Next(r, off).reader)
    ensures c.Some? <==> 0 <= r.idx + off < |r.text|
    ensures c.Some? ==> c.value == r.text[r.idx + off]
  {
    var i := r.idx + off;
    if i >= |r.text| || i < 0 then None else Some(r.text[i])
  }

  /** `at(index)`: a positive index is absolute and unchecked; any other index is relative to the cursor. */
  function At(r: Reader, index: int): (res: Result<Option<char>, ReadError>)
    ensures index == 0 ==> res == Success(Current(r))
    ensures index <= 0 ==> res == Success(Peek(r, index))
    ensures index > 0 ==> (res.Success? <==> index < |r.text|)
    ensures index > 0 && res.Success? ==> res.value == Some(r.text[index])
  {
    if index > 0 then
      if index < |r.text| then Success(Some(r.text[index])) else Failure(IndexOutOfRange(index))
    else
      var abs := if index < 0 then -index else index;
      Success(CharAt(r.text, r.idx - abs))
  }

  /** `collect(pred)` with the cursor advancing once per accepted character
      (the loop in libpy/util.py:46-47 never advances; see `CollectAsWritten`).
      It returns the longest run of accepted characters starting at the cursor. */
  function Collect(r: Reader, pred: char -> bool): (res: Collected)
    ensures res.reader.text == r.text
    ensures res.reader.idx == r.idx + |res.text|
    ensures res.text != [] ==>
              0 <= r.idx && res.reader.idx <= |r.text| && res.text == r.text[r.idx..res.reader.idx]
    ensures forall k :: 0 <= k < |res.text| ==> pred(res.text[k])
    ensures Current(res.reader).None? || !pred(Current(res.reader).value)
    ensures Current(r).None? || !pred(Current(r).value) ==> res == Collected([], r)
    decreases |r.text| - r.idx
  {
    match Current(r)
    case None => Collected([], r)
    case Some(c) =>
      if pred(c) then
        var rest := Collect(Next(r, 1).reader, pred);
        Collected([c] + rest.text, rest.reader)
      else
        Collected([], r)
  }

  /** `pcollect(pred)` with the cursor advancing once per accepted character:
      skips the longest run of accepted characters (the source's return value
      is the builtin `str` class and is never used). */
  function PCollect(r: Reader, pred: char -> bool): (r': Reader)
    ensures r'.text == r.text
    ensures r'.idx >= r.idx
    ensures forall i :: r.idx <= i < r'.idx ==> 0 <= i < |r.text| && pred(r.text[i])
    ensures Current(r').None? || !pred(Current(r').value)
  {
    Collect(r, pred).reader
  }

  /** `collect(pred)` exactly as written in libpy/util.py:44-48: the loop
      appends `current()` but never moves the cursor. Python loops have no
      bound, so `fuel` counts the iterations observed; `None` means the loop
      had not returned after `fuel` iterations. `pcollect` runs the same loop. */
  function CollectAsWritten(r: Reader, pred: char -> bool, acc: string, fuel: nat): (res: Option<string>)
    ensures res.Some? ==> res.value == acc
    decreases fuel
  {
    if fuel == 0 then None
    else
      match Current(r)
      case None => Some(acc)
      case Some(c) => if pred(c) then CollectAsWritten(r, pred, acc + [c], fuel - 1) else Some(acc)
  }

  /** As written, `collect` returns `""` at once when the first character is
      rejected, and never returns at all when it is accepted. */
  lemma {:induction false} CollectAsWrittenNeverAdvances(r: Reader, pred: char -> bool, acc: string, fuel: nat)
    ensures Current(r).Some? && pred(Current(r).value) ==> CollectAsWritten(r, pred, acc, fuel) == None
    ensures !(Current(r).Some? && pred(Current(r).value)) && fuel > 0 ==> CollectAsWritten(r, pred, acc, fuel) == Some(acc)
    decreases fuel
  {
    if fuel > 0 && Current(r).Some? && pred(Current(r).value) {
      CollectAsWrittenNeverAdvances(r, pred, acc + [Current(r).value], fuel - 1);
    }
  }

  /** The input that shows it: reading a long-argument name such as `"ab"`
      hangs as written, while the advancing `Collect` returns the whole name. */
  lemma CollectAsWrittenHangsOnName(fuel: nat)
    ensures CollectAsWritten(Start("ab"), c => c != ' ' && c != '=', "", fuel) == None
    ensures Collect(Start("ab"), c => c != ' ' && c != '=') == Collected("ab", Reader("ab", 2))
  {
    var pred := c => c != ' ' && c != '=';
    CollectAsWrittenNeverAdvances(Start("ab"), pred, "", fuel);
    var r1 := Collect(Reader("ab", 1), pred);
    assert r1 == Collected("b", Reader("ab", 2));
  }

  /** `next(k)` followed by `prev(k)` (and the reverse) restores the cursor. */
  lemma NextPrevRoundTrip(r: Reader, k: int)
    ensures Prev(Next(r, k).reader, k).reader == r
    ensures Next(Prev(r, k).reader, k).reader == r
  {
  }

  /** Collection looks only at the characters from the cursor onwards. */
  lemma {:induction false} CollectReadsForward(r1: Reader, r2: Reader, pred: char -> bool)
    requires r1.idx == r2.idx && |r1.text| == |r2.text|
    requires forall j :: r1.idx <= j < |r1.text| && 0 <= j ==> r1.text[j] == r2.text[j]
    ensures Collect(r1, pred).text == Collect(r2, pred).text
    ensures Collect(r1, pred).reader.idx == Collect(r2, pred).reader.idx
    decreases |r1.text| - r1.idx
  {
    if Current(r1).Some? && pred(Current(r1).value) {
      CollectReadsForward(Next(r1, 1).reader, Next(r2, 1).reader, pred);
    }
  }
  /** When the text at the cursor is a run of accepted characters followed by
      the end or a rejected character, `Collect` returns exactly that run. */
  lemma {:induction false} CollectWord(r: Reader, pred: char -> bool, word: string)
    requires 0 <= r.idx && r.idx + |word| <= |r.text|
    requires r.text[r.idx..r.idx + |word|] == word
    requires forall k :: 0 <= k < |word| ==> pred(word[k])
    requires r.idx + |word| == |r.text| || !pred(r.text[r.idx + |word|])
    ensures Collect(r, pred) == Collected(word, Reader(r.text, r.idx + |word|))
    decreases |word|
  {
    if word != [] {
      assert r.text[r.idx] == word[0];
      var r' := Next(r, 1).reader;
      assert r'.text[r'.idx..r'.idx + |word[1..]|] == word[1..];
      CollectWord(r', pred, word[1..]);
    }
  }
}
