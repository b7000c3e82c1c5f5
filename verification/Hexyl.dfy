/** The rows of a hex dump in which repetitions of a uniform row are squeezed. */
module Hexyl {
  import opened Streams

  // ----- machine words -----

  /** The number that a word's bytes stand for, the last byte being the most significant. */
  function LittleEndian(w: seq<byte>): nat {
    if w == [] then 0 else w[0] + 256 * LittleEndian(w[1..])
  }

  /** ... and the first byte being the most significant. */
  function BigEndian(w: seq<byte>): nat {
    if w == [] then 0 else 256 * BigEndian(w[..|w| - 1]) + w[|w| - 1]
  }

  /** The largest word of n bytes. */
  function MaxWord(n: nat): nat {
    if n == 0 then 0 else 256 * MaxWord(n - 1) + 255
  }

  function Ones(n: nat): nat {
    if n == 0 then 0 else 256 * Ones(n - 1) + 1
  }

  predicate AllAre(s: seq<byte>, b: byte) {
    forall i :: 0 <= i < |s| ==> s[i] == b
  }

  /** The word 01 01 .. 01. */
  lemma {:induction false} MaxWordOver255(n: nat)
    ensures MaxWord(n) / 255 == Ones(n)
    ensures MaxWord(n) == 255 * Ones(n)
  {
    if n > 0 {
      MaxWordOver255(n - 1);
    }
  }

  /** A word equals a byte times 01 01 .. 01 exactly if all its bytes are that byte. */
  lemma {:induction false} RepeatedLittleEndian(w: seq<byte>, b: byte)
    ensures LittleEndian(w) == b * Ones(|w|) <==> AllAre(w, b)
  {
    if w != [] {
      RepeatedLittleEndian(w[1..], b);
      OnesStep(|w|, b);
      assert w == [w[0]] + w[1..];
      Remainder(w[0], LittleEndian(w[1..]), b, b * Ones(|w| - 1));
    }
  }

  lemma {:induction false} RepeatedBigEndian(w: seq<byte>, b: byte)
    ensures BigEndian(w) == b * Ones(|w|) <==> AllAre(w, b)
  {
    if w != [] {
      var n := |w| - 1;
      RepeatedBigEndian(w[..n], b);
      OnesStep(|w|, b);
      assert w == w[..n] + [w[n]];
      Remainder(w[n], BigEndian(w[..n]), b, b * Ones(n));
    }
  }

  lemma OnesStep(n: nat, b: byte)
    requires n > 0
    ensures b * Ones(n) == 256 * (b * Ones(n - 1)) + b
  {
  }

  lemma Remainder(x: byte, m: nat, y: byte, n: nat)
    ensures x + 256 * m == y + 256 * n <==> x == y && m == n
  {
  }

  // ----- the rows of an input -----

  /** A row with its offset and bytes, the star, or the notice that there is no input. */
  datatype Row = Bytes(offset: nat, data: seq<byte>) | Star | NoContent

  predicate UniformOn(input: seq<byte>, lo: nat, hi: nat)
    requires lo < hi <= |input|
  {
    forall i :: lo <= i < hi ==> input[i] == input[lo]
  }

  /** The whole row of width w at p repeats the uniform row before it. */
  predicate Squeezed(input: seq<byte>, w: nat, squeeze: bool, p: nat)
    requires w > 0
  {
    squeeze && w <= p && p + w <= |input| && UniformOn(input, p - w, p + w)
  }

  /** A row is printed unless it repeats a uniform row; the first repetition gives a star. */
  function RowAt(input: seq<byte>, w: nat, squeeze: bool, from: nat, p: nat): seq<Row>
    requires w > 0 && p + w <= |input|
  {
    if !Squeezed(input, w, squeeze, p) then [Bytes(from + p, input[p..p + w])]
    else if Squeezed(input, w, squeeze, p - w) then []
    else [Star]
  }

  /** What is left of the input behind the last whole row; if that was squeezed, at least its end. */
  function Ending(input: seq<byte>, w: nat, squeeze: bool, from: nat, p: nat): seq<Row>
    requires w > 0 && p <= |input| < p + w
  {
    if p < |input| || (w <= p && Squeezed(input, w, squeeze, p - w)) then [Bytes(from + p, input[p..])] else []
  }

  function RowsFrom(input: seq<byte>, w: nat, squeeze: bool, from: nat, p: nat): seq<Row>
    requires w > 0 && p <= |input|
    decreases |input| - p
  {
    if |input| < p + w then Ending(input, w, squeeze, from, p)
    else RowAt(input, w, squeeze, from, p) + RowsFrom(input, w, squeeze, from, p + w)
  }

  /** The dump of an input in rows of width w, offsets beginning at `from`. */
  function Rows(input: seq<byte>, w: nat, squeeze: bool, from: nat): seq<Row>
    requires w > 0
  {
    if input == [] then [NoContent] else RowsFrom(input, w, squeeze, from, 0)
  }

  // ----- reading a dump -----

  /** Bytes like the last one up to a length. */
  function FillTo(s: seq<byte>, n: nat): seq<byte>
    requires s != []
  {
    s + seq(if n < |s| then 0 else n - |s|, _ => s[|s| - 1])
  }

  /** Reads rows as the continuation of `sofar`: a star stands for bytes like those before it up to the next
      offset printed. */
  function DecodeFrom(rows: seq<Row>, from: nat, sofar: seq<byte>): seq<byte> {
    if rows == [] then sofar
    else if rows[0].Bytes? then DecodeFrom(rows[1..], from, sofar + rows[0].data)
    else if rows[0].Star? && |rows| > 1 && rows[1].Bytes? && rows[1].offset >= from && sofar != [] then
      DecodeFrom(rows[2..], from, FillTo(sofar, rows[1].offset - from) + rows[1].data)
    else sofar
  }

  function Decode(rows: seq<Row>, from: nat): seq<byte> {
    DecodeFrom(rows, from, [])
  }

  /** The dump loses nothing. */
  lemma DumpIsLossless(input: seq<byte>, w: nat, squeeze: bool, from: nat)
    requires w > 0
    ensures Decode(Rows(input, w, squeeze, from), from) == input
  {
    if input != [] {
      assert input[..0] == [];
      DecodeRows(input, w, squeeze, from, 0);
    }
  }

  lemma {:induction false} DecodeRows(input: seq<byte>, w: nat, squeeze: bool, from: nat, p: nat)
    requires w > 0 && p <= |input| && (w <= p ==> !Squeezed(input, w, squeeze, p - w)) && (p == 0 || w <= p)
    ensures DecodeFrom(RowsFrom(input, w, squeeze, from, p), from, input[..p]) == input
    decreases |input| - p
  {
    hide Squeezed, DecodeFrom;
    if |input| < p + w {
      assert input[..p] + input[p..] == input && input[..|input|] == input;
      assert [Bytes(from + p, input[p..])] + [] == [Bytes(from + p, input[p..])];
      DecodeBytes(from, input[..p], from + p, input[p..], []);
      DecodeNothing(from, input);
    } else {
      var rest := RowsFrom(input, w, squeeze, from, p + w);
      if Squeezed(input, w, squeeze, p) {
        SqueezedIsPositive(input, w, squeeze, p);
        DecodeSqueezed(input, w, squeeze, from, p, p + w);
      } else {
        DecodeBytes(from, input[..p], from + p, input[p..p + w], rest);
        assert input[..p] + input[p..p + w] == input[..p + w];
        DecodeRows(input, w, squeeze, from, p + w);
      }
    }
  }

  lemma DecodeBytes(from: nat, sofar: seq<byte>, offset: nat, data: seq<byte>, rest: seq<Row>)
    ensures DecodeFrom([Bytes(offset, data)] + rest, from, sofar) == DecodeFrom(rest, from, sofar + data)
  {
  }

  lemma SqueezedIsPositive(input: seq<byte>, w: nat, squeeze: bool, p: nat)
    requires w > 0 && Squeezed(input, w, squeeze, p)
    ensures w <= p
  {
  }

  /** A stretch like the last byte before it. */
  predicate Repeats(input: seq<byte>, start: nat, p: nat)
    requires 0 < start <= p <= |input|
  {
    UniformOn(input, start - 1, if start < p then p else start)
  }

  /** All rows from start on up to p are squeezed, the star for them has been printed. */
  lemma {:induction false} DecodeSqueezed(input: seq<byte>, w: nat, squeeze: bool, from: nat, start: nat, p: nat)
    requires w > 0 && 0 < start && start + w <= p <= |input|
    requires Squeezed(input, w, squeeze, p - w) && Repeats(input, start, p - w)
    ensures DecodeFrom([Star] + RowsFrom(input, w, squeeze, from, p), from, input[..start]) == input
    decreases |input| - p
  {
    hide Squeezed, FillTo, Repeats, DecodeFrom;
    RepeatsLonger(input, w, squeeze, start, p - w);
    FilledPrefix(input, start, p);
    if |input| < p + w {
      assert [Star] + [Bytes(from + p, input[p..])] + [] == [Star] + [Bytes(from + p, input[p..])];
      DecodeStar(from, input[..start], p, input[p..], []);
      assert input[..p] + input[p..] == input;
      DecodeNothing(from, input);
    } else {
      var rest := RowsFrom(input, w, squeeze, from, p + w);
      if Squeezed(input, w, squeeze, p) {
        assert [] + rest == rest;
        DecodeSqueezed(input, w, squeeze, from, start, p + w);
      } else {
        var row := [Bytes(from + p, input[p..p + w])];
        assert [Star] + (row + rest) == [Star] + row + rest;
        DecodeStar(from, input[..start], p, input[p..p + w], rest);
        assert input[..p] + input[p..p + w] == input[..p + w];
        DecodeRows(input, w, squeeze, from, p + w);
      }
    }
  }

  lemma DecodeStar(from: nat, sofar: seq<byte>, p: nat, data: seq<byte>, rest: seq<Row>)
    requires sofar != []
    ensures DecodeFrom([Star] + [Bytes(from + p, data)] + rest, from, sofar) ==
            DecodeFrom(rest, from, FillTo(sofar, p) + data)
  {
  }

  lemma DecodeNothing(from: nat, sofar: seq<byte>)
    ensures DecodeFrom([], from, sofar) == sofar
  {
  }

  lemma RepeatsLonger(input: seq<byte>, w: nat, squeeze: bool, start: nat, p: nat)
    requires w > 0 && 0 < start <= p && p + w <= |input|
    requires Squeezed(input, w, squeeze, p) && Repeats(input, start, p)
    ensures Repeats(input, start, p + w)
  {
  }

  lemma FilledPrefix(input: seq<byte>, start: nat, p: nat)
    requires 0 < start <= p <= |input| && Repeats(input, start, p)
    ensures FillTo(input[..start], p) == input[..p]
  {
  }

  // ----- the printer -----

  datatype Squeezer = Print | Delete | Ignore | Disabled

  /** The squeezer behind the first p bytes, a number of whole rows. */
  function ModeAt(input: seq<byte>, w: nat, squeeze: bool, p: nat): Squeezer
    requires w > 0 && p <= |input| && (p == 0 || w <= p)
  {
    if !squeeze then Disabled
    else if p == 0 then Ignore
    else if Squeezed(input, w, squeeze, p - w) then Delete
    else if UniformOn(input, p - w, p) then Print
    else Ignore
  }

  lemma ModeMeans(input: seq<byte>, w: nat, squeeze: bool, p: nat)
    requires w > 0 && p + w <= |input| && (p == 0 || w <= p)
    ensures ModeAt(input, w, squeeze, p) == Print || ModeAt(input, w, squeeze, p) == Delete ==>
      squeeze && w <= p && UniformOn(input, p - w, p)
    ensures ModeAt(input, w, squeeze, p) == Disabled || ModeAt(input, w, squeeze, p) == Ignore ==>
      !Squeezed(input, w, squeeze, p)
  {
  }

  lemma SqueezedSame(input: seq<byte>, w: nat, squeeze: bool, p: nat)
    requires w > 0 && p + w <= |input|
    ensures Squeezed(input, w, squeeze, p) ==> w <= p && input[p + w - 1] == input[p - 1] && UniformOn(input, p - w, p)
  {
  }

  lemma RowsStep(before: seq<Row>, input: seq<byte>, w: nat, squeeze: bool, from: nat, p: nat)
    requires w > 0 && p + w <= |input|
    ensures before + RowsFrom(input, w, squeeze, from, p)
         == (before + RowAt(input, w, squeeze, from, p)) + RowsFrom(input, w, squeeze, from, p + w)
  {
  }

  lemma RowsEnd(input: seq<byte>, w: nat, squeeze: bool, from: nat, p: nat)
    requires w > 0 && p <= |input| < p + w
    ensures RowsFrom(input, w, squeeze, from, p) == Ending(input, w, squeeze, from, p)
  {
  }

  lemma NeverSqueezed(input: seq<byte>, w: nat, squeeze: bool, p: nat)
    requires w > 0
    ensures !squeeze ==> !Squeezed(input, w, squeeze, p)
  {
  }

  class Printer {
    const w: nat
    const wordSize: nat
    const bigEndian: bool
    const displayOffset: nat
    const lineBuf: array<byte>
    var lineLen: nat
    var squeezer: Squeezer
    var squeezeByte: nat
    var idx: nat
    var rows: seq<Row>

    constructor (panels: nat, wordSize: nat, bigEndian: bool, displayOffset: nat, squeeze: bool)
      requires panels > 0 && (wordSize == 4 || wordSize == 8)
      ensures Valid() && fresh(lineBuf) && w == 8 * panels && this.displayOffset == displayOffset
      ensures idx == 0 && rows == [] && lineLen == w && squeezer == if squeeze then Ignore else Disabled
    {
      w, this.wordSize, this.bigEndian, this.displayOffset := 8 * panels, wordSize, bigEndian, displayOffset;
      lineBuf := new byte[8 * panels];
      lineLen, squeezer, squeezeByte := 8 * panels, if squeeze then Ignore else Disabled, 0;
      idx, rows := 0, [];
    }

    ghost predicate Valid() {
      w > 0 && w % 8 == 0 && lineBuf.Length == w && (wordSize == 4 || wordSize == 8)
    }

    function Word(bytes: seq<byte>): nat {
      if bigEndian then BigEndian(bytes) else LittleEndian(bytes)
    }

    /** Compares the line with a repeated byte, a word at a time. */
    method SameWords(word: nat, ghost b: byte) returns (same: bool)
      requires Valid() && word == b * Ones(wordSize)
      ensures same <==> AllAre(lineBuf[..], b)
    {
      var i := 0;
      while i < w
        invariant 0 <= i <= w && AtWord(i)
        invariant forall k :: 0 <= k < i ==> lineBuf[k] == b
      {
        WordFits(i);
        var chunk := lineBuf[i..i + wordSize];
        RepeatedLittleEndian(chunk, b);
        RepeatedBigEndian(chunk, b);
        if Word(chunk) != word {
          ghost var k :| 0 <= k < wordSize && chunk[k] != b;
          assert lineBuf[..][i + k] != b;
          return false;
        }
        forall k | i <= k < i + wordSize
          ensures lineBuf[k] == b
        {
          assert chunk[k - i] == b;
        }
        i := i + wordSize;
      }
      same := true;
    }

    predicate AtWord(i: nat) {
      if wordSize == 4 then i % 4 == 0 else i % 8 == 0
    }

    lemma WordFits(i: nat)
      requires Valid() && i < w && AtWord(i)
      ensures i + wordSize <= w && AtWord(i + wordSize)
    {
    }

    /** Reads until the line is full or the input ends. */
    method FillLine(buf: Reader) returns (n: nat)
      requires Valid() && buf.Valid() && lineLen == w
      modifies buf, lineBuf
      ensures buf.Valid() && n <= w && (n < w ==> buf.Rest() == [])
      ensures old(buf.Rest()) == lineBuf[..n] + buf.Rest()
    {
      n := buf.Read(lineBuf, 0, w);
      assert lineBuf[0..0 + n] == lineBuf[..n];
      if 0 < n < w {
        while true
          invariant 0 < n < w && buf.Valid() && old(buf.Rest()) == lineBuf[..n] + buf.Rest()
          decreases w - n
        {
          ghost var line, rest := lineBuf[..n], buf.Rest();
          var more := buf.Read(lineBuf, n, w);
          assert rest == lineBuf[n..n + more] + buf.Rest();
          assert lineBuf[..n + more] == line + lineBuf[n..n + more];
          assert line + (lineBuf[n..n + more] + buf.Rest()) == (line + lineBuf[n..n + more]) + buf.Rest();
          n := n + more;
          if more == 0 || n >= w {
            return;
          }
        }
      } else if n == 0 {
        assert [] + buf.Rest() == buf.Rest();
      }
    }

    /** Prints the line, or the star in place of it. */
    method PrintRow()
      requires Valid() && lineLen <= w
      modifies this`rows
      ensures rows == old(rows) +
        if squeezer == Print then [Star] else [Bytes(displayOffset + idx, lineBuf[..lineLen])]
    {
      rows := rows + if squeezer == Print then [Star] else [Bytes(displayOffset + idx, lineBuf[..lineLen])];
    }

    /** The squeezer is where it must be behind the first idx bytes of the input. */
    ghost predicate Tracks(input: seq<byte>, squeeze: bool)
      requires Valid()
      reads this
    {
      && idx <= |input| && (idx == 0 || w <= idx)
      && squeezer == ModeAt(input, w, squeeze, idx)
      && (squeezer == Print || squeezer == Delete ==> squeezeByte == input[idx - 1] * Ones(wordSize))
    }

    ghost predicate LineIs(input: seq<byte>, p: nat)
      requires Valid()
      reads this`lineLen, lineBuf
    {
      p + w <= |input| && lineLen == w && lineBuf[..] == input[p..p + w]
    }

    /** If squeezing is active: whether the line is the same again; if not, squeezing ends. */
    method CheckSqueeze(ghost input: seq<byte>, ghost squeeze: bool) returns (same: bool)
      requires Valid() && Tracks(input, squeeze) && LineIs(input, idx)
      modifies this`squeezer
      ensures same == Squeezed(input, w, squeeze, idx)
      ensures squeezer == if old(squeezer) == Disabled || same then old(squeezer) else Ignore
    {
      hide Squeezed, Ones;
      ModeMeans(input, w, squeeze, idx);
      same := false;
      if squeezer == Print || squeezer == Delete {
        same := SameWords(squeezeByte, input[idx - 1]);
        SameIsSqueezed(input, squeeze, idx);
        if !same {
          squeezer := Ignore;
        }
      }
    }

    /** A line that has been printed and is uniform activates squeezing. */
    method StartSqueeze(ghost input: seq<byte>, ghost squeeze: bool)
      requires Valid() && w <= idx && LineIs(input, idx - w)
      requires squeezer ==
        if !squeeze then Disabled else if Squeezed(input, w, squeeze, idx - w) then Delete else Ignore
      requires squeezer == Delete ==> squeezeByte == input[idx - 1] * Ones(wordSize)
      modifies this`squeezer, this`squeezeByte
      ensures Tracks(input, squeeze)
    {
      hide Squeezed, UniformOn, Ones, MaxWord;
      MaxWordOver255(wordSize);
      var repeatByte := lineBuf[0] * (MaxWord(wordSize) / 255);
      if squeezer != Disabled && squeezer != Delete {
        var same := SameWords(repeatByte, lineBuf[0]);
        LineIsUniform(input, idx - w);
        if same {
          squeezer := Print;
          squeezeByte := repeatByte;
        }
      }
    }

    /** Deals with a whole line: prints it, prints a star, or passes it by. */
    method PrintLine(ghost input: seq<byte>, ghost squeeze: bool)
      requires Valid() && Tracks(input, squeeze) && LineIs(input, idx)
      modifies this`squeezer, this`squeezeByte, this`idx, this`rows
      ensures Tracks(input, squeeze) && idx == old(idx) + w
      ensures rows == old(rows) + RowAt(input, w, squeeze, displayOffset, old(idx))
    {
      hide Squeezed, UniformOn, Ones;
      ModeMeans(input, w, squeeze, idx);
      SqueezedSame(input, w, squeeze, idx);
      var same := CheckSqueeze(input, squeeze);
      if same && squeezer == Delete {
        idx := idx + w;
        assert rows + [] == rows;
        return;
      }
      assert lineBuf[..w] == lineBuf[..];
      PrintRow();
      idx := idx + w;
      if squeezer == Print {
        squeezer := Delete;
      }
      StartSqueeze(input, squeeze);
    }

    lemma LineRead(input: seq<byte>, rest: seq<byte>)
      requires Valid() && lineLen == w && idx <= |input| && input[idx..] == lineBuf[..w] + rest
      ensures LineIs(input, idx)
    {
      assert lineBuf[..w] == lineBuf[..];
      assert input[idx..][..w] == input[idx..idx + w];
    }

    lemma SameIsSqueezed(input: seq<byte>, squeeze: bool, p: nat)
      requires Valid() && squeeze && w <= p && p + w <= |input| && lineBuf[..] == input[p..p + w]
      requires UniformOn(input, p - w, p)
      ensures AllAre(lineBuf[..], input[p - 1]) <==> Squeezed(input, w, squeeze, p)
    {
    }

    lemma LineIsUniform(input: seq<byte>, p: nat)
      requires Valid() && p + w <= |input| && lineBuf[..] == input[p..p + w]
      ensures AllAre(lineBuf[..], lineBuf[0]) <==> UniformOn(input, p, p + w)
      ensures lineBuf[0] == input[p] && lineBuf[w - 1] == input[p + w - 1]
    {
    }

    /** The last line, if there is anything left to show. */
    method PrintEnding(isEmpty: bool, leftover: Option<nat>, ghost input: seq<byte>, ghost squeeze: bool)
      requires Valid() && Tracks(input, squeeze) && |input| < idx + w && lineLen <= w
      requires isEmpty <==> input == []
      requires leftover.Some? <==> idx < |input| || squeezer == Delete
      requires leftover.Some? ==> lineBuf[..lineLen] == input[idx..]
      modifies this`squeezer, this`rows
      ensures rows == old(rows) +
        if input == [] then [NoContent] else Ending(input, w, squeeze, displayOffset, idx)
    {
      hide Squeezed, UniformOn, Ones;
      if w <= idx {
        NeverSqueezed(input, w, squeeze, idx - w);
      }
      assert rows + [] == rows;
      if isEmpty {
        rows := rows + [NoContent];
      } else if leftover.Some? {
        squeezer := Ignore;
        PrintRow();
      }
    }

    /** The next line of the input; fewer than w bytes are the last. */
    method ReadLine(buf: Reader, ghost input: seq<byte>) returns (n: nat)
      requires Valid() && buf.Valid() && lineLen == w && idx <= |input| && buf.Rest() == input[idx..]
      modifies buf, lineBuf
      ensures buf.Valid() && n <= w && idx + n <= |input| && buf.Rest() == input[idx + n..]
      ensures n < w ==> idx + n == |input| && lineBuf[..n] == input[idx..]
      ensures n == w ==> LineIs(input, idx)
    {
      n := FillLine(buf);
      SplitAt(input, idx, lineBuf[..n], buf.Rest());
      if n < w {
        assert lineBuf[..n] + [] == lineBuf[..n];
      } else {
        LineRead(input, buf.Rest());
      }
    }

    /** Every whole line; then the rest of the input, if anything of it is to be shown. */
    method PrintLines(buf: Reader, ghost input: seq<byte>, ghost squeeze: bool)
      returns (isEmpty: bool, leftover: Option<nat>)
      requires Valid() && buf.Valid() && idx == 0 && rows == [] && lineLen == w
      requires Tracks(input, squeeze) && input == buf.Rest()
      modifies this, buf, lineBuf
      ensures Tracks(input, squeeze) && |input| < idx + w && lineLen <= w
      ensures rows + Ending(input, w, squeeze, displayOffset, idx) == RowsFrom(input, w, squeeze, displayOffset, 0)
      ensures isEmpty <==> input == []
      ensures leftover.Some? <==> idx < |input| || squeezer == Delete
      ensures leftover.Some? ==> lineBuf[..lineLen] == input[idx..]
    {
      hide RowsFrom, RowAt, Squeezed, UniformOn, Ones, ModeAt, Ending;
      isEmpty, leftover := true, None;
      ghost var all := RowsFrom(input, w, squeeze, displayOffset, 0);
      assert input[0..] == input && rows + all == all;
      while true
        invariant buf.Valid() && Tracks(input, squeeze) && lineLen == w && buf.Rest() == input[idx..]
        invariant rows + RowsFrom(input, w, squeeze, displayOffset, idx) == all
        invariant isEmpty <==> idx == 0
        decreases |input| - idx
      {
        var n := ReadLine(buf, input);
        if n < w {
          RowsEnd(input, w, squeeze, displayOffset, idx);
        }
        if 0 < n < w {
          lineLen := n;
          return false, Some(n);
        } else if n == 0 {
          if squeezer == Delete {
            lineLen := 0;
            return isEmpty, Some(0);
          }
          return isEmpty, None;
        }
        RowsStep(rows, input, w, squeeze, displayOffset, idx);
        PrintLine(input, squeeze);
        isEmpty := false;
      }
    }

    /** The whole dump, however the input is cut into reads. */
    method PrintAll(buf: Reader)
      requires Valid() && buf.Valid() && idx == 0 && rows == [] && lineLen == w
      requires squeezer == Ignore || squeezer == Disabled
      modifies this, buf, lineBuf
      ensures rows == Rows(old(buf.Rest()), w, old(squeezer) == Ignore, displayOffset)
    {
      hide RowAt, Squeezed, UniformOn, Ones;
      ghost var input, squeeze := buf.Rest(), squeezer == Ignore;
      var isEmpty, leftover := PrintLines(buf, input, squeeze);
      PrintEnding(isEmpty, leftover, input, squeeze);
    }
  }
}
