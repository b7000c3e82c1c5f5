/** What `cat` writes, said byte by byte: for each byte of the input, from the bytes beside it alone, what it adds
    to the output. */
module CatLaws {
  import opened Streams
  import opened Decimal
  import opened CatCounter
  import opened CatSpec

  // ----- the notation of -v -----

  predicate Printable(q: seq<byte>) {
    forall k :: 0 <= k < |q| ==> ' ' <= q[k] as char <= '~'
  }

  /** The byte that a display stands for: M- adds 128, ^? is 127, and ^ and x is the byte 64 lower than x. */
  function Shows(q: seq<byte>): int
    requires q != []
  {
    if |q| > 2 && q[0] as char == 'M' && q[1] as char == '-' then 128 + Shows(q[2..])
    else if |q| == 2 && q[0] as char == '^' then if q[1] as char == '?' then 127 else q[1] as int - 64
    else q[0]
  }

  /** With -v a display is printable, is read back as its byte, and is the byte itself where that is printable;
      only a tab may stay as it is.  Without -v only a tab may change, into the same display. */
  lemma DisplayIsReadBack(o: Options, c: byte)
    ensures o.showNonprinting ==> Shows(Quote(o, c)) == c
    ensures o.showNonprinting && (c as char != '\t' || o.showTabs) ==> Printable(Quote(o, c))
    ensures ' ' <= c as char <= '~' || (c as char == '\t' && !o.showTabs) ==> Quote(o, c) == [c]
    ensures !o.showNonprinting && c as char != '\t' ==> Quote(o, c) == [c]
    ensures c as char == '\t' && o.showTabs ==> Quote(o, c) == Ascii("^I")
  {
    var low: byte := if c < 128 then c else c - 128;
    var o' := o.(showNonprinting := true, showTabs := true);
    assert Shows(Quote(o', low)) == low;
    assert c >= 128 && o.showNonprinting ==> Quote(o, c)[2..] == Quote(o', low);
    assert Ascii("^I") == [94, 73];
  }

  // ----- line numbers -----

  /** The digits of a number are characters from 0 to 9. */
  lemma {:induction false} DigitsInCharacters(n: nat)
    ensures forall k :: 0 <= k < |Digits(n)| ==> '0' <= Digits(n)[k] as char <= '9'
    ensures n < 10 ==> Digits(n) == [('0' as int + n) as byte]
  {
    assert forall k :: 0 <= k < |Digits(n)| ==> IsDigitIn(Digits(n)[k], 10);
  }

  /** A number that 18 digits suffice for is written in at least six columns, to the right, spaces before its
      digits, and followed by a tab. */
  lemma LabelLayout(n: nat)
    requires n < Pow10(18)
    ensures var text, width := Label(n), if |Digits(n)| < 6 then 6 else |Digits(n)|;
      && |text| == width + 1 && text[width] as char == '\t' && text[width - |Digits(n)|..width] == Digits(n)
      && forall k :: 0 <= k < width - |Digits(n)| ==> text[k] as char == ' '
  {
    LabelMeaning(n);
  }

  /** From 10^18 on the last 17 digits are written behind a `>`. */
  lemma LabelOverflows(n: nat)
    requires n >= Pow10(18)
    ensures |Digits(n)| > 18 && Label(n) == Ascii(">") + Digits(n)[|Digits(n)| - 17..] + Ascii("\t")
  {
    DigitsLength(n, 18);
    FixedIsSuffix(17, n);
  }

  // ----- the output, byte by byte -----

  /** A line begins at p. */
  predicate Begins(input: seq<byte>, p: nat)
    requires p <= |input|
  {
    p == 0 || input[p - 1] as char == '\n'
  }

  /** The line at p is blank. */
  predicate Blank(input: seq<byte>, p: nat)
    requires p < |input|
  {
    Begins(input, p) && input[p] as char == '\n'
  }

  /** A blank line behind a blank line, to be squeezed. */
  predicate Dropped(o: Options, input: seq<byte>, p: nat)
    requires p < |input|
  {
    o.squeezeBlank && p > 0 && Blank(input, p) && Blank(input, p - 1)
  }

  /** A line that gets a number begins at p. */
  predicate Numbered(o: Options, input: seq<byte>, p: nat)
    requires p < |input|
  {
    o.number && Begins(input, p) && !Dropped(o, input, p) && !(o.numberNonblank && Blank(input, p))
  }

  /** How many lines before p get a number. */
  function NumberedBefore(o: Options, input: seq<byte>, p: nat): nat
    requires p <= |input|
  {
    if p == 0 then 0 else NumberedBefore(o, input, p - 1) + if Numbered(o, input, p - 1) then 1 else 0
  }

  /** A carriage return that is displayed with the end of its line. */
  predicate EndsLine(o: Options, input: seq<byte>, p: nat)
    requires p < |input|
  {
    o.showEnds && input[p] as char == '\r' && p + 1 < |input| && input[p + 1] as char == '\n'
  }

  /** How the byte at p is displayed. */
  function Shown(o: Options, input: seq<byte>, p: nat): seq<byte>
    requires p < |input|
  {
    if Dropped(o, input, p) then []
    else if input[p] as char == '\n' then if o.showEnds then Ascii("$\n") else Ascii("\n")
    else if EndsLine(o, input, p) then Ascii("^M")
    else Quote(o, input[p])
  }

  /** The number written at p. */
  function LabelAt(o: Options, input: seq<byte>, p: nat): seq<byte>
    requires p < |input|
  {
    if Numbered(o, input, p) then Label(NumberedBefore(o, input, p) + 1) else []
  }

  /** What the byte at p adds to the output. */
  function Piece(o: Options, input: seq<byte>, p: nat): seq<byte>
    requires p < |input|
  {
    LabelAt(o, input, p) + Shown(o, input, p)
  }

  function Pieces(o: Options, input: seq<byte>, p: nat): seq<byte>
    requires p <= |input|
    decreases |input| - p
  {
    if p == |input| then [] else Piece(o, input, p) + Pieces(o, input, p + 1)
  }

  /** The number of blank lines just before p, up to 2; -1 within a line. */
  function BlanksBefore(input: seq<byte>, p: nat): int
    requires p <= |input|
  {
    if !Begins(input, p) then -1
    else if p == 0 || !Begins(input, p - 1) then 0
    else if BlanksBefore(input, p - 1) >= 1 then 2
    else 1
  }

  predicate Pending(o: Options, input: seq<byte>, p: nat)
    requires p <= |input|
  {
    p > 0 && Waits(o, input[p - 1])
  }

  function StateAt(o: Options, input: seq<byte>, p: nat): State
    requires p <= |input|
  {
    State(BlanksBefore(input, p), Pending(o, input, p), NumberedBefore(o, input, p))
  }

  /** The display of a carriage return that has been read and not yet written. */
  function Late(o: Options, input: seq<byte>, p: nat): seq<byte>
    requires p <= |input|
  {
    if Pending(o, input, p) then Shown(o, input, p - 1) else []
  }

  lemma StepAt(o: Options, input: seq<byte>, p: nat)
    requires p < |input|
    ensures Step(o, StateAt(o, input, p), input[p]).0 == StateAt(o, input, p + 1)
  {
    hide Label, Quote;
  }

  lemma BlanksBeforeMeans(input: seq<byte>, p: nat)
    requires p <= |input|
    ensures BlanksBefore(input, p) >= 0 <==> Begins(input, p)
    ensures BlanksBefore(input, p) >= 1 <==> p > 0 && Blank(input, p - 1)
  {
  }

  lemma Inscriptions()
    ensures Ascii("$\n") == [DOLLAR, NL] && Ascii("\n") == [NL] && Ascii("^M") == [CARET, 77]
  {
  }

  lemma NewlineWrites(o: Options, input: seq<byte>, p: nat)
    requires p < |input| && input[p] == NL
    ensures Step(o, StateAt(o, input, p), input[p]).1 == Late(o, input, p) + Piece(o, input, p)
  {
    hide Label, NumberedBefore, BlanksBefore, Quote;
    Inscriptions();
    BlanksBeforeMeans(input, p);
    assert p > 0 && Blank(input, p - 1) ==> !Pending(o, input, p);
    assert Pending(o, input, p) ==> Late(o, input, p) == [CARET, 77] && !Begins(input, p);
  }

  lemma PrefixAt(o: Options, input: seq<byte>, p: nat)
    requires p < |input| && input[p] != NL
    ensures Prefix(o, StateAt(o, input, p)) == Late(o, input, p) + LabelAt(o, input, p)
  {
    hide Label, NumberedBefore, BlanksBefore, Quote;
    BlanksBeforeMeans(input, p);
    DisplayIsReadBack(o, CR);
    assert Numbered(o, input, p) <==> o.number && Begins(input, p);
    assert Pending(o, input, p) ==> Late(o, input, p) == [CR] && !Begins(input, p);
  }

  lemma ShownAtOnce(o: Options, input: seq<byte>, p: nat)
    requires p < |input| && input[p] != NL && !Waits(o, input[p])
    ensures Shown(o, input, p) == Quote(o, input[p])
  {
    Inscriptions();
  }

  lemma TextWrites(o: Options, input: seq<byte>, p: nat)
    requires p < |input| && input[p] != NL
    ensures Step(o, StateAt(o, input, p), input[p]).1
         == Late(o, input, p) + (LabelAt(o, input, p) + if Waits(o, input[p]) then [] else Shown(o, input, p))
  {
    hide Label, Prefix, LabelAt, Late, StateAt, Quote, Shown;
    PrefixAt(o, input, p);
    var before, at := Late(o, input, p), LabelAt(o, input, p);
    assert before + at == before + (at + []);
    assert (before + at) + Quote(o, input[p]) == before + (at + Quote(o, input[p]));
    if !Waits(o, input[p]) {
      ShownAtOnce(o, input, p);
    }
  }

  lemma StepWrites(o: Options, input: seq<byte>, p: nat)
    requires p < |input|
    ensures Step(o, StateAt(o, input, p), input[p]).1 + Late(o, input, p + 1)
         == Late(o, input, p) + Piece(o, input, p)
  {
    hide Step, StateAt, Shown, Label;
    if input[p] == NL {
      NewlineWrites(o, input, p);
      assert Late(o, input, p + 1) == [];
    } else {
      TextWrites(o, input, p);
    }
  }

  lemma {:induction false} RunFromAt(o: Options, input: seq<byte>, p: nat)
    requires p <= |input|
    ensures Final(RunFrom(o, StateAt(o, input, p), input, p)) == Late(o, input, p) + Pieces(o, input, p)
    decreases |input| - p
  {
    hide Step, Piece, StateAt;
    if p == |input| {
      assert RunFrom(o, StateAt(o, input, p), input, p) == (StateAt(o, input, p), []);
      AtEnd(o, input);
    } else {
      StepAt(o, input, p);
      StepWrites(o, input, p);
      RunFromAt(o, input, p + 1);
      var out := Step(o, StateAt(o, input, p), input[p]).1;
      FinalAfter(out, RunFrom(o, StateAt(o, input, p + 1), input, p + 1));
      assert out + (Late(o, input, p + 1) + Pieces(o, input, p + 1))
          == (out + Late(o, input, p + 1)) + Pieces(o, input, p + 1);
      assert (Late(o, input, p) + Piece(o, input, p)) + Pieces(o, input, p + 1)
          == Late(o, input, p) + (Piece(o, input, p) + Pieces(o, input, p + 1));
    }
  }

  lemma AtEnd(o: Options, input: seq<byte>)
    ensures Final((StateAt(o, input, |input|), [])) == Late(o, input, |input|) + []
  {
  }

  /** The output is what the bytes add one after the other: nothing for a blank line that is squeezed; otherwise
      the number where a numbered line begins, and then `$` and a newline for a newline if ends are shown, ^M for
      a carriage return at such an end, and the display of the byte for any other. */
  lemma OutputIsPieces(o: Options, input: seq<byte>)
    ensures Final(Run(o, START, input)) == Pieces(o, input, 0)
  {
    RunFromAt(o, input, 0);
    assert StateAt(o, input, 0) == START && [] + Pieces(o, input, 0) == Pieces(o, input, 0);
  }
}
