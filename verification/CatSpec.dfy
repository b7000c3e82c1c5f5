/** What `cat` writes: a byte transducer, and the same output described line by line. */
module CatSpec {
  import opened Streams
  import opened CatCounter
  import Decimal

  const NL: byte := 10
  const CR: byte := 13
  const CARET: byte := 94
  const DOLLAR: byte := 36

  datatype Options = Options(
    showNonprinting: bool, showTabs: bool, number: bool, numberNonblank: bool, showEnds: bool, squeezeBlank: bool)

  /** The state between bytes: newlines is -1 within a line, and at the start of a line the number of blank
      lines before it, up to 2; count is the number of lines numbered so far. */
  datatype State = State(newlines: int, pendingCr: bool, count: nat)

  const START: State := State(0, false, 0)

  /** The display of a byte other than a newline. */
  function Quote(o: Options, c: byte): (q: seq<byte>)
    ensures 1 <= |q| <= 4
  {
    if o.showNonprinting then
      if c >= 32 then
        if c < 127 then [c]
        else if c == 127 then [CARET, 63]
        else if c >= 160 then
          if c < 255 then [77, 45, c - 128] else [77, 45, CARET, 63]
        else [77, 45, CARET, c - 128 + 64]
      else if c == TAB && !o.showTabs then [c]
      else [CARET, (c + 64) % 256]
    else if c == TAB && o.showTabs then [CARET, c + 64]
    else [c]
  }

  /** With -v everything but a tab is displayed by printable characters, and a byte from 128 on as M- and what
      the byte 128 lower is displayed as. */
  lemma DisplayIsPrintable(o: Options, c: byte)
    requires o.showNonprinting
    ensures if c == TAB && !o.showTabs then Quote(o, c) == [TAB]
      else forall k :: 0 <= k < |Quote(o, c)| ==> 32 <= Quote(o, c)[k] < 127
    ensures c >= 128 ==> Quote(o, c) == [77, 45] + Quote(o.(showTabs := true), c - 128)
  {
  }

  /** Whether a carriage return waits for the next byte before it is displayed. */
  predicate Waits(o: Options, c: byte) {
    c == CR && o.showEnds && !o.showNonprinting
  }

  /** The number written at a newline: only blank lines are numbered there. */
  function BlankLabel(o: Options, newlines: int, count: nat): seq<byte> {
    if newlines > 0 && o.number && !o.numberNonblank then Label(count + 1) else []
  }

  function BlankCount(o: Options, newlines: int, count: nat): nat {
    if newlines > 0 && o.number && !o.numberNonblank then count + 1 else count
  }

  function EndMark(o: Options, pendingCr: bool): seq<byte> {
    if o.showEnds then (if pendingCr then [CARET, 77] else []) + [DOLLAR] else []
  }

  /** A newline, given how many newlines there are now in a row. */
  function NewlineStep(o: Options, st: State): (State, seq<byte>) {
    var n := st.newlines + 1;
    if n >= 2 && o.squeezeBlank then (st.(newlines := 2), [])
    else
      (State(if n >= 2 then 2 else n, st.pendingCr && !o.showEnds, BlankCount(o, n, st.count)),
       BlankLabel(o, n, st.count) + EndMark(o, st.pendingCr) + [NL])
  }

  /** What is written before the first byte of a line, and before a byte after a waiting carriage return. */
  function Prefix(o: Options, st: State): seq<byte> {
    (if st.pendingCr then [CR] else []) + (if st.newlines >= 0 && o.number then Label(st.count + 1) else [])
  }

  function InLine(o: Options, st: State): State {
    State(-1, false, if st.newlines >= 0 && o.number then st.count + 1 else st.count)
  }

  function Step(o: Options, st: State, c: byte): (State, seq<byte>) {
    if c == NL then NewlineStep(o, st)
    else if Waits(o, c) then (InLine(o, st).(pendingCr := true), Prefix(o, st))
    else (InLine(o, st), Prefix(o, st) + Quote(o, c))
  }

  /** The transducer on input[p..]. */
  function RunFrom(o: Options, st: State, input: seq<byte>, p: nat): (State, seq<byte>)
    requires p <= |input|
    decreases |input| - p
  {
    if p == |input| then (st, [])
    else
      var (st1, out1) := Step(o, st, input[p]);
      var (st2, out2) := RunFrom(o, st1, input, p + 1);
      (st2, out1 + out2)
  }

  function Run(o: Options, st: State, input: seq<byte>): (State, seq<byte>) {
    RunFrom(o, st, input, 0)
  }

  /** A carriage return still waiting at the very end is written as it is. */
  function Final(r: (State, seq<byte>)): seq<byte> {
    r.1 + (if r.0.pendingCr then [CR] else [])
  }

  /** Output so far, followed by what a run adds. */
  function Then(out: seq<byte>, r: (State, seq<byte>)): (State, seq<byte>) {
    (r.0, out + r.1)
  }

  lemma ThenThen(a: seq<byte>, b: seq<byte>, r: (State, seq<byte>))
    ensures Then(a, Then(b, r)) == Then(a + b, r)
  {
    assert a + (b + r.1) == (a + b) + r.1;
  }

  // ----- runs of concatenated inputs -----

  lemma {:induction false} RunShift(o: Options, st: State, a: seq<byte>, b: seq<byte>, j: nat)
    requires j <= |b|
    ensures RunFrom(o, st, a + b, |a| + j) == RunFrom(o, st, b, j)
    decreases |b| - j
  {
    hide Step;
    if j < |b| {
      assert (a + b)[|a| + j] == b[j];
      RunShift(o, Step(o, st, b[j]).0, a, b, j + 1);
    }
  }

  lemma {:induction false} RunAppendFrom(o: Options, st: State, a: seq<byte>, b: seq<byte>, p: nat)
    requires p <= |a|
    ensures var (st1, out1) := RunFrom(o, st, a, p);
      RunFrom(o, st, a + b, p) == Then(out1, Run(o, st1, b))
    decreases |a| - p
  {
    hide Step;
    if p == |a| {
      RunShift(o, st, a, b, 0);
      assert [] + Run(o, st, b).1 == Run(o, st, b).1;
    } else {
      assert (a + b)[p] == a[p];
      var (st1, out1) := Step(o, st, a[p]);
      RunAppendFrom(o, st1, a, b, p + 1);
      var (st2, out2) := RunFrom(o, st1, a, p + 1);
      ThenThen(out1, out2, Run(o, st2, b));
    }
  }

  /** Running on one input and then on another is running on both together. */
  lemma RunAppend(o: Options, st: State, a: seq<byte>, b: seq<byte>)
    ensures var (st1, out1) := Run(o, st, a);
      Run(o, st, a + b) == Then(out1, Run(o, st1, b))
  {
    RunAppendFrom(o, st, a, b, 0);
  }

  // ----- what -v is for -----

  /** A printable character, a newline, or a tab that is wanted or stands behind a number. */
  predicate Visible(o: Options, c: byte) {
    32 <= c < 127 || c == NL || (c == TAB && (!o.showTabs || o.number))
  }

  predicate AllVisible(o: Options, s: seq<byte>) {
    forall k :: 0 <= k < |s| ==> Visible(o, s[k])
  }

  lemma LabelIsVisible(o: Options, n: nat)
    ensures o.number ==> AllVisible(o, Label(n))
  {
    var ds := Decimal.Digits(n);
    if |ds| > 18 {
      FixedDigits(17, n);
    }
    assert forall k :: 0 <= k < |Field(n)| ==> 48 <= Field(n)[k] < 58 || Field(n)[k] == OVERFLOW;
  }

  lemma StepIsVisible(o: Options, st: State, c: byte)
    requires o.showNonprinting && !st.pendingCr
    ensures AllVisible(o, Step(o, st, c).1) && !Step(o, st, c).0.pendingCr
  {
    hide Quote, Label;
    DisplayIsPrintable(o, c);
    LabelIsVisible(o, st.count + 1);
  }

  /** With -v nothing but printable characters, newlines and wanted tabs is written, whatever the input. */
  lemma {:induction false} RunIsVisible(o: Options, st: State, input: seq<byte>, p: nat)
    requires o.showNonprinting && !st.pendingCr && p <= |input|
    ensures AllVisible(o, RunFrom(o, st, input, p).1) && !RunFrom(o, st, input, p).0.pendingCr
    decreases |input| - p
  {
    hide Step;
    if p < |input| {
      StepIsVisible(o, st, input[p]);
      RunIsVisible(o, Step(o, st, input[p]).0, input, p + 1);
    }
  }

  // ----- the same, line by line -----

  /** The end of the line that starts at p: its newline, or the end of input. */
  function LineEnd(input: seq<byte>, p: nat): (e: nat)
    requires p <= |input|
    ensures p <= e <= |input| && (e < |input| ==> input[e] == NL)
    ensures forall k :: p <= k < e ==> input[k] != NL
    decreases |input| - p
  {
    if p == |input| || input[p] == NL then p else LineEnd(input, p + 1)
  }

  /** The display of the text between p and e: a carriage return just before the newline is shown as ^M if
      ends are shown. */
  function Text(o: Options, input: seq<byte>, p: nat, e: nat): seq<byte>
    requires p <= e <= |input|
    decreases e - p
  {
    if p == e then []
    else if Waits(o, input[p]) && p + 1 == e < |input| then [CARET, 77]
    else Quote(o, input[p]) + Text(o, input, p + 1, e)
  }

  /** The output from the start of a line on.  `blanks` tells how many blank lines precede it, `count` how
      many lines have been numbered. */
  function Lines(o: Options, blanks: nat, count: nat, input: seq<byte>, p: nat): seq<byte>
    requires p <= |input|
    decreases |input| - p
  {
    var e := LineEnd(input, p);
    var mark := if o.showEnds then [DOLLAR] else [];
    if p == |input| then []
    else if e == p then  // a blank line
      if blanks >= 1 && o.squeezeBlank then Lines(o, blanks + 1, count, input, p + 1)
      else if o.number && !o.numberNonblank then
        Label(count + 1) + mark + [NL] + Lines(o, blanks + 1, count + 1, input, p + 1)
      else mark + [NL] + Lines(o, blanks + 1, count, input, p + 1)
    else
      var count' := if o.number then count + 1 else count;
      (if o.number then Label(count') else []) + Text(o, input, p, e) +
      (if e == |input| then [] else mark + [NL] + Lines(o, 0, count', input, e + 1))
  }

  function Newlines(blanks: nat): int {
    if blanks >= 2 then 2 else blanks
  }

  function Rest(o: Options, count: nat, input: seq<byte>, e: nat): seq<byte>
    requires e <= |input|
  {
    if e == |input| then []
    else (if o.showEnds then [DOLLAR] else []) + [NL] + Lines(o, 0, count, input, e + 1)
  }

  /** Within a line the transducer displays the rest of its text and goes on with the lines after it. */
  lemma {:induction false} RunText(o: Options, count: nat, input: seq<byte>, p: nat, e: nat)
    requires p <= e <= |input| && e == LineEnd(input, p)
    ensures Final(RunFrom(o, State(-1, false, count), input, p))
         == Text(o, input, p, e) + Rest(o, count, input, e)
    decreases |input| - p, 1
  {
    hide Quote, Lines, Label, NewlineStep;
    var st := State(-1, false, count);
    if p == |input| {
      assert RunFrom(o, st, input, p) == (st, []);
    } else if p == e {
      RunLines(o, 0, count, input, p + 1);
      NewlineInText(o, count, false);
      var tail := RunFrom(o, State(0, false, count), input, p + 1);
      FinalAfter(EndMark(o, false) + [NL], tail);
      assert [] + Rest(o, count, input, e) == Rest(o, count, input, e);
    } else if Waits(o, input[p]) {
      RunWaiting(o, count, input, p, e);
    } else {
      RunText(o, count, input, p + 1, e);
      var q, tail := Quote(o, input[p]), RunFrom(o, st, input, p + 1);
      assert Prefix(o, st) + q == q;
      FinalAfter(q, tail);
      assert q + (Text(o, input, p + 1, e) + Rest(o, count, input, e))
          == (q + Text(o, input, p + 1, e)) + Rest(o, count, input, e);
    }
  }

  lemma FinalAfter(out: seq<byte>, r: (State, seq<byte>))
    ensures Final(Then(out, r)) == out + Final(r)
  {
  }

  lemma NewlineInText(o: Options, count: nat, pendingCr: bool)
    requires pendingCr ==> o.showEnds
    ensures NewlineStep(o, State(-1, pendingCr, count))
         == (State(0, false, count), EndMark(o, pendingCr) + [NL])
  {
    assert [] + EndMark(o, pendingCr) == EndMark(o, pendingCr);
  }

  /** A carriage return that waits: displayed as ^M before a newline, as itself otherwise. */
  lemma {:induction false} RunWaiting(o: Options, count: nat, input: seq<byte>, p: nat, e: nat)
    requires p < e <= |input| && e == LineEnd(input, p) && Waits(o, input[p])
    ensures Final(RunFrom(o, State(-1, false, count), input, p))
         == Text(o, input, p, e) + Rest(o, count, input, e)
    decreases |input| - p, 0
  {
    hide Lines, Label, Step, RunFrom, Rest, Text;
    WaitStep(o, count, input, p);
    TextUnfold(o, input, p, e);
    if p + 1 == |input| {
      RunNothing(o, State(-1, true, count), input);
      RestUnfold(o, count, input, e);
    } else if p + 1 == e {
      RunLines(o, 0, count, input, p + 2);
      WaitNewline(o, count, input, p + 1);
      FinalAfter([CARET, 77, DOLLAR, NL], RunFrom(o, State(0, false, count), input, p + 2));
      RestUnfold(o, count, input, e);
      assert [CARET, 77, DOLLAR, NL] + Lines(o, 0, count, input, p + 2)
          == [CARET, 77] + ([DOLLAR] + [NL] + Lines(o, 0, count, input, p + 2));
    } else {
      RunText(o, count, input, p + 1, e);
      WaitingEnds(o, count, input, p + 1);
      FinalAfter([CR], RunFrom(o, State(-1, false, count), input, p + 1));
      assert [CR] + (Text(o, input, p + 1, e) + Rest(o, count, input, e))
          == ([CR] + Text(o, input, p + 1, e)) + Rest(o, count, input, e);
    }
  }

  lemma TextUnfold(o: Options, input: seq<byte>, p: nat, e: nat)
    requires p < e <= |input| && Waits(o, input[p])
    ensures Text(o, input, p, e) == if p + 1 == e < |input| then [CARET, 77] else [CR] + Text(o, input, p + 1, e)
    ensures Text(o, input, e, e) == []
  {
  }

  lemma RestUnfold(o: Options, count: nat, input: seq<byte>, e: nat)
    requires e <= |input|
    ensures Rest(o, count, input, e) ==
      if e == |input| then []
      else (if o.showEnds then [DOLLAR] else []) + [NL] + Lines(o, 0, count, input, e + 1)
  {
  }

  lemma WaitStep(o: Options, count: nat, input: seq<byte>, p: nat)
    requires p < |input| && Waits(o, input[p])
    ensures RunFrom(o, State(-1, false, count), input, p) == RunFrom(o, State(-1, true, count), input, p + 1)
  {
    var r := RunFrom(o, State(-1, true, count), input, p + 1);
    assert Step(o, State(-1, false, count), input[p]) == (State(-1, true, count), [] + []);
    assert ([] + []) + r.1 == r.1;
  }

  lemma WaitNewline(o: Options, count: nat, input: seq<byte>, p: nat)
    requires p < |input| && input[p] == NL && o.showEnds
    ensures RunFrom(o, State(-1, true, count), input, p)
         == Then([CARET, 77, DOLLAR, NL], RunFrom(o, State(0, false, count), input, p + 1))
  {
    NewlineInText(o, count, true);
    assert EndMark(o, true) + [NL] == [CARET, 77, DOLLAR, NL];
  }

  /** Before a byte that is no newline a waiting carriage return is written. */
  lemma WaitingEnds(o: Options, count: nat, input: seq<byte>, p: nat)
    requires p < |input| && input[p] != NL
    ensures RunFrom(o, State(-1, true, count), input, p)
         == Then([CR], RunFrom(o, State(-1, false, count), input, p))
  {
    hide Quote;
    var (st1, out1) := Step(o, State(-1, true, count), input[p]);
    var (st2, out2) := Step(o, State(-1, false, count), input[p]);
    assert st1 == st2 && out1 == [CR] + out2;
    var (st3, out3) := RunFrom(o, st1, input, p + 1);
    assert ([CR] + out2) + out3 == [CR] + (out2 + out3);
  }

  /** From the start of a line the transducer writes the lines. */
  lemma {:induction false} RunLines(o: Options, blanks: nat, count: nat, input: seq<byte>, p: nat)
    requires p <= |input|
    ensures Final(RunFrom(o, State(Newlines(blanks), false, count), input, p)) == Lines(o, blanks, count, input, p)
    decreases |input| - p, 2
  {
    hide Label, Quote, Step, Text, RunFrom, Lines, Rest, LineEnd;
    LinesUnfold(o, blanks, count, input, p);
    if p == |input| {
      RunNothing(o, State(Newlines(blanks), false, count), input);
    } else if LineEnd(input, p) == p {
      var count' := BlankTotal(o, blanks, count);
      BlankLine(o, blanks, count, input, p);
      RunLines(o, blanks + 1, count', input, p + 1);
      var tail := RunFrom(o, State(Newlines(blanks + 1), false, count'), input, p + 1);
      FinalAfter(BlankText(o, blanks, count), tail);
    } else {
      var e := LineEnd(input, p);
      LineStart(o, blanks, count, input, p);
      var count' := if o.number then count + 1 else count;
      RunText(o, count', input, p, e);
      var before := if o.number then Label(count') else [];
      FinalAfter(before, RunFrom(o, State(-1, false, count'), input, p));
      assert before + (Text(o, input, p, e) + Rest(o, count', input, e))
          == before + Text(o, input, p, e) + Rest(o, count', input, e);
    }
  }

  lemma LinesUnfold(o: Options, blanks: nat, count: nat, input: seq<byte>, p: nat)
    requires p <= |input|
    ensures var e := LineEnd(input, p);
      Lines(o, blanks, count, input, p) ==
        if p == |input| then []
        else if e == p then
          BlankText(o, blanks, count) + Lines(o, blanks + 1, BlankTotal(o, blanks, count), input, p + 1)
        else
          var count' := if o.number then count + 1 else count;
          (if o.number then Label(count') else []) + Text(o, input, p, e) + Rest(o, count', input, e)
  {
  }

  lemma RunNothing(o: Options, st: State, input: seq<byte>)
    ensures RunFrom(o, st, input, |input|) == (st, [])
  {
  }

  function BlankTotal(o: Options, blanks: nat, count: nat): nat {
    if o.number && !o.numberNonblank && !(blanks >= 1 && o.squeezeBlank) then count + 1 else count
  }

  /** What is written for a blank line. */
  function BlankText(o: Options, blanks: nat, count: nat): seq<byte> {
    if blanks >= 1 && o.squeezeBlank then []
    else if o.number && !o.numberNonblank then Label(count + 1) + (if o.showEnds then [DOLLAR] else []) + [NL]
    else (if o.showEnds then [DOLLAR] else []) + [NL]
  }

  lemma BlankLine(o: Options, blanks: nat, count: nat, input: seq<byte>, p: nat)
    requires p < |input| && input[p] == NL
    ensures RunFrom(o, State(Newlines(blanks), false, count), input, p)
         == Then(BlankText(o, blanks, count),
                 RunFrom(o, State(Newlines(blanks + 1), false, BlankTotal(o, blanks, count)), input, p + 1))
  {
    hide Label;
    var mark := if o.showEnds then [DOLLAR] else [];
    assert [] + mark == mark;
  }

  /** The first byte of a line is preceded by its number. */
  lemma LineStart(o: Options, blanks: nat, count: nat, input: seq<byte>, p: nat)
    requires p < |input| && input[p] != NL
    ensures var count' := if o.number then count + 1 else count;
      RunFrom(o, State(Newlines(blanks), false, count), input, p)
      == Then(if o.number then Label(count') else [], RunFrom(o, State(-1, false, count'), input, p))
  {
    hide Quote, Label;
    var st, st' := State(Newlines(blanks), false, count), InLine(o, State(Newlines(blanks), false, count));
    var before := Prefix(o, st);
    var (st1, out1) := Step(o, st, input[p]);
    var (st2, out2) := Step(o, st', input[p]);
    assert st1 == st2 && out1 == before + out2;
    var out3 := RunFrom(o, st1, input, p + 1).1;
    assert (before + out2) + out3 == before + (out2 + out3);
    assert before == if o.number then Label(st'.count) else [];
  }

  /** The transducer on a whole input writes its lines. */
  lemma TransducerIsLines(o: Options, input: seq<byte>)
    ensures Final(Run(o, START, input)) == Lines(o, 0, 0, input, 0)
  {
    RunLines(o, 0, 0, input, 0);
  }
}
