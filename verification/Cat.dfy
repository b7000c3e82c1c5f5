/** `cat` with formatting options: the sentinel-newline loop over an input and an output buffer. */
module Cat {
  import opened Streams
  import opened CatCounter
  import opened CatSpec
  import CatLaws
  import Decimal

  // ----- the buffers -----

  function Max(a: nat, b: nat): nat {
    if a < b then b else a
  }

  /** As high as the output buffer can be filled while lines are numbered up to `count`. */
  function PeakBound(insize: nat, outsize: nat, count: nat): nat {
    outsize + 4 * insize + 2 * |Label(count)| - 3
  }

  /** The buffer holds the stretch of the input from base on, and a sentinel newline behind it. */
  ghost predicate Loaded(inbuf: array<byte>, eob: nat, all: seq<byte>, base: nat)
    reads inbuf
  {
    && eob < inbuf.Length && base + eob <= |all|
    && (forall k :: 0 <= k < eob ==> inbuf[k] == all[base + k])
    && inbuf[eob] == NL
  }

  lemma BufferedByte(inbuf: array<byte>, eob: nat, all: seq<byte>, base: nat, k: nat)
    requires Loaded(inbuf, eob, all, base) && k < eob
    ensures base + k < |all| && inbuf[k] == all[base + k]
  {
  }

  // ----- steps of the transducer -----

  lemma NewlineTaken(o: Options, st: State, all: seq<byte>, p: nat)
    requires p < |all| && all[p] == NL
    ensures RunFrom(o, st, all, p) == Then(NewlineStep(o, st).1, RunFrom(o, NewlineStep(o, st).0, all, p + 1))
  {
  }

  lemma OutMoves(written: seq<byte>, out: seq<byte>, r: (State, seq<byte>), out': seq<byte>, r': (State, seq<byte>))
    requires Then(out, r) == Then(out', r')
    ensures Then(written + out, r) == Then(written + out', r')
  {
    ThenThen(written, out, r);
    ThenThen(written, out', r');
  }

  /** The first byte of a text is processed as one within a line, after its prefix. */
  lemma TextBegins(o: Options, st: State, all: seq<byte>, p: nat)
    requires p < |all| && all[p] != NL
    ensures RunFrom(o, st, all, p) == Then(Prefix(o, st), RunFrom(o, InLine(o, st), all, p))
  {
    hide Quote, Label;
    var (st1, out1) := Step(o, st, all[p]);
    var (st2, out2) := Step(o, InLine(o, st), all[p]);
    var before := Prefix(o, st);
    assert out1 == before + out2;
    var tail := RunFrom(o, st1, all, p + 1);
    ThenThen(before, out2, tail);
  }

  /** Within a line, the bytes from p to q are displayed as `added`. */
  ghost predicate Copied(o: Options, count: nat, all: seq<byte>, p: nat, q: nat, added: seq<byte>)
    requires p <= |all| && q <= |all|
  {
    RunFrom(o, State(-1, false, count), all, p) == Then(added, RunFrom(o, State(-1, false, count), all, q))
  }

  lemma CopyNone(o: Options, count: nat, all: seq<byte>, p: nat)
    requires p <= |all|
    ensures Copied(o, count, all, p, p, [])
  {
    var r := RunFrom(o, State(-1, false, count), all, p);
    assert [] + r.1 == r.1;
  }

  lemma CopyShown(o: Options, count: nat, all: seq<byte>, p: nat)
    requires p < |all| && all[p] != NL && !Waits(o, all[p])
    ensures RunFrom(o, State(-1, false, count), all, p)
         == Then(Quote(o, all[p]), RunFrom(o, State(-1, false, count), all, p + 1))
  {
    hide Quote;
    var q := Quote(o, all[p]);
    assert ([] + []) + q == q;
  }

  lemma CopyOne(o: Options, count: nat, all: seq<byte>, p: nat, q: nat, added: seq<byte>)
    requires p <= |all| && q < |all| && all[q] != NL && !Waits(o, all[q]) && Copied(o, count, all, p, q, added)
    ensures Copied(o, count, all, p, q + 1, added + Quote(o, all[q]))
  {
    hide Quote;
    CopyShown(o, count, all, q);
    ThenThen(added, Quote(o, all[q]), RunFrom(o, State(-1, false, count), all, q + 1));
  }

  /** A carriage return before a newline in the same buffer may be displayed before the newline is seen. */
  lemma EarlyCr(o: Options, count: nat, all: seq<byte>, p: nat)
    requires p + 1 < |all| && Waits(o, all[p]) && all[p + 1] == NL
    ensures RunFrom(o, State(-1, false, count), all, p)
         == Then([CARET, 77], RunFrom(o, State(-1, false, count), all, p + 1))
  {
    WaitStep(o, count, all, p);
    WaitNewline(o, count, all, p + 1);
    NewlineInText(o, count, false);
    var tail := RunFrom(o, State(0, false, count), all, p + 2);
    assert EndMark(o, false) + [NL] == [DOLLAR, NL];
    assert [CARET, 77, DOLLAR, NL] == [CARET, 77] + [DOLLAR, NL];
    ThenThen([CARET, 77], [DOLLAR, NL], tail);
  }

  /** A carriage return before any other byte of the buffer is copied. */
  lemma LoneCr(o: Options, count: nat, all: seq<byte>, p: nat)
    requires p + 1 < |all| && Waits(o, all[p]) && all[p + 1] != NL
    ensures RunFrom(o, State(-1, false, count), all, p)
         == Then([CR], RunFrom(o, State(-1, false, count), all, p + 1))
  {
    WaitStep(o, count, all, p);
    WaitingEnds(o, count, all, p + 1);
  }

  lemma EndMarkIs(o: Options, pendingCr: bool)
    ensures EndMark(o, pendingCr) ==
      if !o.showEnds then [] else if pendingCr then [CARET] + [77] + [DOLLAR] else [DOLLAR]
  {
  }

  lemma Regroup(out: seq<byte>, number: seq<byte>, mark: seq<byte>)
    ensures ((out + number) + mark) + [NL] == out + (number + mark + [NL])
  {
  }

  // ----- the program -----

  class Program {
    const o: Options
    const counter: LineCounter
    var newlines2: int
    var pendingCr: bool
    var stdout: seq<byte>  // everything written so far
    ghost var peak: nat    // the most bytes that the output buffer of the last file held

    constructor (o: Options)
      ensures Valid() && this.o == o && St(newlines2) == START && stdout == [] && peak == 0
      ensures fresh(counter) && fresh(counter.lineBuf)
    {
      this.o := o;
      counter := new LineCounter();
      newlines2, pendingCr, stdout, peak := 0, false, [], 0;
    }

    ghost predicate Valid()
      reads this, counter, counter.lineBuf
    {
      Consistent(newlines2)
    }

    ghost predicate Consistent(newlines: int)
      reads this`pendingCr, counter, counter.lineBuf
    {
      && counter.Valid() && counter.lineBuf.Length == LINE_COUNTER_BUF_LEN
      && -1 <= newlines <= 2
      && (pendingCr ==> newlines == -1 && o.showEnds && !o.showNonprinting)
    }

    /** The state of the transducer that the variables stand for. */
    ghost function St(newlines: int): State
      reads this`pendingCr, counter
    {
      State(newlines, pendingCr, counter.count)
    }

    method AppendNumber(out: seq<byte>) returns (out': seq<byte>)
      requires counter.Valid()
      modifies counter, counter.lineBuf
      ensures counter.Valid() && counter.count == old(counter.count) + 1
      ensures out' == out + Label(counter.count)
    {
      counter.NextLineNum();
      var text := counter.Text();
      out' := out + text;
    }

    /** A newline of the input, not a sentinel. */
    method RealNewline(newlines: int, out: seq<byte>) returns (newlines': int, out': seq<byte>)
      requires Consistent(newlines)
      modifies this`pendingCr, counter, counter.lineBuf
      ensures Consistent(newlines')
      ensures (St(newlines'), out') == (NewlineStep(o, old(St(newlines))).0, out + NewlineStep(o, old(St(newlines))).1)
      ensures |out'| <= |out| + 2 + |Label(counter.count)|
      ensures counter.count >= old(counter.count)
    {
      hide Label, EndMark;
      EndMarkIs(o, pendingCr);
      LabelMeaning(counter.count);
      newlines', out' := newlines + 1, out;
      if newlines' > 0 {
        if newlines' >= 2 {
          newlines' := 2;
          if o.squeezeBlank {
            assert out + [] == out;
            return;
          }
        }
        if o.number && !o.numberNonblank {
          out' := AppendNumber(out');
          LabelMeaning(counter.count);
        }
      }
      ghost var numbered := out';
      if o.showEnds {
        if pendingCr {
          out' := out' + [CARET] + [77];
          pendingCr := false;
        }
        out' := out' + [DOLLAR];
      }
      assert out' == numbered + EndMark(o, old(pendingCr));
      out' := out' + [NL];
      ghost var number := BlankLabel(o, newlines + 1, old(counter.count));
      assert numbered == out + number;
      Regroup(out, number, EndMark(o, old(pendingCr)));
    }

    /** What precedes the first byte after a newline or a read. */
    method BeginText(newlines: int, out: seq<byte>) returns (out': seq<byte>)
      requires Consistent(newlines)
      modifies this`pendingCr, counter, counter.lineBuf
      ensures Consistent(-1) && !pendingCr
      ensures St(-1) == InLine(o, old(St(newlines))) && out' == out + Prefix(o, old(St(newlines)))
      ensures |out'| <= |out| + |Label(counter.count)|
      ensures counter.count >= old(counter.count)
    {
      hide Label;
      LabelMeaning(counter.count);
      out' := out;
      if pendingCr {
        out' := out' + [CR];
        pendingCr := false;
      }
      if newlines >= 0 && o.number {
        out' := AppendNumber(out');
      }
      assert out + [] == out && out + ([] + []) == out && out + ([CR] + []) == out + [CR];
    }

    /** Copies text with quoting until a newline, real or sentinel, has been fetched. */
    method ScanQuoted(inbuf: array<byte>, start: nat, eob: nat, first: byte, out: seq<byte>,
                      ghost all: seq<byte>, ghost base: nat, ghost count: nat)
      returns (bpin: nat, out': seq<byte>, ghost added: seq<byte>)
      requires o.showNonprinting && Loaded(inbuf, eob, all, base) && 1 <= start <= eob + 1 && first == inbuf[start - 1]
      ensures start <= bpin <= eob + 1 && inbuf[bpin - 1] == NL
      ensures out' == out + added && |added| <= 4 * (bpin - start)
      ensures Copied(o, count, all, base + start - 1, base + bpin - 1, added)
    {
      hide Quote, Copied;
      bpin, out', added := start, out, [];
      var ch := first;
      CopyNone(o, count, all, base + start - 1);
      while ch != NL
        invariant start <= bpin <= eob + 1 && ch == inbuf[bpin - 1]
        invariant out' == out + added && |added| <= 4 * (bpin - start)
        invariant Copied(o, count, all, base + start - 1, base + bpin - 1, added)
        decreases eob + 1 - bpin
      {
        var shown := QuoteByte(ch);
        CopyOne(o, count, all, base + start - 1, base + bpin - 1, added);
        assert (out + added) + shown == out + (added + shown);
        out' := out' + shown;
        added := added + shown;
        ch := inbuf[bpin];
        bpin := bpin + 1;
      }
    }

    /** Copies text without quoting until a newline, real or sentinel, has been fetched.  A carriage return
        before a real newline is displayed at once; one before the sentinel is left pending. */
    method ScanPlain(inbuf: array<byte>, start: nat, eob: nat, first: byte, out: seq<byte>,
                     ghost all: seq<byte>, ghost base: nat, ghost count: nat)
      returns (bpin: nat, out': seq<byte>, ghost added: seq<byte>)
      requires !o.showNonprinting && !pendingCr
      requires Loaded(inbuf, eob, all, base) && 1 <= start <= eob + 1 && first == inbuf[start - 1]
      modifies this`pendingCr
      ensures start <= bpin <= eob + 1 && inbuf[bpin - 1] == NL
      ensures pendingCr ==> o.showEnds && bpin == eob + 1
      ensures out' == out + added && |added| <= 4 * (bpin - start)
      ensures RunFrom(o, State(-1, false, count), all, base + start - 1)
           == Then(added, RunFrom(o, State(-1, pendingCr, count), all, base + bpin - 1))
    {
      hide Step, RunFrom;
      bpin, out', added := start, out, [];
      var ch := first;
      CopyNone(o, count, all, base + start - 1);
      while true
        invariant start <= bpin <= eob + 1 && ch == inbuf[bpin - 1]
        invariant out' == out + added && |added| <= 4 * (bpin - start)
        invariant pendingCr ==> o.showEnds && bpin == eob + 1
        invariant RunFrom(o, State(-1, false, count), all, base + start - 1)
          == Then(added, RunFrom(o, State(-1, pendingCr, count), all, base + bpin - 1))
        decreases eob + 1 - bpin
      {
        if ch == NL {
          return;
        }
        ghost var p := base + bpin - 1;
        var shown := PlainByte(ch, inbuf[bpin], bpin == eob, all, p, count);
        ThenThen(added, shown, RunFrom(o, State(-1, pendingCr, count), all, p + 1));
        assert (out + added) + shown == out + (added + shown);
        out' := out' + shown;
        added := added + shown;
        ch := inbuf[bpin];
        bpin := bpin + 1;
      }
    }

    /** The display of a byte without quoting, given the next byte of the buffer. */
    method PlainByte(ch: byte, next: byte, atEnd: bool, ghost all: seq<byte>, ghost p: nat, ghost count: nat)
      returns (shown: seq<byte>)
      requires !o.showNonprinting && !pendingCr && ch != NL
      requires p < |all| && all[p] == ch
      requires if atEnd then next == NL else p + 1 < |all| && next == all[p + 1]
      modifies this`pendingCr
      ensures pendingCr ==> o.showEnds && atEnd
      ensures |shown| <= 4
      ensures RunFrom(o, State(-1, false, count), all, p)
           == Then(shown, RunFrom(o, State(-1, pendingCr, count), all, p + 1))
    {
      hide Step, RunFrom;
      if ch == TAB && o.showTabs {
        shown := [CARET] + [ch + 64];
        assert shown == Quote(o, ch);
        CopyShown(o, count, all, p);
      } else if ch == CR && next == NL && o.showEnds {
        if atEnd {
          pendingCr := true;
          shown := [];
          WaitStep(o, count, all, p);
          ghost var r := RunFrom(o, State(-1, true, count), all, p + 1);
          assert [] + r.1 == r.1;
        } else {
          shown := [CARET] + [77];
          EarlyCr(o, count, all, p);
          assert shown == [CARET, 77];
        }
      } else {
        shown := [ch];
        if Waits(o, ch) {
          LoneCr(o, count, all, p);
        } else {
          CopyShown(o, count, all, p);
        }
      }
    }

    /** The display of a byte with quoting, as the chain of tests finds it. */
    method QuoteByte(ch: byte) returns (shown: seq<byte>)
      requires o.showNonprinting && ch != NL
      ensures shown == Quote(o, ch)
    {
      shown := [];
      if ch >= 32 {
        if ch < 127 {
          shown := [ch];
        } else if ch == 127 {
          shown := [CARET, 63];
        } else {
          shown := [77, 45];
          if ch >= 128 + 32 {
            if ch < 128 + 127 {
              shown := shown + [ch - 128];
            } else {
              shown := shown + [CARET, 63];
            }
          } else {
            shown := shown + [CARET, ch - 128 + 64];
          }
        }
      } else if ch == TAB && !o.showTabs {
        shown := [TAB];
      } else {
        shown := [CARET, ch + 64];
      }
    }

    // ----- the main loop -----

    /** Fills the input buffer and puts the sentinel behind it; 0 means end of input. */
    method ReadBlock(rd: Reader, inbuf: array<byte>, insize: nat, ghost all: seq<byte>, ghost base: nat)
      returns (n: nat)
      requires rd.Valid() && 0 < insize < inbuf.Length
      requires base <= |all| && all[base..] == rd.Rest()
      modifies rd, inbuf
      ensures rd.Valid() && n <= insize && (n == 0 <==> base == |all|)
      ensures base + n <= |all| && all[base + n..] == rd.Rest()
      ensures n > 0 ==> Loaded(inbuf, n, all, base)
    {
      n := rd.Read(inbuf, 0, insize);
      SplitAt(all, base, inbuf[0..n], rd.Rest());
      assert forall k :: 0 <= k < n ==> inbuf[k] == inbuf[0..n][k];
      if n > 0 {
        inbuf[n] := NL;
      }
    }

    /** The scan for the next newline. */
    method Scan(inbuf: array<byte>, start: nat, eob: nat, out: seq<byte>,
                ghost all: seq<byte>, ghost base: nat, ghost count: nat)
      returns (bpin: nat, out': seq<byte>, ghost added: seq<byte>)
      requires !pendingCr && Loaded(inbuf, eob, all, base) && 1 <= start <= eob + 1
      modifies this`pendingCr
      ensures start <= bpin <= eob + 1 && inbuf[bpin - 1] == NL
      ensures pendingCr ==> o.showEnds && !o.showNonprinting
      ensures out' == out + added && |added| <= 4 * (bpin - start)
      ensures RunFrom(o, State(-1, false, count), all, base + start - 1)
           == Then(added, RunFrom(o, State(-1, pendingCr, count), all, base + bpin - 1))
    {
      hide Step, RunFrom;
      if o.showNonprinting {
        bpin, out', added := ScanQuoted(inbuf, start, eob, inbuf[start - 1], out, all, base, count);
      } else {
        bpin, out', added := ScanPlain(inbuf, start, eob, inbuf[start - 1], out, all, base, count);
      }
    }

    /** The text from the first byte of the buffer that is no newline up to the next newline. */
    method Text(inbuf: array<byte>, start: nat, eob: nat, newlines: int, out: seq<byte>,
                ghost all: seq<byte>, ghost base: nat)
      returns (bpin: nat, out': seq<byte>)
      requires Consistent(newlines) && Loaded(inbuf, eob, all, base) && inbuf != counter.lineBuf
      requires 1 <= start <= eob && inbuf[start - 1] != NL
      modifies this`pendingCr, counter, counter.lineBuf
      ensures Consistent(-1)
      ensures start <= bpin <= eob + 1 && inbuf[bpin - 1] == NL
      ensures Then(out, RunFrom(o, old(St(newlines)), all, base + start - 1))
           == Then(out', RunFrom(o, St(-1), all, base + bpin - 1))
      ensures |out'| <= |out| + |Label(counter.count)| + 4 * (bpin - start)
      ensures counter.count >= old(counter.count)
    {
      hide Label, Step, RunFrom, Prefix, Then;
      ghost var st, p := St(newlines), base + start - 1;
      TextBegins(o, st, all, p);
      var begun := BeginText(newlines, out);
      ghost var added;
      bpin, out', added := Scan(inbuf, start, eob, begun, all, base, counter.count);
      ghost var r := RunFrom(o, St(-1), all, base + bpin - 1);
      ThenThen(out, Prefix(o, st), Then(added, r));
      ThenThen(begun, added, r);
    }

    /** What is known where the output buffer is looked at: the newline at bpin - 1, real or sentinel, has
        been fetched but not processed. */
    ghost predicate Invariant(newlines: int, out: seq<byte>, all: seq<byte>, p: nat, goal: (State, seq<byte>))
      requires p <= |all|
      reads this`pendingCr, this`stdout, counter, counter.lineBuf
    {
      && Consistent(newlines)
      && goal == Then(stdout + out, RunFrom(o, St(newlines), all, p))
    }

    /** A turn on a newline of the buffer. */
    method TakeNewline(newlines: int, out: seq<byte>, ghost all: seq<byte>, ghost p: nat,
                       ghost goal: (State, seq<byte>))
      returns (newlines': int, out': seq<byte>)
      requires p < |all| && all[p] == NL && Invariant(newlines, out, all, p, goal)
      modifies this`pendingCr, counter, counter.lineBuf
      ensures Invariant(newlines', out', all, p + 1, goal)
      ensures |out'| <= |out| + 2 + |Label(counter.count)|
      ensures counter.count >= old(counter.count)
    {
      hide Label, Step, RunFrom, NewlineStep, Then;
      ghost var st := St(newlines);
      NewlineTaken(o, st, all, p);
      newlines', out' := RealNewline(newlines, out);
      ghost var r := RunFrom(o, St(newlines'), all, p + 1);
      ThenThen(out, NewlineStep(o, st).1, r);
      OutMoves(stdout, out, RunFrom(o, st, all, p), out', r);
    }

    /** A turn on text of the buffer. */
    method TakeText(inbuf: array<byte>, start: nat, eob: nat, newlines: int, out: seq<byte>,
                    ghost all: seq<byte>, ghost base: nat, ghost goal: (State, seq<byte>))
      returns (bpin: nat, out': seq<byte>)
      requires Loaded(inbuf, eob, all, base) && inbuf != counter.lineBuf
      requires 1 <= start <= eob + 1 && inbuf[start - 1] != NL
      requires Invariant(newlines, out, all, base + start - 1, goal)
      modifies this`pendingCr, counter, counter.lineBuf
      ensures start <= bpin <= eob + 1 && inbuf[bpin - 1] == NL
      ensures Invariant(-1, out', all, base + bpin - 1, goal)
      ensures |out'| <= |out| + |Label(counter.count)| + 4 * (bpin - start)
      ensures counter.count >= old(counter.count)
    {
      hide Label, Step, RunFrom, Then;
      ghost var r := RunFrom(o, St(newlines), all, base + start - 1);
      bpin, out' := Text(inbuf, start, eob, newlines, out, all, base);
      OutMoves(stdout, out, r, out', RunFrom(o, St(-1), all, base + bpin - 1));
    }

    /** Writes whole blocks while the output buffer holds at least one. */
    method FlushBlocks(out: seq<byte>, outsize: nat,
                       ghost newlines: int, ghost all: seq<byte>, ghost p: nat, ghost goal: (State, seq<byte>))
      returns (rest: seq<byte>)
      requires outsize > 0 && p <= |all| && Invariant(newlines, out, all, p, goal)
      modifies this`stdout
      ensures |rest| < outsize && Invariant(newlines, rest, all, p, goal)
    {
      hide RunFrom, Then;
      rest := out;
      while outsize <= |rest|
        invariant stdout + rest == old(stdout) + out
      {
        assert (stdout + rest[..outsize]) + rest[outsize..] == stdout + rest by {
          assert rest[..outsize] + rest[outsize..] == rest;
        }
        stdout := stdout + rest[..outsize];
        rest := rest[outsize..];
      }
    }

    method WritePending(out: seq<byte>, ghost newlines: int, ghost all: seq<byte>, ghost p: nat,
                        ghost goal: (State, seq<byte>))
      requires p <= |all| && Invariant(newlines, out, all, p, goal)
      modifies this`stdout
      ensures stdout == old(stdout) + out && Invariant(newlines, [], all, p, goal)
    {
      hide RunFrom, Then;
      stdout := stdout + out;
      assert stdout + [] == stdout;
    }

    /** Fetches the next byte of the buffer, and takes the text it begins unless it is a newline. */
    method Fetch(inbuf: array<byte>, next: nat, eob: nat, newlines: int, out: seq<byte>,
                 ghost all: seq<byte>, ghost base: nat, ghost goal: (State, seq<byte>))
      returns (bpin: nat, newlines': int, out': seq<byte>)
      requires Loaded(inbuf, eob, all, base) && inbuf != counter.lineBuf && next <= eob
      requires Invariant(newlines, out, all, base + next, goal)
      modifies this`pendingCr, counter, counter.lineBuf
      ensures next < bpin <= eob + 1 && inbuf[bpin - 1] == NL
      ensures Invariant(newlines', out', all, base + bpin - 1, goal)
      ensures |out'| <= |out| + |Label(counter.count)| + 4 * (bpin - next - 1)
      ensures counter.count >= old(counter.count)
    {
      hide Invariant, Label;
      LabelMeaning(counter.count);
      var ch := inbuf[next];
      bpin, newlines', out' := next + 1, newlines, out;
      if ch != NL {
        bpin, out' := TakeText(inbuf, next + 1, eob, newlines, out, all, base, goal);
        newlines' := -1;
      }
    }

    /** What ties the buffers to the input. */
    ghost predicate Buffers(rd: Reader, inbuf: array<byte>, insize: nat, all: seq<byte>, base: nat, eob: nat, bpin: nat)
      reads rd, inbuf
    {
      && rd.Valid() && eob <= insize && base + eob <= |all| && all[base + eob..] == rd.Rest()
      && 1 <= bpin <= eob + 1
      && (bpin <= eob ==> Loaded(inbuf, eob, all, base) && inbuf[bpin - 1] == NL)
    }

    /** What is done for the newline at bpin - 1 and the text behind it.  A sentinel means that the buffer is
        empty; `done` tells that the input is, too. */
    method Turn(rd: Reader, inbuf: array<byte>, insize: nat, eob: nat, bpin: nat, newlines: int, out: seq<byte>,
                ghost all: seq<byte>, ghost base: nat, ghost goal: (State, seq<byte>))
      returns (done: bool, eob': nat, bpin': nat, newlines': int, out': seq<byte>, ghost base': nat)
      requires Buffers(rd, inbuf, insize, all, base, eob, bpin)
      requires 0 < insize < inbuf.Length && inbuf != counter.lineBuf
      requires Invariant(newlines, out, all, base + bpin - 1, goal)
      modifies this`pendingCr, this`stdout, counter, counter.lineBuf, rd, inbuf
      ensures done ==> Invariant(newlines', [], all, |all|, goal) && rd.Rest() == []
      ensures !done ==>
        && Buffers(rd, inbuf, insize, all, base', eob', bpin')
        && Invariant(newlines', out', all, base' + bpin' - 1, goal)
        && base' + bpin' > base + (if bpin > eob then bpin - 1 else bpin)
        && (base' + bpin' == base + bpin ==> bpin > eob && bpin' <= eob')
        && |out'| <= |out| + 4 * insize - 2 + 2 * |Label(counter.count)|
      ensures counter.count >= old(counter.count)
    {
      hide Label, RunFrom, Then, Invariant, Loaded;
      done, eob', bpin', newlines', out', base' := false, eob, bpin, newlines, out, base;
      if bpin > eob {
        // Whether more input is known to be pending decides only if the output is written before waiting.
        var inputPending: bool := *;
        if !inputPending {
          WritePending(out, newlines, all, base + eob, goal);
          out' := [];
        }
        base' := base + eob;
        eob' := ReadBlock(rd, inbuf, insize, all, base');
        if eob' == 0 {
          WritePending(out', newlines, all, base', goal);
          done := true;
          return;
        }
        bpin' := 0;
      } else {
        BufferedByte(inbuf, eob, all, base, bpin - 1);
        newlines', out' := TakeNewline(newlines, out, all, base + bpin - 1, goal);
      }
      ghost var count := counter.count;
      bpin', newlines', out' := Fetch(inbuf, bpin', eob', newlines', out', all, base', goal);
      LabelMeaning(count);
      LabelGrows(count, counter.count);
    }

    /** One file: reads it to its end and writes what the transducer writes for it, however the file is cut
        into reads. */
    method CatFile(rd: Reader, inbuf: array<byte>, insize: nat, outsize: nat)
      requires Valid() && rd.Valid() && 0 < insize < inbuf.Length && outsize > 0 && inbuf != counter.lineBuf
      modifies this, counter, counter.lineBuf, rd, inbuf
      ensures Valid() && rd.Rest() == []
      ensures (St(newlines2), stdout) == Then(old(stdout), Run(o, old(St(newlines2)), old(rd.Rest())))
      ensures peak <= PeakBound(insize, outsize, counter.count)
      ensures counter.count >= old(counter.count)
    {
      hide Label, RunFrom, Then, Invariant, Loaded;
      ghost var all := rd.Rest();
      ghost var base: nat := 0;
      ghost var goal := Then(stdout, Run(o, St(newlines2), all));
      var newlines := newlines2;
      var eob: nat, bpin: nat := 0, 1;
      var out: seq<byte> := [];
      peak := 0;
      AtBeginning(all, goal);
      while true
        invariant Buffers(rd, inbuf, insize, all, base, eob, bpin)
        invariant Invariant(newlines, out, all, base + bpin - 1, goal)
        invariant counter.count >= old(counter.count)
        invariant peak <= PeakBound(insize, outsize, counter.count)
        invariant |out| <= PeakBound(insize, outsize, counter.count)
        decreases |all| - base - bpin, if bpin > eob then 1 else 0
      {
        // Write if there is at least one block in the buffer.
        peak := Max(peak, |out|);
        out := FlushBlocks(out, outsize, newlines, all, base + bpin - 1, goal);
        ghost var count := counter.count;
        var done;
        done, eob, bpin, newlines, out, base := Turn(rd, inbuf, insize, eob, bpin, newlines, out, all, base, goal);
        LabelGrows(count, counter.count);
        if done {
          AtEnd(newlines, all, goal);
          newlines2 := newlines;
          return;
        }
      }
    }

    lemma AtBeginning(all: seq<byte>, goal: (State, seq<byte>))
      requires Valid() && goal == Then(stdout, Run(o, St(newlines2), all))
      ensures Invariant(newlines2, [], all, 0, goal)
    {
      assert stdout + [] == stdout;
    }

    lemma AtEnd(newlines: int, all: seq<byte>, goal: (State, seq<byte>))
      requires Invariant(newlines, [], all, |all|, goal)
      ensures Consistent(newlines) && goal == (St(newlines), stdout)
    {
      assert (stdout + []) + [] == stdout;
    }
  }

  // ----- all files -----

  /** The bytes of all files, one after another. */
  function AllBytes(files: seq<seq<seq<byte>>>): seq<byte> {
    if files == [] then [] else Flatten(files[0]) + AllBytes(files[1..])
  }

  /** A file given by the pieces in which reads will find it. */
  predicate Readable(file: seq<seq<byte>>) {
    forall i :: 0 <= i < |file| ==> file[i] != []
  }

  predicate AnyFormat(o: Options) {
    o.number || o.showEnds || o.showNonprinting || o.showTabs || o.squeezeBlank
  }

  /** With no formatting option the input is copied. */
  method SimpleCat(rd: Reader, buf: array<byte>) returns (copied: seq<byte>)
    requires rd.Valid() && buf.Length > 0
    modifies rd, buf
    ensures copied == old(rd.Rest())
  {
    ghost var all := rd.Rest();
    copied := [];
    while true
      invariant rd.Valid() && all == copied + rd.Rest()
      decreases |rd.Rest()|
    {
      ghost var rest := rd.Rest();
      var nRead := rd.Read(buf, 0, buf.Length);
      if nRead == 0 {
        return;
      }
      assert copied + (buf[0..nRead] + rd.Rest()) == (copied + buf[0..nRead]) + rd.Rest();
      copied := copied + buf[0..nRead];
    }
  }

  /** ... and the transducer without options copies, too. */
  lemma {:induction false} PlainRunCopies(o: Options, st: State, input: seq<byte>, p: nat)
    requires !AnyFormat(o) && !st.pendingCr && p <= |input|
    ensures RunFrom(o, st, input, p).1 == input[p..]
    ensures !RunFrom(o, st, input, p).0.pendingCr && RunFrom(o, st, input, p).0.count == st.count
    decreases |input| - p
  {
    hide Label;
    if p < |input| {
      var (st1, out1) := Step(o, st, input[p]);
      assert out1 == [input[p]];
      PlainRunCopies(o, st1, input, p + 1);
      assert [input[p]] + input[p + 1..] == input[p..];
    } else {
      assert input[p..] == [];
    }
  }

  method CatPlain(files: seq<seq<seq<byte>>>, insizes: seq<nat>, outsize: nat) returns (output: seq<byte>)
    requires |insizes| == |files| && outsize > 0 && forall i :: 0 <= i < |files| ==> Readable(files[i])
    ensures output == AllBytes(files)
  {
    output := [];
    assert files[0..] == files;
    for i := 0 to |files|
      invariant AllBytes(files) == output + AllBytes(files[i..])
    {
      var rd := new Reader(files[i]);
      var buf := new byte[Max(insizes[i], outsize)];
      var copied := SimpleCat(rd, buf);
      assert files[i..][1..] == files[i + 1..];
      assert output + (copied + AllBytes(files[i + 1..])) == (output + copied) + AllBytes(files[i + 1..]);
      output := output + copied;
    }
  }

  /** As high as the buffers of files of the given block sizes may be filled. */
  ghost predicate WithinBounds(peaks: seq<nat>, insizes: seq<nat>, outsize: nat, numbered: nat)
    requires |peaks| <= |insizes|
  {
    forall i :: 0 <= i < |peaks| ==> peaks[i] <= PeakBound(insizes[i], outsize, numbered)
  }

  lemma BoundsGrow(peaks: seq<nat>, insizes: seq<nat>, outsize: nat, m: nat, n: nat)
    requires |peaks| <= |insizes| && m <= n && WithinBounds(peaks, insizes, outsize, m)
    ensures WithinBounds(peaks, insizes, outsize, n)
  {
    LabelGrows(m, n);
  }

  /** Every file in turn with buffers for its own block size. */
  method CatFiles(program: Program, files: seq<seq<seq<byte>>>, insizes: seq<nat>, outsize: nat)
    returns (ghost peaks: seq<nat>)
    requires program.Valid() && |insizes| == |files| && outsize > 0
    requires forall i :: 0 <= i < |files| ==> insizes[i] > 0 && Readable(files[i])
    modifies program, program.counter, program.counter.lineBuf
    ensures program.Valid() && |peaks| == |files|
    ensures (program.St(program.newlines2), program.stdout)
         == Then(old(program.stdout), Run(program.o, old(program.St(program.newlines2)), AllBytes(files)))
    ensures WithinBounds(peaks, insizes, outsize, program.counter.count)
  {
    hide Run, Label, WithinBounds;
    ghost var o := program.o;
    ghost var goal := Then(program.stdout, Run(o, program.St(program.newlines2), AllBytes(files)));
    assert files[0..] == files;
    peaks := [];
    NoPeaks(insizes, outsize, program.counter.count);
    for i := 0 to |files|
      invariant program.Valid() && |peaks| == i
      invariant goal == Then(program.stdout, Run(o, program.St(program.newlines2), AllBytes(files[i..])))
      invariant WithinBounds(peaks, insizes, outsize, program.counter.count)
    {
      var rd := new Reader(files[i]);
      var inbuf := new byte[insizes[i] + 1];
      ghost var st, written, count := program.St(program.newlines2), program.stdout, program.counter.count;
      program.CatFile(rd, inbuf, insizes[i], outsize);
      BoundsGrow(peaks, insizes, outsize, count, program.counter.count);
      OnePeak(peaks, program.peak, insizes, outsize, program.counter.count);
      peaks := peaks + [program.peak];
      assert files[i..][1..] == files[i + 1..];
      RunAppend(o, st, Flatten(files[i]), AllBytes(files[i + 1..]));
      ghost var (st1, out1) := Run(o, st, Flatten(files[i]));
      ThenThen(written, out1, Run(o, st1, AllBytes(files[i + 1..])));
    }
    RunsNothing(o, program.St(program.newlines2), AllBytes(files[|files|..]));
  }

  lemma NoPeaks(insizes: seq<nat>, outsize: nat, n: nat)
    ensures WithinBounds([], insizes, outsize, n)
  {
  }

  lemma OnePeak(peaks: seq<nat>, peak: nat, insizes: seq<nat>, outsize: nat, n: nat)
    requires |peaks| < |insizes| && WithinBounds(peaks, insizes, outsize, n)
    requires peak <= PeakBound(insizes[|peaks|], outsize, n)
    ensures WithinBounds(peaks + [peak], insizes, outsize, n)
  {
  }

  /** The whole program: every file in turn, and at the end a carriage return that still waits.  The output is
      that of the lines of all files together, wherever files and reads end; and the output buffer of no file,
      each with its own block size, is filled beyond its bound. */
  method CatAll(o: Options, files: seq<seq<seq<byte>>>, insizes: seq<nat>, outsize: nat)
    returns (output: seq<byte>, ghost peaks: seq<nat>, ghost numbered: nat)
    requires |insizes| == |files| && outsize > 0
    requires forall i :: 0 <= i < |files| ==> insizes[i] > 0 && Readable(files[i])
    ensures output == Final(Run(o, START, AllBytes(files))) == Lines(o, 0, 0, AllBytes(files), 0)
    ensures output == CatLaws.Pieces(o, AllBytes(files), 0)
    ensures numbered == Run(o, START, AllBytes(files)).0.count
    ensures |peaks| == |files| && forall i :: 0 <= i < |files| ==> peaks[i] <= PeakBound(insizes[i], outsize, numbered)
  {
    hide RunFrom, Lines, Label, Step, CatLaws.Pieces;
    TransducerIsLines(o, AllBytes(files));
    CatLaws.OutputIsPieces(o, AllBytes(files));
    if !AnyFormat(o) {
      output := CatPlain(files, insizes, outsize);
      PlainRunCopies(o, START, AllBytes(files), 0);
      LabelMeaning(0);
      peaks, numbered := seq(|files|, _ => 0), 0;
      return;
    }
    var program := new Program(o);
    peaks := CatFiles(program, files, insizes, outsize);
    RunsNothing(o, START, AllBytes(files));
    output := program.stdout + (if program.pendingCr then [CR] else []);
    numbered := program.counter.count;
  }

  lemma RunsNothing(o: Options, st: State, input: seq<byte>)
    ensures input == [] ==> forall out :: Then(out, Run(o, st, input)) == (st, out)
    ensures Then([], Run(o, st, input)) == Run(o, st, input)
  {
    var r := Run(o, st, input);
    assert [] + r.1 == r.1;
    if input == [] {
      forall out
        ensures Then(out, r) == (st, out)
      {
        assert out + [] == out;
      }
    }
  }

  // ----- how full the output buffer gets -----

  /** The bound is within the allocated size exactly while line numbers have at most ten digits. */
  lemma BufferSuffices(insize: nat, outsize: nat, count: nat)
    ensures PeakBound(insize, outsize, count) <= 4 * insize + outsize + LINE_COUNTER_BUF_LEN - 1 <==>
      count < Decimal.Pow10(10)
  {
    LabelMeaning(count);
  }

  /** The options under which a byte can take the most room. */
  predicate WorstOptions(o: Options) {
    o.showNonprinting && o.number && !o.numberNonblank && o.showEnds && !o.squeezeBlank
  }

  /** A newline and then bytes whose display takes four bytes each. */
  function Worst(insize: nat): seq<byte>
    requires insize > 0
  {
    [NL] + seq(insize - 1, _ => 255 as byte)
  }

  lemma {:induction false} WorstText(o: Options, count: nat, insize: nat, p: nat)
    requires o.showNonprinting && 1 <= p <= insize
    ensures |RunFrom(o, State(-1, false, count), Worst(insize), p).1| == 4 * (insize - p)
    ensures RunFrom(o, State(-1, false, count), Worst(insize), p).0 == State(-1, false, count)
    decreases insize - p
  {
    if p < insize {
      CopyShown(o, count, Worst(insize), p);
      WorstText(o, count, insize, p + 1);
    }
  }

  function Blanks(n: nat): seq<byte> {
    seq(n, _ => NL)
  }

  /** A line of k letters. */
  function Line(k: nat): seq<byte> {
    seq(k, _ => 65 as byte) + [NL]
  }

  lemma {:induction false} BlanksRun(o: Options, n: nat)
    requires WorstOptions(o)
    ensures Run(o, START, Blanks(n)).0 == State(Newlines(n), false, n)
  {
    hide Label;
    if n > 0 {
      BlanksRun(o, n - 1);
      assert Blanks(n) == Blanks(n - 1) + [NL];
      RunAppend(o, START, Blanks(n - 1), [NL]);
      NewlineTaken(o, State(Newlines(n - 1), false, n - 1), [NL], 0);
    }
  }

  lemma {:induction false} LettersRun(o: Options, count: nat, k: nat, p: nat)
    requires WorstOptions(o) && p <= k
    ensures var r := RunFrom(o, State(-1, false, count), Line(k), p);
      r.0 == State(0, false, count) && |r.1| == k - p + 2
    decreases k - p
  {
    hide Label;
    if p < k {
      LettersRun(o, count, k, p + 1);
      CopyShown(o, count, Line(k), p);
    } else {
      NewlineTaken(o, State(-1, false, count), Line(k), p);
    }
  }

  lemma LineRun(o: Options, st: State, k: nat)
    requires WorstOptions(o) && k > 0 && st.newlines >= 0 && !st.pendingCr
    ensures var r := Run(o, st, Line(k));
      r.0 == State(0, false, st.count + 1) && |r.1| == |Label(st.count + 1)| + k + 2
  {
    hide Label, RunFrom;
    TextBegins(o, st, Line(k), 0);
    LettersRun(o, st.count + 1, k, 0);
  }

  lemma Padding(n: nat, d: nat) returns (k: nat)
    requires d > 0
    ensures k > 0 && (n + k) % d == d - 1
  {
    k := 2 * d - 1 - n % d;
    Remainder(n / d + 1, d, d - 1);
    assert n + k == d * (n / d + 1) + (d - 1);
  }

  lemma Remainder(q: nat, d: nat, r: nat)
    requires r < d
    ensures (d * q + r) % d == r
  {
    var q', r' := (d * q + r) / d, (d * q + r) % d;
    assert d * q + r == d * q' + r' && d * (q' - q) == d * q' - d * q;
    AtLeast(d, q' - q);
    AtLeast(d, q - q');
  }

  lemma AtLeast(d: nat, m: int)
    ensures m > 0 ==> d * m >= d
  {
  }

  /** An input after which a given number of lines is numbered and the output, if only whole blocks of it have
      been written, leaves the buffer just short of a block. */
  lemma AlmostBlock(o: Options, outsize: nat, count: nat) returns (input: seq<byte>)
    requires WorstOptions(o) && outsize > 0 && count > 0
    ensures Run(o, START, input).0 == State(0, false, count)
    ensures |Run(o, START, input).1| % outsize == outsize - 1
  {
    hide Label, RunFrom;
    BlanksRun(o, count - 1);
    var blanks := Run(o, START, Blanks(count - 1));
    var k := Padding(|blanks.1| + |Label(count)| + 2, outsize);
    LineRun(o, blanks.0, k);
    input := Blanks(count - 1) + Line(k);
    RunAppend(o, START, Blanks(count - 1), Line(k));
  }

  /** What one read of the worst kind adds to the buffer. */
  lemma WorstRun(o: Options, count: nat, insize: nat)
    requires WorstOptions(o) && insize > 0
    ensures var r := Run(o, State(0, false, count), Worst(insize));
      && |r.1| == 4 * insize + |Label(count + 1)| + (if insize > 1 then |Label(count + 2)| else 0) - 2
      && r.0.count == if insize > 1 then count + 2 else count + 1
  {
    hide Label, RunFrom;
    var s := Worst(insize);
    NewlineTaken(o, State(0, false, count), s, 0);
    if insize > 1 {
      TextBegins(o, State(1, false, count + 1), s, 1);
      WorstText(o, count + 2, insize, 1);
    } else {
      RunNothing(o, State(1, false, count + 1), s);
    }
  }

  /** For every number of eleven or more digits there is an input in which it is the last number, and whose
      last read the allocated size cannot hold on top of what is left of whole blocks. */
  lemma BoundIsTight(o: Options, insize: nat, outsize: nat, n: nat) returns (input: seq<byte>)
    requires WorstOptions(o) && insize > 1 && outsize > 0 && n >= Decimal.Pow10(10)
    ensures var before, after := Run(o, START, input), Run(o, START, input + Worst(insize));
      && after.0.count == n && before.1 <= after.1 && |before.1| % outsize == outsize - 1
      && |before.1| % outsize + |after.1[|before.1|..]|
         == outsize + 4 * insize + |Label(n - 1)| + |Label(n)| - 3
         > 4 * insize + outsize + LINE_COUNTER_BUF_LEN - 1
  {
    hide Label, RunFrom;
    LabelMeaning(n);
    LabelMeaning(n - 1);
    input := AlmostBlock(o, outsize, n - 2);
    RunAppend(o, START, input, Worst(insize));
    WorstRun(o, n - 2, insize);
  }
}
