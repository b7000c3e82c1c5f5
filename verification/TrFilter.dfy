/** The byte filters of `tr`: reading with deletion or translation, and squeezing. */
module TrFilter {
  import opened Streams

  // ----- what the filters compute -----

  /** Position k survives squeezing: it does not repeat a member of the set. */
  predicate Kept(inSet: seq<bool>, input: seq<byte>, k: nat)
    requires |inSet| == 256 && k < |input|
  {
    !(inSet[input[k]] && k > 0 && input[k - 1] == input[k])
  }

  /** The bytes of input[n..] that survive squeezing of the whole input. */
  function SqueezedFrom(inSet: seq<bool>, input: seq<byte>, n: nat): seq<byte>
    requires |inSet| == 256 && n <= |input|
    decreases |input| - n
  {
    if n == |input| then []
    else (if Kept(inSet, input, n) then [input[n]] else []) + SqueezedFrom(inSet, input, n + 1)
  }

  /** The input without each byte that is in the set and equals the byte before it. */
  function Squeezed(inSet: seq<bool>, input: seq<byte>): seq<byte>
    requires |inSet| == 256
  {
    SqueezedFrom(inSet, input, 0)
  }

  function Deleted(inSet: seq<bool>, input: seq<byte>): seq<byte>
    requires |inSet| == 256
  {
    if input == [] then []
    else (if inSet[input[0]] then [] else [input[0]]) + Deleted(inSet, input[1..])
  }

  function Translated(xlate: seq<byte>, input: seq<byte>): (output: seq<byte>)
    requires |xlate| == 256
    ensures |output| == |input|
    ensures forall k :: 0 <= k < |input| ==> output[k] == xlate[input[k]]
  {
    seq(|input|, k requires 0 <= k < |input| => xlate[input[k]])
  }

  /** A stretch of kept positions is copied as it stands. */
  lemma {:induction false} KeptStretch(inSet: seq<bool>, input: seq<byte>, p: nat, q: nat)
    requires |inSet| == 256 && p <= q <= |input|
    requires forall k :: p <= k < q ==> Kept(inSet, input, k)
    ensures SqueezedFrom(inSet, input, p) == input[p..q] + SqueezedFrom(inSet, input, q)
    decreases q - p
  {
    if p < q {
      KeptStretch(inSet, input, p, q - 1);
      assert Kept(inSet, input, q - 1);
      assert input[p..q] == input[p..q - 1] + [input[q - 1]];
    } else {
      assert input[p..q] == [];
    }
  }

  lemma {:induction false} DeletedAppend(inSet: seq<bool>, a: seq<byte>, b: seq<byte>)
    requires |inSet| == 256
    ensures Deleted(inSet, a + b) == Deleted(inSet, a) + Deleted(inSet, b)
  {
    if a == [] {
      assert a + b == b;
    } else {
      assert (a + b)[1..] == a[1..] + b;
      DeletedAppend(inSet, a[1..], b);
    }
  }

  lemma DeletedNothing(inSet: seq<bool>, s: seq<byte>)
    requires |inSet| == 256
    ensures Deleted(inSet, s[..0]) == []
  {
  }

  lemma DeletedSnoc(inSet: seq<bool>, s: seq<byte>, i: nat)
    requires |inSet| == 256 && i < |s|
    ensures Deleted(inSet, s[..i + 1]) == Deleted(inSet, s[..i]) + (if inSet[s[i]] then [] else [s[i]])
  {
    assert s[..i + 1] == s[..i] + [s[i]];
    DeletedAppend(inSet, s[..i], [s[i]]);
  }

  /** No two neighbours of what is written are the same member of the set. */
  lemma {:induction false} SqueezedHasNoRepeats(inSet: seq<bool>, input: seq<byte>, n: nat)
    requires |inSet| == 256 && n <= |input|
    ensures var s := SqueezedFrom(inSet, input, n);
      && (forall k :: 0 < k < |s| && inSet[s[k]] ==> s[k] != s[k - 1])
      && (0 < n && s != [] && inSet[s[0]] ==> s[0] != input[n - 1])
      && (n < |input| && (n == 0 || !inSet[input[n]]) ==> s != [] && s[0] == input[n])
    decreases |input| - n
  {
    if n < |input| {
      SqueezedHasNoRepeats(inSet, input, n + 1);
      var rest := SqueezedFrom(inSet, input, n + 1);
      if Kept(inSet, input, n) {
        assert ([input[n]] + rest)[1..] == rest;
      }
    }
  }

  /** Squeezing what has been squeezed changes nothing. */
  lemma SqueezedIsIdempotent(inSet: seq<bool>, input: seq<byte>)
    requires |inSet| == 256
    ensures Squeezed(inSet, Squeezed(inSet, input)) == Squeezed(inSet, input)
  {
    SqueezedHasNoRepeats(inSet, input, 0);
    var s := Squeezed(inSet, input);
    KeptStretch(inSet, s, 0, |s|);
    assert s[0..|s|] == s;
  }

  // ----- the readers -----

  datatype Mode = Plain | Deleting | Translating

  /** Standard input seen through one of plain_read, read_and_delete and read_and_xlate. */
  class Input {
    const source: Reader
    const mode: Mode
    const inDelete: array<bool>
    const xlate: array<byte>

    constructor (source: Reader, mode: Mode, inDelete: array<bool>, xlate: array<byte>)
      requires source.Valid() && inDelete.Length == 256 && xlate.Length == 256
      ensures Valid()
      ensures this.source == source && this.mode == mode && this.inDelete == inDelete && this.xlate == xlate
    {
      this.source, this.mode, this.inDelete, this.xlate := source, mode, inDelete, xlate;
    }

    ghost predicate Valid()
      reads this, source
    {
      source.Valid() && inDelete.Length == 256 && xlate.Length == 256
    }

    /** The bytes this input will still deliver. */
    ghost function Todo(): seq<byte>
      requires Valid()
      reads this, source, inDelete, xlate
    {
      match mode
      case Plain => source.Rest()
      case Deleting => Deleted(inDelete[..], source.Rest())
      case Translating => Translated(xlate[..], source.Rest())
    }

    method Read(buf: array<byte>) returns (n: nat)
      requires Valid() && buf.Length > 0 && buf != xlate
      modifies source, buf
      ensures Valid() && n <= buf.Length
      ensures n == 0 <==> old(Todo()) == []
      ensures old(Todo()) == buf[..n] + Todo()
    {
      match mode
      case Plain => n := source.Read(buf, 0, buf.Length);
      case Deleting => n := ReadAndDelete(buf);
      case Translating => n := ReadAndXlate(buf);
    }

    method ReadAndDelete(buf: array<byte>) returns (saved: nat)
      requires Valid() && buf.Length > 0
      modifies source, buf
      ensures Valid() && saved <= buf.Length
      ensures saved == 0 <==> old(Deleted(inDelete[..], source.Rest())) == []
      ensures old(Deleted(inDelete[..], source.Rest())) == buf[..saved] + Deleted(inDelete[..], source.Rest())
    {
      ghost var table, all := inDelete[..], source.Rest();
      saved := 0;
      while saved == 0
        invariant saved <= buf.Length && source.Valid()
        invariant Deleted(table, all) == buf[..saved] + Deleted(table, source.Rest())
        decreases if saved == 0 then 1 else 0, |source.Rest()|
      {
        ghost var rest := source.Rest();
        var nr := source.Read(buf, 0, buf.Length);
        if nr == 0 {
          return;
        }
        ghost var piece := buf[..nr];
        assert rest == piece + source.Rest();
        DeletedAppend(table, piece, source.Rest());
        saved := Compact(buf, nr);
      }
    }

    /** Moves the bytes of buf[..nr] that survive deletion to the front. */
    method Compact(buf: array<byte>, nr: nat) returns (saved: nat)
      requires Valid() && 0 < nr <= buf.Length
      modifies buf
      ensures saved <= nr && buf[..saved] == Deleted(inDelete[..], old(buf[..nr]))
    {
      hide Deleted;
      ghost var table, piece := inDelete[..], buf[..nr];
      var i := 0;
      DeletedNothing(table, piece);
      while i < nr && !inDelete[buf[i]]
        modifies {}
        invariant i <= nr && Deleted(table, piece[..i]) == piece[..i]
      {
        DeletedSnoc(table, piece, i);
        assert piece[..i + 1] == piece[..i] + [piece[i]];
        i := i + 1;
      }
      saved := i;
      assert buf[..saved] == piece[..i];
      if i == nr {
        assert piece[..i] == piece;
        return;
      }
      DeletedSnoc(table, piece, i);
      i := i + 1;
      while i < nr
        invariant saved < i <= nr
        invariant forall k :: i <= k < nr ==> buf[k] == piece[k]
        invariant buf[..saved] == Deleted(table, piece[..i])
      {
        DeletedSnoc(table, piece, i);
        if !inDelete[buf[i]] {
          ghost var kept := buf[..saved];
          buf[saved] := buf[i];
          assert buf[..saved + 1] == kept + [piece[i]];
          saved := saved + 1;
        }
        i := i + 1;
      }
      assert piece[..nr] == piece;
    }

    method ReadAndXlate(buf: array<byte>) returns (n: nat)
      requires Valid() && buf.Length > 0 && buf != xlate
      modifies source, buf
      ensures Valid() && n <= buf.Length
      ensures n == 0 <==> old(source.Rest()) == []
      ensures old(Translated(xlate[..], source.Rest())) == buf[..n] + Translated(xlate[..], source.Rest())
    {
      n := source.Read(buf, 0, buf.Length);
      ghost var piece := buf[..n];
      var i := 0;
      while i < n
        modifies buf
        invariant i <= n
        invariant forall k :: 0 <= k < i ==> buf[k] == xlate[piece[k]]
        invariant forall k :: i <= k < n ==> buf[k] == piece[k]
      {
        buf[i] := xlate[buf[i]];
        i := i + 1;
      }
    }
  }

  // ----- the step-by-two squeezer -----

  function Min(a: nat, b: nat): nat {
    if a < b then a else b
  }

  /** The buffer holds the stretch of the input that starts at base. */
  ghost predicate Buffered(all: seq<byte>, base: nat, buf: array<byte>, nr: nat)
    reads buf
  {
    nr <= buf.Length && base + nr <= |all| && forall k :: 0 <= k < nr ==> buf[k] == all[base + k]
  }

  /** At position p either a byte is being squeezed and it is the one just passed, or the byte at p is
      certainly kept. */
  ghost predicate ScanState(table: seq<bool>, all: seq<byte>, p: nat, squeezing: Option<byte>)
    requires |table| == 256 && p <= |all|
  {
    match squeezing
    case Some(c) => table[c] && p > 0 && all[p - 1] == c
    case None => p < |all| ==> Kept(table, all, p)
  }

  lemma ScanBegins(table: seq<bool>, all: seq<byte>, buf: array<byte>)
    requires |table| == 256
    ensures Buffered(all, 0, buf, 0) && all[0..] == all
    ensures ScanState(table, all, 0, None) && Squeezed(table, all) == [] + SqueezedFrom(table, all, 0)
  {
  }

  lemma ScanEnds(table: seq<bool>, all: seq<byte>, output: seq<byte>)
    requires |table| == 256
    ensures output + SqueezedFrom(table, all, |all|) == output
  {
  }

  method Refill(input: Input, buf: array<byte>, ghost all: seq<byte>, ghost base: nat) returns (nr: nat)
    requires input.Valid() && buf.Length > 0 && buf != input.xlate
    requires base <= |all| && all[base..] == input.Todo()
    modifies input.source, buf
    ensures base + nr <= |all| && input.Valid() && Buffered(all, base, buf, nr)
    ensures all[base + nr..] == input.Todo()
    ensures nr == 0 <==> base == |all|
  {
    nr := input.Read(buf);
    SplitAt(all, base, buf[..nr], input.Todo());
    assert forall k :: 0 <= k < nr ==> buf[k] == buf[..nr][k];
  }

  /** Writes buf[begin..begin + outLen], all of which is kept. */
  method Append(buf: array<byte>, begin: nat, outLen: nat, written: seq<byte>,
                ghost table: seq<bool>, ghost all: seq<byte>, ghost base: nat)
    returns (output: seq<byte>)
    requires Buffered(all, base, buf, begin + outLen) && |table| == 256
    requires forall k :: base + begin <= k < base + begin + outLen ==> Kept(table, all, k)
    ensures written + SqueezedFrom(table, all, base + begin)
         == output + SqueezedFrom(table, all, base + begin + outLen)
  {
    ghost var from, to := base + begin, base + begin + outLen;
    KeptStretch(table, all, from, to);
    ghost var piece, rest := all[from..to], SqueezedFrom(table, all, to);
    assert written + (piece + rest) == (written + piece) + rest;
    output := written + buf[begin..begin + outLen];
    assert buf[begin..begin + outLen] == piece;
  }

  /** Passes over the bytes equal to the one being squeezed. */
  method SkipRun(buf: array<byte>, start: nat, nr: nat, c: byte,
                 ghost table: seq<bool>, ghost all: seq<byte>, ghost base: nat)
    returns (i: nat)
    requires start <= nr && Buffered(all, base, buf, nr) && |table| == 256
    requires ScanState(table, all, base + start, Some(c))
    ensures start <= i <= nr
    ensures ScanState(table, all, base + i, if i < nr then None else Some(c))
    ensures SqueezedFrom(table, all, base + start) == SqueezedFrom(table, all, base + i)
  {
    i := start;
    while i < nr && buf[i] == c
      invariant start <= i <= nr && ScanState(table, all, base + i, Some(c))
      invariant SqueezedFrom(table, all, base + start) == SqueezedFrom(table, all, base + i)
    {
      i := i + 1;
    }
  }

  /** The scan from buf[begin] with no byte being squeezed: where it stops, how much of the buffer it
      writes, and the byte to squeeze from there on.  The last byte it passes is written unless it repeats
      the one before. */
  method Scan(buf: array<byte>, begin: nat, nr: nat, inSet: array<bool>,
              ghost table: seq<bool>, ghost all: seq<byte>, ghost base: nat)
    returns (i: nat, outLen: nat, squeezing: Option<byte>)
    requires begin < nr && Buffered(all, base, buf, nr) && inSet.Length == 256 && table == inSet[..]
    requires ScanState(table, all, base + begin, None)
    ensures begin < i <= nr + 1 && begin + outLen <= nr
    ensures if squeezing.Some? then i <= nr else i >= nr
    ensures ScanState(table, all, base + Min(i, nr), squeezing)
    ensures forall k :: base + begin <= k < base + begin + outLen ==> Kept(table, all, k)
    ensures SqueezedFrom(table, all, base + begin + outLen) == SqueezedFrom(table, all, base + Min(i, nr))
  {
    i, squeezing := begin, None;
    while i < nr && !inSet[buf[i]]
      invariant begin <= i <= nr + 1
      invariant begin < i ==> i >= begin + 2 && !table[all[base + i - 2]]
      invariant forall k :: base + begin <= k < base + Min(i, nr) ==> Kept(table, all, k)
      decreases nr + 1 - i
    {
      i := i + 2;
    }
    if i == nr && inSet[buf[i - 1]] {
      i := i - 1;
    }
    if i >= nr {
      outLen := nr - begin;
    } else {
      squeezing := Some(buf[i]);
      outLen := i - begin + 1;
      if i > 0 && buf[i - 1] == buf[i] {
        outLen := outLen - 1;
      }
      i := i + 1;
    }
  }

  /** One turn of the loop on a buffer with bytes left at start. */
  method Advance(buf: array<byte>, start: nat, nr: nat, before: Option<byte>, inSet: array<bool>, written: seq<byte>,
                 ghost table: seq<bool>, ghost all: seq<byte>, ghost base: nat)
    returns (i: nat, squeezing: Option<byte>, output: seq<byte>)
    requires start < nr && Buffered(all, base, buf, nr) && inSet.Length == 256 && table == inSet[..]
    requires ScanState(table, all, base + start, before)
    ensures ScanState(table, all, base + Min(i, nr), squeezing)
    ensures squeezing.Some? ==> i == nr
    ensures start < i || (start == i && before.Some? && squeezing == None)
    ensures written + SqueezedFrom(table, all, base + start)
         == output + SqueezedFrom(table, all, base + Min(i, nr))
  {
    i, squeezing, output := start, before, written;
    if squeezing == None {
      var outLen;
      i, outLen, squeezing := Scan(buf, start, nr, inSet, table, all, base);
      output := Append(buf, start, outLen, written, table, all, base);
    }
    if squeezing.Some? {
      i := SkipRun(buf, i, nr, squeezing.value, table, all, base);
      if i < nr {
        squeezing := None;
      }
    }
  }

  /** Copies the input to the returned output, squeezing repeats of members of the set.  While no byte is
      being squeezed, the scan looks at every other byte only. */
  method SqueezeFilter(input: Input, buf: array<byte>, inSet: array<bool>) returns (output: seq<byte>)
    requires input.Valid() && buf.Length > 0 && buf != input.xlate && inSet.Length == 256
    modifies input.source, buf
    ensures output == Squeezed(inSet[..], old(input.Todo()))
  {
    hide SqueezedFrom, Squeezed, ScanState, Kept, Buffered, Deleted, Translated, Input.Todo;
    ghost var table, all := inSet[..], input.Todo();
    ghost var base: nat, p: nat := 0, 0;  // where the buffer's first byte and the scan stand in the whole input
    output := [];
    var squeezing: Option<byte> := None;
    var i, nr := 0, 0;
    ScanBegins(table, all, buf);
    while true
      invariant base + nr <= |all| && input.Valid() && Buffered(all, base, buf, nr)
      invariant all[base + nr..] == input.Todo()
      invariant p == base + Min(i, nr) && (squeezing.Some? ==> i == nr)
      invariant ScanState(table, all, p, squeezing)
      invariant Squeezed(table, all) == output + SqueezedFrom(table, all, p)
      decreases |all| - p, if squeezing.Some? then 1 else 0
    {
      if i >= nr {
        base := base + nr;
        nr := Refill(input, buf, all, base);
        i := 0;
        if nr == 0 {
          break;
        }
      }
      i, squeezing, output := Advance(buf, i, nr, squeezing, inSet, output, table, all, base);
      p := base + Min(i, nr);
    }
    ScanEnds(table, all, output);
  }

  // ----- the one-byte squeezer it is compared with -----

  class SqueezeOperation {
    const squeezeTable: seq<bool>
    var previous: Option<byte>

    constructor (table: seq<bool>)
      requires |table| == 256
      ensures squeezeTable == table && previous == None
    {
      squeezeTable, previous := table, None;
    }

    method Translate(current: byte) returns (next: Option<byte>)
      requires |squeezeTable| == 256
      modifies this
      ensures previous == Some(current)
      ensures next == if squeezeTable[current] && old(previous) == Some(current) then None else Some(current)
    {
      if squeezeTable[current] {
        match previous
        case Some(v) => next := if v == current then None else Some(current);
        case None => next := Some(current);
      } else {
        next := Some(current);
      }
      previous := Some(current);
    }
  }

  function Before(all: seq<byte>, p: nat): Option<byte>
    requires p <= |all|
  {
    if p == 0 then None else Some(all[p - 1])
  }

  method TranslateChunk(buf: array<byte>, length: nat, translator: SqueezeOperation, written: seq<byte>,
                        ghost all: seq<byte>, ghost base: nat)
    returns (output: seq<byte>)
    requires |translator.squeezeTable| == 256 && Buffered(all, base, buf, length)
    requires translator.previous == Before(all, base)
    modifies translator
    ensures translator.previous == Before(all, base + length)
    ensures var table := translator.squeezeTable;
      written + SqueezedFrom(table, all, base) == output + SqueezedFrom(table, all, base + length)
  {
    ghost var table := translator.squeezeTable;
    output := written;
    for k := 0 to length
      invariant translator.previous == Before(all, base + k)
      invariant written + SqueezedFrom(table, all, base) == output + SqueezedFrom(table, all, base + k)
    {
      ghost var p := base + k;
      var translated := translator.Translate(buf[k]);
      if translated.Some? {
        ghost var rest := SqueezedFrom(table, all, p + 1);
        assert output + ([all[p]] + rest) == (output + [all[p]]) + rest;
        output := output + [translated.value];
      }
    }
  }

  /** Runs the one-byte squeezer over a whole input, one buffer after another. */
  method TranslateInput(source: Reader, buf: array<byte>, translator: SqueezeOperation) returns (output: seq<byte>)
    requires source.Valid() && buf.Length > 0
    requires |translator.squeezeTable| == 256 && translator.previous == None
    modifies source, buf, translator
    ensures output == Squeezed(translator.squeezeTable, old(source.Rest()))
  {
    ghost var table, all := translator.squeezeTable, source.Rest();
    ghost var base := 0;
    output := [];
    while true
      invariant source.Valid() && base <= |all| && all[base..] == source.Rest()
      invariant translator.previous == Before(all, base)
      invariant Squeezed(table, all) == output + SqueezedFrom(table, all, base)
      decreases |all| - base
    {
      var length := source.Read(buf, 0, buf.Length);
      if length == 0 {
        break;
      }
      SplitAt(all, base, buf[0..length], source.Rest());
      assert forall k :: 0 <= k < length ==> buf[k] == buf[0..length][k];
      output := TranslateChunk(buf, length, translator, output, all, base);
      base := base + length;
    }
  }
}
