/** Frames of the Redis protocol in a byte string: where they end and what they hold. */
module RespSpec {
  import opened Streams

  const CR: byte := 13
  const LF: byte := 10
  const PLUS: byte := 43
  const MINUS: byte := 45
  const COLON: byte := 58
  const DOLLAR: byte := 36
  const STAR: byte := 42

  type u64 = n: nat | n < 0x1_0000_0000_0000_0000

  datatype Frame =
    | Simple(text: seq<byte>)
    | Error(text: seq<byte>)
    | Integer(n: u64)
    | Bulk(data: seq<byte>)
    | Null
    | Array(items: seq<Frame>)

  /** The library calls: whether bytes are UTF-8, and the number that a line begins with. */
  datatype Env = Env(utf8: seq<byte> -> bool, atoi: seq<byte> -> Option<u64>)

  /** A value and the position behind it; not enough bytes; or a malformed message. */
  datatype Result<+T> = Ok(value: T, next: nat) | Incomplete | Malformed

  // ----- lines -----

  predicate CrLfAt(b: seq<byte>, i: nat) {
    i + 1 < |b| && b[i] == CR && b[i + 1] == LF
  }

  /** The first CR LF from p on, or the length if there is none. */
  function LineEnd(b: seq<byte>, p: nat): (i: nat)
    requires p <= |b|
    ensures p <= i <= |b| && (i < |b| ==> CrLfAt(b, i))
    ensures forall j :: p <= j < i ==> !CrLfAt(b, j)
    decreases |b| - p
  {
    if p == |b| || CrLfAt(b, p) then p else LineEnd(b, p + 1)
  }

  function GetLine(b: seq<byte>, p: nat): (r: Result<seq<byte>>)
    requires p <= |b|
    ensures r != Malformed
    ensures r.Ok? ==> p + 2 <= r.next <= |b|
  {
    var i := LineEnd(b, p);
    if i < |b| then Ok(b[p..i], i + 2) else Incomplete
  }

  function GetDecimal(env: Env, b: seq<byte>, p: nat): (r: Result<u64>)
    requires p <= |b|
    ensures r.Ok? ==> p + 2 <= r.next <= |b|
  {
    match GetLine(b, p)
    case Ok(line, next) =>
      (match env.atoi(line)
       case Some(n) => Ok(n, next)
       case None => Malformed)
    case _ => Incomplete
  }

  function Skip(b: seq<byte>, p: nat, n: nat): (r: Result<()>)
    requires p <= |b|
  {
    if |b| - p < n then Incomplete else Ok((), p + n)
  }

  // ----- frames -----

  function Behind<T>(r: Result<T>): Result<()> {
    match r
    case Ok(_, next) => Ok((), next)
    case Incomplete => Incomplete
    case Malformed => Malformed
  }

  /** Whether a frame begins at p, and where it ends, its contents only skipped over. */
  function Check(env: Env, b: seq<byte>, p: nat): (r: Result<()>)
    requires p <= |b|
    ensures r.Ok? ==> p < r.next <= |b|
    decreases |b| - p, 0
  {
    if p == |b| then Incomplete
    else if b[p] == PLUS || b[p] == MINUS then Behind(GetLine(b, p + 1))
    else if b[p] == COLON then Behind(GetDecimal(env, b, p + 1))
    else if b[p] == DOLLAR then CheckBulk(env, b, p + 1)
    else if b[p] == STAR then
      match GetDecimal(env, b, p + 1)
      case Ok(len, next) => CheckMany(env, b, next, len)
      case r => Behind(r)
    else Malformed
  }

  function CheckBulk(env: Env, b: seq<byte>, p: nat): (r: Result<()>)
    requires p <= |b|
    ensures r.Ok? ==> p < r.next <= |b|
  {
    if p == |b| then Incomplete
    else if b[p] == MINUS then Skip(b, p, 4)
    else
      match GetDecimal(env, b, p)
      case Ok(len, next) => Skip(b, next, len + 2)
      case r => Behind(r)
  }

  function CheckMany(env: Env, b: seq<byte>, p: nat, n: nat): (r: Result<()>)
    requires p <= |b|
    ensures r.Ok? ==> p <= r.next <= |b|
    decreases |b| - p, 1
  {
    if n == 0 then Ok((), p)
    else
      match Check(env, b, p)
      case Ok(_, next) => CheckMany(env, b, next, n - 1)
      case r => r
  }

  /** The frame at p.  Only asked where Check has found one. */
  function Parse(env: Env, b: seq<byte>, p: nat): (r: Result<Frame>)
    requires p <= |b|
    ensures r.Ok? ==> p < r.next <= |b|
    decreases |b| - p, 0
  {
    if p == |b| then Incomplete
    else if b[p] == PLUS then ParseText(env, b, p + 1, t => Simple(t))
    else if b[p] == MINUS then ParseText(env, b, p + 1, t => Error(t))
    else if b[p] == COLON then
      match GetDecimal(env, b, p + 1)
      case Ok(n, next) => Ok(Integer(n), next)
      case Incomplete => Incomplete
      case Malformed => Malformed
    else if b[p] == DOLLAR then ParseBulk(env, b, p + 1)
    else if b[p] == STAR then
      match GetDecimal(env, b, p + 1)
      case Ok(len, next) =>
        (match ParseMany(env, b, next, len)
         case Ok(items, next') => Ok(Array(items), next')
         case Incomplete => Incomplete
         case Malformed => Malformed)
      case Incomplete => Incomplete
      case Malformed => Malformed
    else Malformed
  }

  function ParseText(env: Env, b: seq<byte>, p: nat, make: seq<byte> -> Frame): (r: Result<Frame>)
    requires p <= |b|
    ensures r.Ok? ==> p < r.next <= |b|
  {
    match GetLine(b, p)
    case Ok(line, next) => if env.utf8(line) then Ok(make(line), next) else Malformed
    case _ => Incomplete
  }

  function ParseBulk(env: Env, b: seq<byte>, p: nat): (r: Result<Frame>)
    requires p <= |b|
    ensures r.Ok? ==> p < r.next <= |b|
  {
    if p == |b| then Incomplete
    else if b[p] == MINUS then
      match GetLine(b, p)
      case Ok(line, next) => if line == [MINUS, 49] then Ok(Null, next) else Malformed
      case _ => Incomplete
    else
      match GetDecimal(env, b, p)
      case Ok(len, next) =>
        if |b| - next < len + 2 then Incomplete else Ok(Bulk(b[next..next + len]), next + len + 2)
      case Incomplete => Incomplete
      case Malformed => Malformed
  }

  function ParseMany(env: Env, b: seq<byte>, p: nat, n: nat): (r: Result<seq<Frame>>)
    requires p <= |b|
    ensures r.Ok? ==> p <= r.next <= |b|
    decreases |b| - p, 1
  {
    if n == 0 then Ok([], p)
    else
      match Parse(env, b, p)
      case Ok(frame, next) => Prepend([frame], ParseMany(env, b, next, n - 1))
      case Incomplete => Incomplete
      case Malformed => Malformed
  }

  function Prepend(frames: seq<Frame>, r: Result<seq<Frame>>): Result<seq<Frame>> {
    if r.Ok? then Ok(frames + r.value, r.next) else r
  }

  // ----- appending bytes -----

  /** b' is b with bytes appended. */
  predicate Extends(b: seq<byte>, b': seq<byte>) {
    |b| <= |b'| && forall i :: 0 <= i < |b| ==> b'[i] == b[i]
  }

  /** What is known about a longer buffer: an answer that is not Incomplete stays, and a value that ends
      within the shorter buffer was found there already. */
  predicate Stable<T(==)>(b: seq<byte>, r: Result<T>, r': Result<T>) {
    && (r == Incomplete || r' == r)
    && (r'.Ok? && r'.next <= |b| ==> r == r')
  }

  lemma LineStable(b: seq<byte>, b': seq<byte>, p: nat)
    requires Extends(b, b') && p <= |b|
    ensures Stable(b, GetLine(b, p), GetLine(b', p))
  {
    hide LineEnd;
    var i, i' := LineEnd(b, p), LineEnd(b', p);
    assert i < |b| ==> CrLfAt(b', i);
    assert i' + 2 <= |b| && i' < |b'| ==> CrLfAt(b, i');
    if i < |b| || (i' < |b'| && i' + 2 <= |b|) {
      assert i == i';
      assert b[p..i] == b'[p..i];
    }
  }

  lemma DecimalStable(env: Env, b: seq<byte>, b': seq<byte>, p: nat)
    requires Extends(b, b') && p <= |b|
    ensures Stable(b, GetDecimal(env, b, p), GetDecimal(env, b', p))
  {
    hide GetLine;
    LineStable(b, b', p);
  }

  lemma CheckBulkStable(env: Env, b: seq<byte>, b': seq<byte>, p: nat)
    requires Extends(b, b') && p <= |b|
    ensures Stable(b, CheckBulk(env, b, p), CheckBulk(env, b', p))
  {
    hide GetDecimal;
    DecimalStable(env, b, b', p);
  }

  lemma ParseBulkStable(env: Env, b: seq<byte>, b': seq<byte>, p: nat)
    requires Extends(b, b') && p <= |b|
    ensures Stable(b, ParseBulk(env, b, p), ParseBulk(env, b', p))
  {
    hide GetDecimal, GetLine;
    DecimalStable(env, b, b', p);
    LineStable(b, b', p);
    if GetDecimal(env, b, p).Ok? {
      var len: nat := GetDecimal(env, b, p).value;
      var next := GetDecimal(env, b, p).next;
      assert |b| - next >= len + 2 ==> b[next..next + len] == b'[next..next + len];
    }
  }

  lemma {:induction false} CheckStable(env: Env, b: seq<byte>, b': seq<byte>, p: nat)
    requires Extends(b, b') && p <= |b|
    ensures Stable(b, Check(env, b, p), Check(env, b', p))
    decreases |b| - p, 0
  {
    hide GetDecimal, GetLine, CheckBulk, CheckMany;
    if p < |b| {
      LineStable(b, b', p + 1);
      DecimalStable(env, b, b', p + 1);
      CheckBulkStable(env, b, b', p + 1);
      var len := GetDecimal(env, b, p + 1);
      if len.Ok? {
        CheckManyStable(env, b, b', len.next, len.value);
      }
    }
  }

  lemma {:induction false} CheckManyStable(env: Env, b: seq<byte>, b': seq<byte>, p: nat, n: nat)
    requires Extends(b, b') && p <= |b|
    ensures Stable(b, CheckMany(env, b, p, n), CheckMany(env, b', p, n))
    decreases |b| - p, 1
  {
    hide Check;
    if n > 0 {
      CheckStable(env, b, b', p);
      var r := Check(env, b, p);
      if r.Ok? {
        CheckManyStable(env, b, b', r.next, n - 1);
      }
    }
  }

  lemma {:induction false} ParseStable(env: Env, b: seq<byte>, b': seq<byte>, p: nat)
    requires Extends(b, b') && p <= |b|
    ensures Stable(b, Parse(env, b, p), Parse(env, b', p))
    decreases |b| - p, 0
  {
    hide GetDecimal, GetLine, ParseBulk, ParseMany;
    if p < |b| {
      LineStable(b, b', p + 1);
      DecimalStable(env, b, b', p + 1);
      ParseBulkStable(env, b, b', p + 1);
      var len := GetDecimal(env, b, p + 1);
      if len.Ok? {
        ParseManyStable(env, b, b', len.next, len.value);
      }
    }
  }

  lemma {:induction false} ParseManyStable(env: Env, b: seq<byte>, b': seq<byte>, p: nat, n: nat)
    requires Extends(b, b') && p <= |b|
    ensures Stable(b, ParseMany(env, b, p, n), ParseMany(env, b', p, n))
    decreases |b| - p, 1
  {
    hide Parse;
    if n > 0 {
      ParseStable(env, b, b', p);
      var r := Parse(env, b, p);
      if r.Ok? {
        ParseManyStable(env, b, b', r.next, n - 1);
      }
    }
  }

  // ----- checking and parsing -----

  /** A frame that is parsed has been seen by the check, and ends where the check says. */
  lemma {:induction false} ParsedIsChecked(env: Env, b: seq<byte>, p: nat)
    requires p <= |b|
    ensures Parse(env, b, p).Ok? ==> Check(env, b, p) == Ok((), Parse(env, b, p).next)
    decreases |b| - p, 0
  {
    hide GetDecimal, GetLine, ParseMany, CheckMany;
    if p < |b| {
      if p + 1 < |b| {
        NullLine(b, p + 1);
      }
      var len := GetDecimal(env, b, p + 1);
      if len.Ok? {
        ParsedAreChecked(env, b, len.next, len.value);
      }
    }
  }

  lemma NullLine(b: seq<byte>, p: nat)
    requires p <= |b|
    ensures GetLine(b, p).Ok? ==> GetLine(b, p).next == p + |GetLine(b, p).value| + 2
  {
  }

  lemma {:induction false} ParsedAreChecked(env: Env, b: seq<byte>, p: nat, n: nat)
    requires p <= |b|
    ensures ParseMany(env, b, p, n).Ok? ==> CheckMany(env, b, p, n) == Ok((), ParseMany(env, b, p, n).next)
    decreases |b| - p, 1
  {
    hide Parse, Check;
    if n > 0 {
      ParsedIsChecked(env, b, p);
      var r := Parse(env, b, p);
      if r.Ok? {
        ParsedAreChecked(env, b, r.next, n - 1);
      }
    }
  }

  /** A null that is begun at k but whose line does not end. */
  predicate OpenNull(b: seq<byte>, k: nat) {
    k + 1 < |b| && b[k] == DOLLAR && b[k + 1] == MINUS && GetLine(b, k + 1) == Incomplete
  }

  /** Where the check was satisfied, parsing lacks bytes only in a null, which the check skips unseen. */
  lemma {:induction false} OnlyNullLacksBytes(env: Env, b: seq<byte>, p: nat) returns (k: nat)
    requires p <= |b| && Check(env, b, p).Ok? && Parse(env, b, p) == Incomplete
    ensures p <= k && OpenNull(b, k)
    decreases |b| - p, 0
  {
    hide GetLine, GetDecimal, CheckMany, ParseMany;
    if b[p] == STAR {
      var len := GetDecimal(env, b, p + 1);
      k := OneNullLacksBytes(env, b, len.next, len.value);
    } else {
      k := p;
    }
  }

  lemma {:induction false} OneNullLacksBytes(env: Env, b: seq<byte>, p: nat, n: nat) returns (k: nat)
    requires p <= |b| && CheckMany(env, b, p, n).Ok? && ParseMany(env, b, p, n) == Incomplete
    ensures p <= k && OpenNull(b, k)
    decreases |b| - p, 1
  {
    hide Check, Parse, GetLine;
    ParsedIsChecked(env, b, p);
    if Parse(env, b, p).Ok? {
      k := OneNullLacksBytes(env, b, Parse(env, b, p).next, n - 1);
    } else {
      k := OnlyNullLacksBytes(env, b, p);
    }
  }

  // ----- a stream of frames -----

  /** A frame and the bytes behind it; a clean end; or an error. */
  datatype FrameRead = Got(frame: Frame, rest: seq<byte>) | Closed | Failed

  /** The next frame of a stream of which all is known. */
  function ReadOne(env: Env, s: seq<byte>): (r: FrameRead)
    ensures r.Got? ==> |r.rest| < |s|
  {
    if s == [] then Closed
    else
      match Check(env, s, 0)
      case Ok(_, next) =>
        var f := Parse(env, s, 0);
        if f.Ok? then Got(f.value, s[next..]) else Failed
      case _ => Failed
  }

  /** All frames of a stream, and whether it ends cleanly. */
  function Frames(env: Env, s: seq<byte>): (r: (seq<Frame>, bool))
    decreases |s|
  {
    match ReadOne(env, s)
    case Got(frame, rest) => ([frame] + Frames(env, rest).0, Frames(env, rest).1)
    case Closed => ([], true)
    case Failed => ([], false)
  }

  /** A buffer whose check gives an answer gives the same answer however much follows, and parsing it fails
      now or then. */
  lemma ReadFromPrefix(env: Env, b: seq<byte>, s: seq<byte>)
    requires Check(env, b, 0) != Incomplete
    ensures ReadOne(env, b + s) ==
      var f := Parse(env, b, 0);
      if Check(env, b, 0).Ok? && f.Ok? then Got(f.value, b[f.next..] + s) else Failed
  {
    hide Check, Parse;
    CheckNothing(env, b);
    CheckStable(env, b, b + s, 0);
    ParseStable(env, b, b + s, 0);
    ParsedIsChecked(env, b, 0);
    ParsedIsChecked(env, b + s, 0);
    var c := Check(env, b, 0);
    if c.Ok? {
      assert (b + s)[c.next..] == b[c.next..] + s;
    }
  }

  lemma CheckNothing(env: Env, b: seq<byte>)
    ensures b == [] ==> Check(env, b, 0) == Incomplete
  {
  }
}
