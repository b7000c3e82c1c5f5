/** The protocol in characters: what is written for a frame, and which bytes are read as one. */
module RespLaws {
  import opened Streams
  import Decimal
  import opened RespSpec
  import opened RespEncode
  import opened RespRoundTrip

  // ----- writing -----

  const CRLF := Ascii("\r\n")

  /** What is written for a literal frame. */
  lemma WireFormat(f: Frame)
    requires Sized(f) && !f.Array?
    ensures EncodeValue(f) ==
      match f
      case Simple(text) => Ascii("+") + text + CRLF
      case Error(text) => Ascii("-") + text + CRLF
      case Integer(n) => Ascii(":") + Decimal.Digits(n) + CRLF
      case Null => Ascii("$-1\r\n")
      case Bulk(data) => Ascii("$") + Decimal.Digits(|data|) + CRLF + data + CRLF
  {
    hide Decimal.Digits, DecimalLine;
    Characters();
    match f
    case Integer(n) => LengthLine([COLON], n);
    case Bulk(data) => LengthLine([DOLLAR], |data|);
    case _ =>
  }

  lemma Characters()
    ensures CRLF == [CR, LF] && Ascii("+") == [PLUS] && Ascii("-") == [MINUS] && Ascii(":") == [COLON]
    ensures Ascii("$") == [DOLLAR] && Ascii("*") == [STAR] && Ascii("$-1\r\n") == [DOLLAR, MINUS, 49, CR, LF]
  {
  }

  /** An array is its length and then its items. */
  lemma ArrayFormat(items: seq<Frame>)
    requires Encodable(Array(items)) && Sized(Array(items))
    ensures Encode(Array(items)) == Ascii("*") + Decimal.Digits(|items|) + CRLF + EncodeMany(items)
  {
    hide EncodeMany, Decimal.Digits;
    LengthLine([STAR], |items|);
    Characters();
  }

  /** Each kind of frame has its own first character, and every encoding ends with a line end. */
  lemma FirstAndLast(f: Frame)
    requires Encodable(f) && Sized(f)
    ensures var s := Encode(f);
      && |s| > 2 && s[|s| - 2..] == CRLF
      && s[0] as char == match f
           case Simple(_) => '+'
           case Error(_) => '-'
           case Integer(_) => ':'
           case Bulk(_) => '$'
           case Null => '$'
           case Array(_) => '*'
  {
    hide Decimal.Digits, EncodeValue;
    if f.Array? && f.items != [] {
      LiteralEnds(f.items[|f.items| - 1]);
    } else if !f.Array? {
      LiteralEnds(f);
    } else {
      EncodeNone(f.items);
      assert f.items[..0] == f.items;
    }
  }

  lemma LiteralEnds(f: Frame)
    requires Sized(f) && !f.Array?
    ensures var s := EncodeValue(f);
      && |s| > 2 && s[|s| - 2..] == CRLF
      && s[0] as char == match f
           case Simple(_) => '+'
           case Error(_) => '-'
           case Integer(_) => ':'
           case _ => '$'
  {
    hide Decimal.Digits;
  }

  lemma LengthLine(kind: seq<byte>, n: u64)
    ensures kind + DecimalLine(n) == kind + Decimal.Digits(n) + CRLF
  {
    var ds := Decimal.Digits(n);
    assert CRLF == [CR, LF];
    assert kind + (ds + [CR, LF]) == (kind + ds) + [CR, LF];
  }

  // ----- reading -----

  predicate CharAt(b: seq<byte>, i: nat, c: char) {
    i < |b| && b[i] as char == c
  }

  /** A carriage return and a line feed. */
  predicate EndsLine(b: seq<byte>, i: nat) {
    CharAt(b, i, '\r') && CharAt(b, i + 1, '\n')
  }

  /** The line that begins at p ends at e. */
  predicate LineTo(b: seq<byte>, p: nat, e: nat) {
    p <= e && EndsLine(b, e) && forall j: nat :: p <= j < e ==> !EndsLine(b, j)
  }

  /** The bytes from p up to q are a frame, its line ending at e. */
  ghost predicate Denotes(env: Env, b: seq<byte>, p: nat, q: nat, f: Frame, e: nat)
    decreases f, 0
  {
    && p < |b| && LineTo(b, p + 1, e)
    && var line := b[p + 1..e];
      match f
      case Simple(text) => CharAt(b, p, '+') && q == e + 2 && line == text && env.utf8(text)
      case Error(text) => CharAt(b, p, '-') && q == e + 2 && line == text && env.utf8(text)
      case Integer(n) => CharAt(b, p, ':') && q == e + 2 && env.atoi(line) == Some(n)
      case Null => CharAt(b, p, '$') && q == e + 2 && line == Ascii("-1")
      case Bulk(data) =>
        && CharAt(b, p, '$') && !CharAt(b, p + 1, '-') && HasNumber(env, line, |data|)
        && q == e + |data| + 4 <= |b| && b[e + 2..q - 2] == data
      case Array(items) => CharAt(b, p, '*') && HasNumber(env, line, |items|) && DenoteItems(env, b, e + 2, q, items)
  }

  ghost predicate HasNumber(env: Env, line: seq<byte>, n: nat) {
    env.atoi(line).Some? && n == env.atoi(line).value
  }

  ghost predicate IsFrame(env: Env, b: seq<byte>, p: nat, q: nat, f: Frame)
    decreases f, 1
  {
    exists e: nat :: Denotes(env, b, p, q, f, e)
  }

  /** The bytes from p up to q are frames, one behind the other. */
  ghost predicate DenoteItems(env: Env, b: seq<byte>, p: nat, q: nat, items: seq<Frame>)
    decreases items, 2
  {
    if items == [] then p == q
    else exists r: nat :: IsFrame(env, b, p, r, items[0]) && DenoteItems(env, b, r, q, items[1..])
  }

  lemma LineIsUnique(b: seq<byte>, p: nat, e: nat)
    requires p <= |b|
    ensures LineTo(b, p, e) <==> e < |b| && e == LineEnd(b, p)
    ensures LineTo(b, p, e) ==> GetLine(b, p) == Ok(b[p..e], e + 2)
  {
    hide LineEnd;
    var i := LineEnd(b, p);
    forall j: nat
      ensures EndsLine(b, j) == CrLfAt(b, j)
    {
    }
  }

  lemma NoLine(b: seq<byte>, p: nat)
    requires p <= |b| && !GetLine(b, p).Ok?
    ensures forall e: nat :: !LineTo(b, p, e)
  {
    forall e: nat
      ensures !LineTo(b, p, e)
    {
      LineIsUnique(b, p, e);
    }
  }

  /** The bytes that are read as a frame. */
  lemma {:induction false} ParseIsDenoting(env: Env, b: seq<byte>, p: nat, q: nat, f: Frame)
    requires p <= |b|
    ensures Parse(env, b, p) == Ok(f, q) <==> IsFrame(env, b, p, q, f)
    decreases |b| - p, 2
  {
    if p < |b| {
      if GetLine(b, p + 1).Ok? {
        var start, e := p + 1, LineEnd(b, p + 1);
        LineIsUnique(b, start, e);
        AtLine(env, b, p, q, f, e);
        assert IsFrame(env, b, p, q, f) <==> Denotes(env, b, p, q, f, e) by {
          forall e': nat
            ensures LineTo(b, start, e') ==> e' == e
          {
            LineIsUnique(b, start, e');
          }
        }
      } else {
        NoLine(b, p + 1);
      }
    }
  }

  lemma AtLine(env: Env, b: seq<byte>, p: nat, q: nat, f: Frame, e: nat)
    requires p < |b| && e == LineEnd(b, p + 1) && GetLine(b, p + 1) == Ok(b[p + 1..e], e + 2) && LineTo(b, p + 1, e)
    ensures Parse(env, b, p) == Ok(f, q) <==> Denotes(env, b, p, q, f, e)
    decreases |b| - p, 1
  {
    hide GetLine, LineEnd;
    var len := env.atoi(b[p + 1..e]);
    if len.Some? && f.Array? {
      ParseManyIsDenoting(env, b, e + 2, len.value, q, f.items);
    }
  }

  lemma {:induction false} ParseManyIsDenoting(env: Env, b: seq<byte>, p: nat, n: nat, q: nat, items: seq<Frame>)
    requires p <= |b|
    ensures ParseMany(env, b, p, n) == Ok(items, q) <==> |items| == n && DenoteItems(env, b, p, q, items)
    decreases |b| - p, 3
  {
    hide Parse, IsFrame;
    if n > 0 && items != [] {
      var first := Parse(env, b, p);
      forall r: nat
        ensures IsFrame(env, b, p, r, items[0]) <==> first == Ok(items[0], r)
      {
        ParseIsDenoting(env, b, p, r, items[0]);
      }
      if first.Ok? {
        ParseManyIsDenoting(env, b, first.next, n - 1, q, items[1..]);
        ManyStep(env, b, p, items);
      }
    }
  }

  /** A stream that is not empty begins with a frame, followed by the rest, exactly where its bytes denote one. */
  lemma ReadOneIsFrame(env: Env, s: seq<byte>, f: Frame, rest: seq<byte>)
    ensures ReadOne(env, s) == Got(f, rest) <==> exists q: nat :: q <= |s| && IsFrame(env, s, 0, q, f) && rest == s[q..]
    ensures ReadOne(env, s) == Closed <==> s == []
  {
    hide Parse, Check, IsFrame;
    ParsedIsChecked(env, s, 0);
    forall q: nat
      ensures IsFrame(env, s, 0, q, f) <==> Parse(env, s, 0) == Ok(f, q)
    {
      ParseIsDenoting(env, s, 0, q, f);
    }
    NothingParsed(env, s);
    var r := Parse(env, s, 0);
    if r.Ok? && r.value == f {
      assert IsFrame(env, s, 0, r.next, f);
    }
  }

  lemma NothingParsed(env: Env, s: seq<byte>)
    ensures s == [] ==> Parse(env, s, 0) == Incomplete
  {
  }

  /** A byte that begins no frame is an error at once, and so is a length or number that is none. */
  lemma Malformations(env: Env, b: seq<byte>, p: nat, e: nat)
    requires p < |b|
    ensures b[p] as char !in "+-:$*" ==> Check(env, b, p) == Malformed && Parse(env, b, p) == Malformed
    ensures b[p] as char in ":$*" && !CharAt(b, p + 1, '-') && LineTo(b, p + 1, e) && env.atoi(b[p + 1..e]) == None ==>
      Check(env, b, p) == Malformed && Parse(env, b, p) == Malformed
  {
    LineIsUnique(b, p + 1, e);
  }
}
