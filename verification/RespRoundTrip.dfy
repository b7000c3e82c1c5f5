/** Reading back what has been written. */
module RespRoundTrip {
  import opened Streams
  import Decimal
  import opened RespSpec
  import opened RespEncode

  /** No CR LF inside. */
  predicate IsLine(text: seq<byte>) {
    forall i :: 0 <= i < |text| ==> !CrLfAt(text, i)
  }

  /** The simple and error strings of a frame are lines. */
  predicate TextsAreLines(f: Frame) {
    match f
    case Simple(text) => IsLine(text)
    case Error(text) => IsLine(text)
    case Array(items) => forall i :: 0 <= i < |items| ==> TextsAreLines(items[i])
    case _ => true
  }

  /** Strings are UTF-8. */
  predicate TextsAreUtf8(env: Env, f: Frame) {
    match f
    case Simple(text) => env.utf8(text)
    case Error(text) => env.utf8(text)
    case Array(items) => forall i :: 0 <= i < |items| ==> TextsAreUtf8(env, items[i])
    case _ => true
  }

  /** A frame as the program holds it: strings are UTF-8 and lengths are machine words; only literals are nested. */
  predicate Proper(env: Env, f: Frame) {
    Encodable(f) && Sized(f) && TextsAreUtf8(env, f)
  }

  /** Machine words in decimal are read as what they are. */
  ghost predicate ReadsDecimals(env: Env) {
    forall n: u64 :: env.atoi(Decimal.Digits(n)) == Some(n)
  }

  /** The bytes s stand at p. */
  predicate Has(b: seq<byte>, p: nat, s: seq<byte>) {
    p + |s| <= |b| && b[p..p + |s|] == s
  }

  lemma HasParts(b: seq<byte>, p: nat, s: seq<byte>, t: seq<byte>)
    requires Has(b, p, s + t)
    ensures Has(b, p, s) && Has(b, p + |s|, t)
  {
    var st := b[p..p + |s + t|];
    assert st[..|s|] == s && st[|s|..] == t;
    assert b[p..p + |s|] == st[..|s|] && b[p + |s|..p + |s| + |t|] == st[|s|..];
  }

  /** A text followed by CR LF is read as a line exactly if it contains no CR LF. */
  lemma LineRoundTrip(b: seq<byte>, p: nat, text: seq<byte>)
    requires Has(b, p, text + [CR, LF])
    ensures var r := GetLine(b, p);
      r.Ok? && (if IsLine(text) then r == Ok(text, p + |text| + 2) else |r.value| < |text|)
  {
    hide IsLine, Has;
    var n, line := |text|, text + [CR, LF];
    HasAt(b, p, line);
    var e := LineEnd(b, p);
    assert CrLfAt(line, n) && CrLfAt(b, p + n) && e <= p + n;
    CrLfBefore(text, e - p);
    HasParts(b, p, text, [CR, LF]);
    if IsLine(text) {
      LineHasNone(text, e - p);
      HasCrLf(b, p, line, e);
      HasSlice(b, p, text);
    } else {
      var i := LineEndsEarly(text);
      assert CrLfAt(line, i) && CrLfAt(b, p + i);
    }
  }

  lemma HasAt(b: seq<byte>, p: nat, s: seq<byte>)
    requires Has(b, p, s)
    ensures p + |s| <= |b| && forall i :: 0 <= i < |s| - 1 ==> CrLfAt(b, p + i) == CrLfAt(s, i)
  {
  }

  lemma HasCrLf(b: seq<byte>, p: nat, s: seq<byte>, k: nat)
    requires Has(b, p, s) && p <= k
    ensures k - p < |s| - 1 ==> CrLfAt(b, k) == CrLfAt(s, k - p)
  {
  }

  lemma HasSlice(b: seq<byte>, p: nat, s: seq<byte>)
    requires Has(b, p, s)
    ensures p + |s| <= |b| && b[p..p + |s|] == s
  {
  }

  lemma CrLfBefore(text: seq<byte>, i: nat)
    ensures i < |text| ==> CrLfAt(text + [CR, LF], i) == CrLfAt(text, i)
  {
  }

  lemma LineHasNone(text: seq<byte>, i: nat)
    requires IsLine(text)
    ensures i < |text| ==> !CrLfAt(text, i)
  {
  }

  lemma LineEndsEarly(text: seq<byte>) returns (i: nat)
    requires !IsLine(text)
    ensures i < |text| && CrLfAt(text, i) && CrLfAt(text + [CR, LF], i)
  {
    i :| i < |text| && CrLfAt(text, i);
  }

  lemma DigitsAreLine(n: u64)
    ensures IsLine(Decimal.Digits(n))
  {
  }

  lemma DecimalRoundTrip(env: Env, b: seq<byte>, p: nat, n: u64)
    requires ReadsDecimals(env) && Has(b, p, DecimalLine(n))
    ensures GetDecimal(env, b, p) == Ok(n, p + |DecimalLine(n)|)
  {
    hide GetLine;
    DigitsAreLine(n);
    LineRoundTrip(b, p, Decimal.Digits(n));
  }

  /** A frame is read back, or else something else is read. */
  ghost predicate ReadBack(r: Result<Frame>, f: Frame, end: nat) {
    if TextsAreLines(f) then r == Ok(f, end) else r.Ok? ==> r.value != f
  }

  lemma TextRoundTrip(env: Env, b: seq<byte>, p: nat, kind: byte, text: seq<byte>)
    requires env.utf8(text) && Has(b, p, [kind] + text + [CR, LF])
    ensures kind == PLUS ==> ReadBack(Parse(env, b, p), Simple(text), p + |[kind] + text + [CR, LF]|)
    ensures kind == MINUS ==> ReadBack(Parse(env, b, p), Error(text), p + |[kind] + text + [CR, LF]|)
  {
    hide GetLine, IsLine, GetDecimal, Has;
    assert [kind] + text + [CR, LF] == [kind] + (text + [CR, LF]);
    HasParts(b, p, [kind], text + [CR, LF]);
    HasFirst(b, p, kind);
    LineRoundTrip(b, p + 1, text);
  }

  lemma IntegerRoundTrip(env: Env, b: seq<byte>, p: nat, n: u64)
    requires ReadsDecimals(env) && Has(b, p, [COLON] + DecimalLine(n))
    ensures Parse(env, b, p) == Ok(Integer(n), p + |[COLON] + DecimalLine(n)|)
  {
    hide GetDecimal, ReadsDecimals, DecimalLine, Has;
    HasParts(b, p, [COLON], DecimalLine(n));
    HasFirst(b, p, COLON);
    DecimalRoundTrip(env, b, p + 1, n);
  }

  lemma ValueRoundTrip(env: Env, b: seq<byte>, p: nat, f: Frame)
    requires ReadsDecimals(env) && Proper(env, f) && !f.Array? && Has(b, p, EncodeValue(f))
    ensures ReadBack(Parse(env, b, p), f, p + |EncodeValue(f)|)
  {
    hide Parse, IsLine, ReadsDecimals, Has, DecimalLine;
    match f
    case Simple(text) => TextRoundTrip(env, b, p, PLUS, text);
    case Error(text) => TextRoundTrip(env, b, p, MINUS, text);
    case Integer(n) => IntegerRoundTrip(env, b, p, n);
    case Null => NullRoundTrip(env, b, p);
    case Bulk(data) => BulkRoundTrip(env, b, p, data);
  }

  lemma HasFirst(b: seq<byte>, p: nat, c: byte)
    requires Has(b, p, [c])
    ensures p < |b| && b[p] == c
  {
  }

  lemma NullRoundTrip(env: Env, b: seq<byte>, p: nat)
    requires Has(b, p, [DOLLAR, MINUS, 49, CR, LF])
    ensures Parse(env, b, p) == Ok(Null, p + 5)
  {
    hide GetLine, GetDecimal;
    assert [DOLLAR, MINUS, 49, CR, LF] == [DOLLAR] + ([MINUS, 49] + [CR, LF]);
    HasParts(b, p, [DOLLAR], [MINUS, 49] + [CR, LF]);
    LineRoundTrip(b, p + 1, [MINUS, 49]);
    assert b[p..p + 1][0] == DOLLAR && b[p + 1..p + 1 + 4][0] == MINUS;
    assert ParseBulk(env, b, p + 1) == Ok(Null, p + 5);
  }

  lemma BulkRoundTrip(env: Env, b: seq<byte>, p: nat, data: seq<byte>)
    requires ReadsDecimals(env) && |data| < 0x1_0000_0000_0000_0000
    requires Has(b, p, [DOLLAR] + DecimalLine(|data|) + data + [CR, LF])
    ensures Parse(env, b, p) == Ok(Bulk(data), p + |[DOLLAR] + DecimalLine(|data|) + data + [CR, LF]|)
  {
    hide GetLine, GetDecimal, ReadsDecimals, ParseBulk, Has, DecimalLine;
    var line := DecimalLine(|data|);
    assert [DOLLAR] + line + data + [CR, LF] == [DOLLAR] + (line + (data + [CR, LF]));
    HasParts(b, p, [DOLLAR], line + (data + [CR, LF]));
    HasFirst(b, p, DOLLAR);
    HasParts(b, p + 1, line, data + [CR, LF]);
    HasParts(b, p + 1 + |line|, data, [CR, LF]);
    HasSlice(b, p + 1 + |line|, data);
    HasSlice(b, p + 1 + |line| + |data|, [CR, LF]);
    DecimalRoundTrip(env, b, p + 1, |data|);
    LineBeginsWithDigit(b, p + 1, |data|);
    BulkParsed(env, b, p + 1, |data|, p + 1 + |line|);
  }

  lemma LineBeginsWithDigit(b: seq<byte>, p: nat, n: u64)
    requires Has(b, p, DecimalLine(n))
    ensures p < |b| && b[p] != MINUS
  {
  }

  lemma BulkParsed(env: Env, b: seq<byte>, p: nat, len: u64, next: nat)
    requires p < |b| && b[p] != MINUS && GetDecimal(env, b, p) == Ok(len, next)
    ensures var n: nat := len;
      next + n + 2 <= |b| ==> ParseBulk(env, b, p) == Ok(Bulk(b[next..next + n]), next + n + 2)
  {
  }

  // ----- arrays -----

  ghost predicate AllLines(items: seq<Frame>) {
    forall i :: 0 <= i < |items| ==> TextsAreLines(items[i])
  }

  ghost predicate AllProper(env: Env, items: seq<Frame>) {
    forall i :: 0 <= i < |items| ==> Proper(env, items[i]) && !items[i].Array?
  }

  lemma {:induction false} EncodeFirst(env: Env, items: seq<Frame>)
    requires items != [] && AllProper(env, items)
    ensures EncodeMany(items) == EncodeValue(items[0]) + EncodeMany(items[1..])
    decreases |items|
  {
    hide EncodeValue, Proper;
    ProperItems(env, items);
    var n := |items| - 1;
    var init := items[..n];
    if n == 0 {
      assert items[1..] == [] && EncodeMany(init) == [];
      assert [] + EncodeValue(items[0]) == EncodeValue(items[0]) + [];
    } else {
      EncodeFirst(env, init);
      assert items[1..][..n - 1] == init[1..] && items[1..][n - 1] == items[n];
      assert (EncodeValue(items[0]) + EncodeMany(init[1..])) + EncodeValue(items[n])
          == EncodeValue(items[0]) + (EncodeMany(init[1..]) + EncodeValue(items[n]));
    }
  }

  lemma ProperItems(env: Env, items: seq<Frame>)
    requires AllProper(env, items)
    ensures forall i :: 0 <= i < |items| ==> !items[i].Array? && Sized(items[i])
  {
  }

  lemma {:induction false} ManyRoundTrip(env: Env, b: seq<byte>, p: nat, items: seq<Frame>)
    requires ReadsDecimals(env) && AllProper(env, items)
    requires Has(b, p, EncodeMany(items))
    ensures
      var r := ParseMany(env, b, p, |items|);
      if AllLines(items) then r == Ok(items, p + |EncodeMany(items)|) else r.Ok? ==> r.value != items
    decreases |items|
  {
    hide Parse, EncodeValue, EncodeMany, ReadsDecimals, Proper, TextsAreLines;
    ProperItems(env, items);
    if items == [] {
      EncodeNone(items);
      assert items[..0] == items;
    } else {
      EncodeFirst(env, items);
      HasParts(b, p, EncodeValue(items[0]), EncodeMany(items[1..]));
      ValueRoundTrip(env, b, p, items[0]);
      var q := p + |EncodeValue(items[0])|;
      assert items == [items[0]] + items[1..];
      assert AllLines(items) <==> TextsAreLines(items[0]) && AllLines(items[1..]);
      ManyRoundTrip(env, b, q, items[1..]);
      ManyStep(env, b, p, items);
    }
  }

  lemma ManyStep(env: Env, b: seq<byte>, p: nat, items: seq<Frame>)
    requires items != [] && p <= |b|
    ensures var first, all := Parse(env, b, p), ParseMany(env, b, p, |items|);
      if first.Ok? then
        var rest := ParseMany(env, b, first.next, |items| - 1);
        && (rest.Ok? <==> all.Ok?)
        && (rest.Ok? ==> all.next == rest.next)
        && (rest.Ok? ==> (all.value == items <==> first.value == items[0] && rest.value == items[1..]))
      else !all.Ok?
  {
  }

  // ----- the results -----

  lemma FrameRoundTripAt(env: Env, b: seq<byte>, p: nat, f: Frame)
    requires ReadsDecimals(env) && Proper(env, f) && Has(b, p, Encode(f))
    ensures ReadBack(Parse(env, b, p), f, p + |Encode(f)|)
  {
    hide Parse, EncodeMany, EncodeValue, ReadsDecimals, DecimalLine, Has;
    if f.Array? {
      var line := DecimalLine(|f.items|);
      ArrayItems(env, f.items);
      ArrayParts(b, p, line, EncodeMany(f.items));
      DecimalRoundTrip(env, b, p + 1, |f.items|);
      ManyRoundTrip(env, b, p + 1 + |line|, f.items);
      ArrayParsed(env, b, p);
    } else {
      ValueRoundTrip(env, b, p, f);
    }
  }

  lemma ArrayParts(b: seq<byte>, p: nat, line: seq<byte>, entries: seq<byte>)
    requires Has(b, p, [STAR] + line + entries)
    ensures p < |b| && b[p] == STAR && Has(b, p + 1, line) && Has(b, p + 1 + |line|, entries)
  {
    hide Has;
    assert [STAR] + line + entries == [STAR] + (line + entries);
    HasParts(b, p, [STAR], line + entries);
    HasParts(b, p + 1, line, entries);
    HasFirst(b, p, STAR);
  }

  lemma ArrayItems(env: Env, items: seq<Frame>)
    requires Proper(env, Array(items))
    ensures AllProper(env, items) && |items| < 0x1_0000_0000_0000_0000
    ensures TextsAreLines(Array(items)) <==> AllLines(items)
  {
  }

  lemma ArrayParsed(env: Env, b: seq<byte>, p: nat)
    requires p < |b| && b[p] == STAR && GetDecimal(env, b, p + 1).Ok?
    ensures var r := ParseMany(env, b, GetDecimal(env, b, p + 1).next, GetDecimal(env, b, p + 1).value);
      if r.Ok? then Parse(env, b, p) == Ok(Array(r.value), r.next) else !Parse(env, b, p).Ok?
  {
  }

  /** Parsing an encoded frame, whatever follows it, gives the frame and consumes exactly its encoding, if
      and only if its strings contain no CR LF. */
  lemma RoundTrip(env: Env, f: Frame, following: seq<byte>)
    requires ReadsDecimals(env) && Proper(env, f)
    ensures Parse(env, Encode(f) + following, 0) == Ok(f, |Encode(f)|) <==> TextsAreLines(f)
    ensures TextsAreLines(f) ==> Check(env, Encode(f) + following, 0) == Ok((), |Encode(f)|)
  {
    hide Parse, Check, Encode, ReadsDecimals, Encodable, Sized, TextsAreUtf8;
    var b := Encode(f) + following;
    assert b[0..|Encode(f)|] == Encode(f);
    FrameRoundTripAt(env, b, 0, f);
    ParsedIsChecked(env, b, 0);
  }

  /** Every proper prefix of an encoded frame asks for more. */
  lemma PrefixIsIncomplete(env: Env, f: Frame, k: nat)
    requires ReadsDecimals(env) && Proper(env, f) && TextsAreLines(f) && k < |Encode(f)|
    ensures Check(env, Encode(f)[..k], 0) == Incomplete
  {
    hide Check, Encode, ReadsDecimals, Encodable, Sized, TextsAreUtf8, TextsAreLines;
    var b := Encode(f);
    assert b + [] == b;
    RoundTrip(env, f, []);
    CheckStable(env, b[..k], b, 0);
  }

  predicate Writable(env: Env, fs: seq<Frame>) {
    forall i :: 0 <= i < |fs| ==> Proper(env, fs[i])
  }

  /** The encodings of frames one after the other. */
  function EncodeAll(env: Env, fs: seq<Frame>): seq<byte>
    requires Writable(env, fs)
  {
    if fs == [] then [] else Encode(fs[0]) + EncodeAll(env, fs[1..])
  }

  /** A stream of encoded frames is read as those frames and a clean end. */
  lemma {:induction false} StreamRoundTrip(env: Env, fs: seq<Frame>)
    requires ReadsDecimals(env) && Writable(env, fs) && AllLines(fs)
    ensures Frames(env, EncodeAll(env, fs)) == (fs, true)
    decreases |fs|
  {
    hide Parse, Check, Encode, ReadsDecimals, TextsAreLines;
    if fs != [] {
      var enc, following := Encode(fs[0]), EncodeAll(env, fs[1..]);
      RoundTrip(env, fs[0], following);
      StreamRoundTrip(env, fs[1..]);
      assert (enc + following)[|enc|..] == following;
      assert [fs[0]] + fs[1..] == fs;
      assert enc != [] by {
        CheckNothing(env, enc + following);
      }
    }
  }

  // ----- reading digits -----

  function DigitCount(line: seq<byte>): (k: nat)
    ensures k <= |line| && Decimal.AllDigits(line[..k], 10) && (k < |line| ==> !Decimal.IsDigitIn(line[k], 10))
  {
    if line == [] || !Decimal.IsDigitIn(line[0], 10) then 0 else
      var k := DigitCount(line[1..]);
      assert line[..1 + k] == [line[0]] + line[1..][..k];
      1 + k
  }

  /** The number that a line begins with, if it begins with a digit and the number is a machine word. */
  function LeadingDigits(line: seq<byte>): Option<u64> {
    var k := DigitCount(line);
    var n := Decimal.Value(line[..k], 10);
    if k == 0 || n >= 0x1_0000_0000_0000_0000 then None else Some(n)
  }

  /** Reading the leading digits of a line reads decimals. */
  lemma LeadingDigitsReadDecimals(utf8: seq<byte> -> bool)
    ensures ReadsDecimals(Env(utf8, LeadingDigits))
  {
    forall n: u64
      ensures LeadingDigits(Decimal.Digits(n)) == Some(n)
    {
      var ds := Decimal.Digits(n);
      assert DigitCount(ds) == |ds|;
      assert ds[..|ds|] == ds;
      Decimal.DigitsRoundTrip(n);
    }
  }
}
