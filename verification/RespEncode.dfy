/** The encoding of frames. */
module RespEncode {
  import opened Streams
  import Decimal
  import opened RespSpec

  function DecimalLine(n: u64): seq<byte> {
    Decimal.Digits(n) + [CR, LF]
  }

  function EncodeValue(f: Frame): seq<byte>
    requires !f.Array? && Sized(f)
  {
    match f
    case Simple(text) => [PLUS] + text + [CR, LF]
    case Error(text) => [MINUS] + text + [CR, LF]
    case Integer(n) => [COLON] + DecimalLine(n)
    case Null => [DOLLAR, MINUS, 49, CR, LF]
    case Bulk(data) => [DOLLAR] + DecimalLine(|data|) + data + [CR, LF]
  }

  /** The encodings of literal frames one after the other. */
  function EncodeMany(items: seq<Frame>): seq<byte>
    requires forall i :: 0 <= i < |items| ==> !items[i].Array? && Sized(items[i])
  {
    if items == [] then [] else EncodeMany(items[..|items| - 1]) + EncodeValue(items[|items| - 1])
  }

  /** An array of literals, or a literal. */
  predicate Encodable(f: Frame) {
    f.Array? ==> forall i :: 0 <= i < |f.items| ==> !f.items[i].Array?
  }

  /** Lengths are machine words. */
  predicate Sized(f: Frame) {
    match f
    case Bulk(data) => |data| < 0x1_0000_0000_0000_0000
    case Array(items) => |items| < 0x1_0000_0000_0000_0000 && forall i :: 0 <= i < |items| ==> Sized(items[i])
    case _ => true
  }

  function Encode(f: Frame): seq<byte>
    requires Encodable(f) && Sized(f)
  {
    if f.Array? then [STAR] + DecimalLine(|f.items|) + EncodeMany(f.items) else EncodeValue(f)
  }

  lemma EncodeNone(items: seq<Frame>)
    requires forall k :: 0 <= k < |items| ==> !items[k].Array? && Sized(items[k])
    ensures EncodeMany(items[..0]) == []
  {
  }

  lemma EncodeNext(items: seq<Frame>, i: nat)
    requires i < |items| && forall k :: 0 <= k < |items| ==> !items[k].Array? && Sized(items[k])
    ensures EncodeMany(items[..i + 1]) == EncodeMany(items[..i]) + EncodeValue(items[i])
  {
    assert items[..i + 1][..i] == items[..i];
  }

  /** The number of digits of the largest machine word is 20. */
  lemma U64HasTwentyDigits(n: u64)
    ensures |Decimal.Digits(n)| <= 20
  {
    FiveMore(0);
    FiveMore(5);
    FiveMore(10);
    FiveMore(15);
    Decimal.DigitsLength(n, 20);
  }

  lemma FiveMore(k: nat)
    ensures Decimal.Pow10(k + 5) == 100000 * Decimal.Pow10(k)
  {
    assert Decimal.Pow10(k + 5) == 10 * Decimal.Pow10(k + 4);
    assert Decimal.Pow10(k + 4) == 10 * Decimal.Pow10(k + 3);
    assert Decimal.Pow10(k + 3) == 10 * Decimal.Pow10(k + 2);
  }
}
