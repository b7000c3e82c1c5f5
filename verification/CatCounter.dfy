/** The line counter of `cat`: decimal digits kept in a fixed buffer. */
module CatCounter {
  import opened Streams
  import opened Decimal

  const SPACE: byte := 32
  const TAB: byte := 9
  const ZERO: byte := 48
  const ONE: byte := 49
  const NINE: byte := 57
  const OVERFLOW: byte := 62  // '>'

  const LINE_COUNTER_BUF_LEN: nat := 20
  const LAST_DIGIT: nat := LINE_COUNTER_BUF_LEN - 3

  /** The last k decimal digits of a number. */
  function Fixed(k: nat, n: nat): (ds: seq<byte>)
    ensures |ds| == k
  {
    if k == 0 then [] else Fixed(k - 1, n / 10) + [(48 + n % 10) as byte]
  }

  /** The number field of line n: its decimal digits while 18 suffice, afterwards `>` and the last 17. */
  function Field(n: nat): (ds: seq<byte>)
    ensures 1 <= |ds| <= 18
    ensures 0 !in ds
  {
    var ds := Digits(n);
    if |ds| <= 18 then ds else FixedDigits(17, n); [OVERFLOW] + Fixed(17, n)
  }

  function Spaces(k: nat): (s: seq<byte>)
    ensures |s| == k
  {
    seq(k, _ => SPACE)
  }

  /** What is printed before line n: the field right-justified in six columns, and a tab. */
  function Label(n: nat): seq<byte> {
    (if |Field(n)| < 6 then Spaces(6 - |Field(n)|) else []) + Field(n) + [TAB]
  }

  lemma {:induction false} FixedDigits(k: nat, n: nat)
    ensures AllDigits(Fixed(k, n), 10) && 0 !in Fixed(k, n)
  {
    if k > 0 {
      FixedDigits(k - 1, n / 10);
    }
  }

  /** Below 10^18 the field is the number in decimal; a label has at most 11 bytes below 10^10. */
  lemma LabelMeaning(n: nat)
    ensures n < Pow10(18) ==> Field(n) == Digits(n)
    ensures |Label(n)| <= 11 <==> n < Pow10(10)
    ensures |Label(n)| <= 10 <==> n < Pow10(9)
    ensures 7 <= |Label(n)| <= 19
  {
    DigitsLength(n, 18);
    DigitsLength(n, 10);
    DigitsLength(n, 9);
    assert Pow10(10) == 10 * Pow10(9);
  }

  lemma {:induction false} LabelGrows(m: nat, n: nat)
    requires m <= n
    ensures |Label(m)| <= |Label(n)|
  {
    DigitsGrow(m, n);
  }

  lemma {:induction false} DigitsGrow(m: nat, n: nat)
    requires m <= n
    ensures |Digits(m)| <= |Digits(n)|
  {
    if m >= 10 {
      DigitsGrow(m / 10, n / 10);
    }
  }

  // ----- counting on digits -----

  /** Adding one to a digit string from its right end: the result, and whether a carry is left over. */
  function Bump(ds: seq<byte>): (r: (bool, seq<byte>))
    ensures |r.1| == |ds|
  {
    if ds == [] then (true, [])
    else
      var init, last := ds[..|ds| - 1], ds[|ds| - 1];
      if last < NINE then (false, init + [last + 1])
      else (Bump(init).0, Bump(init).1 + [ZERO])
  }

  lemma {:induction false} BumpDigits(n: nat)
    ensures var (carry, ds) := Bump(Digits(n));
      Digits(n + 1) == if carry then [ONE] + ds else ds
  {
    hide Bump;
    if n < 10 {
      BumpSmall(n);
    } else {
      var init := Digits(n / 10);
      BumpSnoc(init, 48 + n % 10);
      if n % 10 == 9 {
        BumpDigits(n / 10);
        var up := Bump(init).1;
        assert (n + 1) / 10 == n / 10 + 1 && (n + 1) % 10 == 0;
        assert ([ONE] + up) + [ZERO] == [ONE] + (up + [ZERO]);
      } else {
        assert (n + 1) / 10 == n / 10 && (n + 1) % 10 == n % 10 + 1;
      }
    }
  }

  lemma BumpNothing(ds: seq<byte>)
    ensures Bump(ds[..0]) == (true, [])
  {
  }

  lemma BumpSmall(n: nat)
    requires n < 10
    ensures var (carry, ds) := Bump(Digits(n));
      Digits(n + 1) == if carry then [ONE] + ds else ds
  {
  }

  lemma BumpSnoc(init: seq<byte>, last: byte)
    ensures Bump(init + [last]) ==
      if last < NINE then (false, init + [last + 1]) else (Bump(init).0, Bump(init).1 + [ZERO])
  {
  }

  lemma {:induction false} BumpFixed(k: nat, n: nat)
    ensures Bump(Fixed(k, n)).1 == Fixed(k, n + 1)
  {
    if k > 0 {
      var ds := Fixed(k, n);
      assert ds[..k - 1] == Fixed(k - 1, n / 10);
      if n % 10 == 9 {
        BumpFixed(k - 1, n / 10);
        assert (n + 1) / 10 == n / 10 + 1 && (n + 1) % 10 == 0;
      } else {
        assert (n + 1) / 10 == n / 10 && (n + 1) % 10 == n % 10 + 1;
      }
    }
  }

  lemma {:induction false} BumpAfter(c: byte, ds: seq<byte>)
    requires c > NINE
    ensures Bump([c] + ds).1[1..] == Bump(ds).1
    ensures Bump([c] + ds).0 == Bump(ds).0
    ensures !Bump(ds).0 ==> Bump([c] + ds).1[0] == c
  {
    var all := [c] + ds;
    if ds == [] {
      assert all[..0] == [];
    } else {
      assert all[..|all| - 1] == [c] + ds[..|ds| - 1];
      if ds[|ds| - 1] >= NINE {
        BumpAfter(c, ds[..|ds| - 1]);
      }
    }
  }

  lemma {:induction false} FixedIsSuffix(k: nat, n: nat)
    requires k <= |Digits(n)|
    ensures Fixed(k, n) == Digits(n)[|Digits(n)| - k..]
  {
    if k > 0 {
      if n < 10 {
        assert Fixed(0, n / 10) == [];
      } else {
        FixedIsSuffix(k - 1, n / 10);
      }
    }
  }

  /** What the field of the next line looks like: carried digits, a new leading one, or the overflow mark. */
  lemma FieldStep(n: nat)
    ensures var (carry, ds) := Bump(Field(n));
      Field(n + 1) ==
        if !carry then ds
        else if |ds| < 18 then [ONE] + ds
        else [OVERFLOW] + ds[1..]
  {
    hide Bump, Fixed;
    DigitsGrow(n, n + 1);
    BumpDigits(n);
    if |Digits(n)| <= 18 {
      var (carry, ds) := Bump(Digits(n));
      if carry && |ds| == 18 {
        FixedIsSuffix(17, n + 1);
        assert ([ONE] + ds)[2..] == ds[1..];
      }
    } else {
      BumpAfter(OVERFLOW, Fixed(17, n));
      BumpFixed(17, n);
      var (carry, ds) := Bump([OVERFLOW] + Fixed(17, n));
      assert ds == [ds[0]] + ds[1..];
    }
  }

  // ----- the buffer -----

  class LineCounter {
    const lineBuf: array<byte>
    var numPrint: nat
    var numStart: nat
    ghost var count: nat  // how many times the number was advanced

    constructor ()
      ensures Valid() && count == 0 && fresh(lineBuf)
    {
      lineBuf := new byte[LINE_COUNTER_BUF_LEN](i =>
        if i < LAST_DIGIT then SPACE else if i == LAST_DIGIT then ZERO else if i == LAST_DIGIT + 1 then TAB else 0);
      numPrint, numStart := LINE_COUNTER_BUF_LEN - 8, LAST_DIGIT;
      count := 0;
      new;
      assert lineBuf[numStart..LAST_DIGIT + 1] == Field(0);
    }

    /** The buffer shows `count`. */
    ghost predicate Valid()
      reads this, lineBuf
    {
      && lineBuf.Length == LINE_COUNTER_BUF_LEN
      && numStart == LAST_DIGIT + 1 - |Field(count)|
      && numPrint == (if numStart < 12 then numStart else 12)
      && lineBuf[numStart..LAST_DIGIT + 1] == Field(count)
      && (forall k :: 0 <= k < numStart ==> lineBuf[k] == SPACE)
      && lineBuf[LAST_DIGIT + 1] == TAB && lineBuf[LAST_DIGIT + 2] == 0
    }

    /** Advances the number in place. */
    method NextLineNum()
      requires Valid()
      modifies this, lineBuf
      ensures Valid() && count == old(count) + 1
    {
      hide Bump, Field;
      FieldStep(count);
      var carry := AddOne();
      count := count + 1;
      if !carry {
        return;
      }
      Widen();
    }

    /** All digits were nines: puts a one before the zeros, or the overflow mark into the full buffer. */
    method Widen()
      requires lineBuf.Length == LINE_COUNTER_BUF_LEN && numStart <= LAST_DIGIT
      requires numPrint == (if numStart < 12 then numStart else 12)
      modifies this`numStart, this`numPrint, lineBuf
      ensures numStart == (if old(numStart) > 0 then old(numStart) - 1 else 0)
      ensures numPrint == (if numStart < 12 then numStart else 12)
      ensures var up := old(lineBuf[numStart..LAST_DIGIT + 1]);
        lineBuf[numStart..LAST_DIGIT + 1] == if old(numStart) > 0 then [ONE] + up else [OVERFLOW] + up[1..]
      ensures forall k :: 0 <= k < numStart || LAST_DIGIT < k < LINE_COUNTER_BUF_LEN ==> lineBuf[k] == old(lineBuf[k])
    {
      ghost var up := lineBuf[numStart..LAST_DIGIT + 1];
      if numStart > 0 {
        numStart := numStart - 1;
        lineBuf[numStart] := ONE;
        assert lineBuf[numStart..LAST_DIGIT + 1] == [ONE] + up;
      } else {
        lineBuf[0] := OVERFLOW;
        assert lineBuf[0..LAST_DIGIT + 1] == [OVERFLOW] + up[1..];
      }
      if numStart < numPrint {
        numPrint := numPrint - 1;
      }
    }

    /** Adds one to the digits from the right; tells whether all of them were passed. */
    method AddOne() returns (carry: bool)
      requires Valid()
      modifies lineBuf
      ensures lineBuf[numStart..LAST_DIGIT + 1] == Bump(Field(count)).1 && carry == Bump(Field(count)).0
      ensures forall k :: 0 <= k < LINE_COUNTER_BUF_LEN && !(numStart <= k <= LAST_DIGIT) ==>
        lineBuf[k] == old(lineBuf[k])
    {
      hide Field, Bump;
      ghost var ds := Field(count);
      var endp: int := LAST_DIGIT;
      assert ds[..|ds|] == ds && Bump(ds).1 + Zeros(0) == Bump(ds).1;
      while endp >= numStart
        invariant numStart - 1 <= endp <= LAST_DIGIT
        invariant forall k :: 0 <= k <= endp ==> lineBuf[k] == old(lineBuf[k])
        invariant forall k :: LAST_DIGIT < k < LINE_COUNTER_BUF_LEN ==> lineBuf[k] == old(lineBuf[k])
        invariant forall k :: endp < k <= LAST_DIGIT ==> lineBuf[k] == ZERO
        invariant var kept := endp + 1 - numStart;
          Bump(ds) == (Bump(ds[..kept]).0, Bump(ds[..kept]).1 + Zeros(|ds| - kept))
      {
        ghost var kept := endp + 1 - numStart;
        ghost var b := lineBuf[endp];
        assert b == old(lineBuf[numStart..LAST_DIGIT + 1])[kept - 1] == ds[kept - 1];
        assert ds[..kept] == ds[..kept - 1] + [b];
        BumpSnoc(ds[..kept - 1], b);
        if lineBuf[endp] < NINE {
          lineBuf[endp] := lineBuf[endp] + 1;
          assert ds[..kept - 1] == old(lineBuf[numStart..LAST_DIGIT + 1])[..kept - 1];
          assert lineBuf[numStart..LAST_DIGIT + 1] == (ds[..kept - 1] + [b + 1]) + Zeros(|ds| - kept);
          return false;
        }
        lineBuf[endp] := ZERO;
        ghost var head := Bump(ds[..kept - 1]).1;
        assert (head + [ZERO]) + Zeros(|ds| - kept) == head + Zeros(|ds| - kept + 1);
        endp := endp - 1;
      }
      assert lineBuf[numStart..LAST_DIGIT + 1] == [] + Zeros(|ds|);
      BumpNothing(ds);
      carry := true;
    }

    /** The text from the print position up to the terminator. */
    method Text() returns (text: seq<byte>)
      requires Valid()
      ensures text == Label(count)
    {
      text := lineBuf[numPrint..LAST_DIGIT + 2];
      assert lineBuf[numPrint..numStart] == Spaces(numStart - numPrint);
      assert text == lineBuf[numPrint..numStart] + lineBuf[numStart..LAST_DIGIT + 1] + [lineBuf[LAST_DIGIT + 1]];
    }
  }

  function Zeros(k: nat): (s: seq<byte>)
    ensures |s| == k
  {
    seq(k, _ => ZERO)
  }
}
