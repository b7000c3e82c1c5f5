/** Reading a set specification of `tr`: escapes first, then constructs. */
module TrParse {
  import opened Streams
  import Decimal
  import opened TrSpec

  // ----- characters with their escape marks -----

  datatype EChar = EChar(c: byte, escaped: bool)

  const BACKSLASH: byte := 92
  const OPEN: byte := 91
  const CLOSE: byte := 93
  const COLON: byte := 58
  const EQUALS: byte := 61
  const STAR: byte := 42
  const DASH: byte := 45
  const PLUS: byte := 43

  /** A character that is read as the delimiter or operator c. */
  predicate EsMatch(es: seq<EChar>, i: nat, c: byte) {
    i < |es| && es[i] == EChar(c, false)
  }

  function Bytes(es: seq<EChar>): (s: seq<byte>)
    ensures |s| == |es| && forall k :: 0 <= k < |es| ==> s[k] == es[k].c
  {
    seq(|es|, k requires 0 <= k < |es| => es[k].c)
  }

  // ----- escapes -----

  /** The character at i of a C string: its terminator is 0. */
  function CharAt(s: seq<byte>, i: nat): byte {
    if i < |s| then s[i] else 0
  }

  predicate IsOctal(c: byte) { 48 <= c <= 55 }

  /** What the character or escape at i stands for, and where the next one starts. */
  function UnquoteAt(s: seq<byte>, i: nat): (r: (EChar, nat))
    requires i < |s|
    ensures i < r.1 <= |s|
  {
    if s[i] != BACKSLASH then (EChar(s[i], false), i + 1)
    else
      var d := CharAt(s, i + 1);
      if d == 0 then (EChar(BACKSLASH, false), i + 1)
      else if IsOctal(d) then
        if !IsOctal(CharAt(s, i + 2)) then (EChar(d - 48, true), i + 2)
        else
          var v := 8 * (d - 48) + (CharAt(s, i + 2) - 48);
          if IsOctal(CharAt(s, i + 3)) && 8 * v + (CharAt(s, i + 3) - 48) < N_CHARS then
            (EChar(8 * v + (CharAt(s, i + 3) - 48), true), i + 4)
          else (EChar(v, true), i + 3)
      else (EChar(Named(d), true), i + 2)
  }

  /** The control characters with a letter of their own; any other character stands for itself. */
  function Named(d: byte): byte {
    if d == 97 then 7 else if d == 98 then 8 else if d == 102 then 12 else if d == 110 then 10
    else if d == 114 then 13 else if d == 116 then 9 else if d == 118 then 11 else d
  }

  function Unquoted(s: seq<byte>, i: nat): seq<EChar>
    requires i <= |s|
    decreases |s| - i
  {
    if i == |s| then []
    else
      var (e, next) := UnquoteAt(s, i);
      [e] + Unquoted(s, next)
  }

  /** The first pass over a specification.  The buffer is as long as the string and never overrun. */
  method Unquote(s: seq<byte>) returns (es: array<EChar>, len: nat)
    requires 0 !in s
    ensures len <= es.Length && es[..len] == Unquoted(s, 0)
  {
    hide Unquoted;
    es := new EChar[|s|](_ => EChar(0, false));
    var i, j := 0, 0;
    while i < |s|
      invariant j <= i <= |s|
      invariant Unquoted(s, 0) == es[..j] + Unquoted(s, i)
    {
      ghost var i0 := i;
      var c, escaped := s[i], false;
      if s[i] == BACKSLASH {
        escaped := true;
        var d := CharAt(s, i + 1);
        if d == 0 {
          escaped := false;
          i := i - 1;
          c := BACKSLASH;
        } else if IsOctal(d) {
          c := d - 48;
          var octDigit := CharAt(s, i + 2) as int - 48;
          if 0 <= octDigit <= 7 {
            c := 8 * c + octDigit;
            i := i + 1;
            octDigit := CharAt(s, i + 2) as int - 48;
            if 0 <= octDigit <= 7 && 8 * c as int + octDigit < N_CHARS {
              c := 8 * c + octDigit;
              i := i + 1;
            }
          }
        } else {
          c := Named(d);
        }
        i := i + 1;
      }
      i := i + 1;
      assert UnquoteAt(s, i0) == (EChar(c, escaped), i);
      UnquotedStep(s, i0);
      ghost var done := es[..j];
      es[j] := EChar(c, escaped);
      j := j + 1;
      assert es[..j] == done + [EChar(c, escaped)];
      assert done + ([EChar(c, escaped)] + Unquoted(s, i)) == es[..j] + Unquoted(s, i);
    }
    UnquotedEnd(s);
    len := j;
  }

  lemma UnquotedStep(s: seq<byte>, i: nat)
    requires i < |s|
    ensures Unquoted(s, i) == [UnquoteAt(s, i).0] + Unquoted(s, UnquoteAt(s, i).1)
  {
  }

  lemma UnquotedEnd(s: seq<byte>)
    ensures Unquoted(s, |s|) == []
  {
  }

  // ----- constructs -----

  function ClassName(cls: CharClass): (name: seq<byte>)
    ensures |name| == if cls == Xdigit then 6 else 5
    ensures forall k :: 0 <= k < |name| ==> IsLower(name[k])
  {
    match cls
    case Alnum => [97, 108, 110, 117, 109]
    case Alpha => [97, 108, 112, 104, 97]
    case Blank => [98, 108, 97, 110, 107]
    case Cntrl => [99, 110, 116, 114, 108]
    case Digit => [100, 105, 103, 105, 116]
    case Graph => [103, 114, 97, 112, 104]
    case Lower => [108, 111, 119, 101, 114]
    case Print => [112, 114, 105, 110, 116]
    case Punct => [112, 117, 110, 99, 116]
    case Space => [115, 112, 97, 99, 101]
    case Upper => [117, 112, 112, 101, 114]
    case Xdigit => [120, 100, 105, 103, 105, 116]
  }

  const CLASSES: seq<CharClass> :=
    [Alnum, Alpha, Blank, Cntrl, Digit, Graph, Lower, Print, Punct, Space, Upper, Xdigit]

  lemma NamesDiffer(a: CharClass, b: CharClass)
    ensures ClassName(a) == ClassName(b) ==> a == b
  {
  }

  /** The class with the given name, if there is one. */
  ghost function ClassNamed(name: seq<byte>): (r: Option<CharClass>)
    ensures r.Some? ==> name == ClassName(r.value)
    ensures r == None ==> forall cls :: name != ClassName(cls)
  {
    if exists cls :: name == ClassName(cls) then
      var cls :| name == ClassName(cls);
      Some(cls)
    else None
  }

  method LookUpCharClass(name: seq<byte>) returns (r: Option<CharClass>)
    ensures r == ClassNamed(name)
  {
    for i := 0 to |CLASSES|
      invariant forall k :: 0 <= k < i ==> name != ClassName(CLASSES[k])
    {
      if name == ClassName(CLASSES[i]) {
        NamesDiffer(CLASSES[i], ClassNamed(name).value);
        return Some(CLASSES[i]);
      }
    }
    assert forall cls :: name != ClassName(cls) by {
      forall cls
        ensures name != ClassName(cls)
      {
        var k := match cls
          case Alnum => 0 case Alpha => 1 case Blank => 2 case Cntrl => 3 case Digit => 4 case Graph => 5
          case Lower => 6 case Print => 7 case Punct => 8 case Space => 9 case Upper => 10 case Xdigit => 11;
        assert CLASSES[k] == cls;
      }
    }
    r := None;
  }

  predicate ClosesAt(es: seq<EChar>, j: nat, pre: byte) {
    EsMatch(es, j, pre) && EsMatch(es, j + 1, CLOSE)
  }

  /** The first place from k on where the two closing characters stand. */
  function FirstClose(es: seq<EChar>, k: nat, pre: byte): (r: Option<nat>)
    ensures r.Some? ==> k <= r.value && r.value + 1 < |es|
    decreases |es| - k
  {
    if k + 1 >= |es| then None
    else if ClosesAt(es, k, pre) then Some(k)
    else FirstClose(es, k + 1, pre)
  }

  method FindClosingDelim(es: seq<EChar>, start: nat, pre: byte) returns (r: Option<nat>)
    requires start < |es|
    ensures r == FirstClose(es, start, pre)
  {
    for i := start to |es| - 1
      invariant FirstClose(es, start, pre) == FirstClose(es, i, pre)
    {
      if es[i].c == pre && es[i + 1].c == CLOSE && !es[i].escaped && !es[i + 1].escaped {
        return Some(i);
      }
    }
    r := None;
  }

  function SkipBlanks(s: seq<byte>): seq<byte> {
    if s != [] && IsMember(Space, s[0]) then SkipBlanks(s[1..]) else s
  }

  /** A number as strtoumax reads it: leading blanks and a plus sign are passed. */
  function Unsigned(s: seq<byte>): seq<byte> {
    var t := SkipBlanks(s);
    if t != [] && t[0] == PLUS then t[1..] else t
  }

  /** A repeat count: octal if it starts with a zero, else decimal; nothing if it is not a number or too big. */
  function RepeatCount(s: seq<byte>): Option<nat>
    requires s != []
  {
    var base, ds := if s[0] == 48 then 8 else 10, Unsigned(s);
    if ds != [] && Decimal.AllDigits(ds, base) && Decimal.Value(ds, base) <= REPEAT_COUNT_MAXIMUM
    then Some(Decimal.Value(ds, base)) else None
  }

  /** A decimal number is read as what it is, also behind blanks and a plus sign. */
  lemma CountInDecimal(blanks: seq<byte>, plus: bool, n: nat)
    requires forall k :: 0 <= k < |blanks| ==> IsMember(Space, blanks[k])
    requires n <= REPEAT_COUNT_MAXIMUM
    ensures RepeatCount(blanks + (if plus then [PLUS] else []) + Decimal.Digits(n)) == Some(n)
  {
    hide IsMember, Decimal.Value, Decimal.Digits;
    var ds := Decimal.Digits(n);
    var rest := (if plus then [PLUS] else []) + ds;
    var s := blanks + (if plus then [PLUS] else []) + ds;
    assert s == blanks + rest && (plus ==> rest[1..] == ds) && (!plus ==> rest == ds);
    assert s[0] == if blanks != [] then blanks[0] else if plus then PLUS else ds[0];
    NotBlank(ds[0]);
    NotBlank(PLUS);
    NotBlank(48);
    BlanksSkipped(blanks, rest);
    assert Unsigned(s) == ds;
    Decimal.DigitsRoundTrip(n);
    if s[0] == 48 {
      ZeroIsZero(ds);
    }
  }

  /** A zero is a zero in octal, too. */
  lemma ZeroIsZero(ds: seq<byte>)
    ensures ds == Decimal.Digits(0) ==> ds[0] == 48 && Decimal.AllDigits(ds, 8) && Decimal.Value(ds, 8) == 0
  {
    assert Decimal.Digits(0) == [48];
    assert [48 as byte][..0] == [];
  }

  lemma NotBlank(c: byte)
    ensures 48 <= c < 58 || c == PLUS ==> !IsMember(Space, c)
  {
  }

  lemma {:induction false} BlanksSkipped(blanks: seq<byte>, rest: seq<byte>)
    requires forall k :: 0 <= k < |blanks| ==> IsMember(Space, blanks[k])
    requires rest != [] && !IsMember(Space, rest[0])
    ensures SkipBlanks(blanks + rest) == rest
  {
    hide IsMember;
    if blanks == [] {
      assert blanks + rest == rest;
    } else {
      assert (blanks + rest)[1..] == blanks[1..] + rest;
      BlanksSkipped(blanks[1..], rest);
    }
  }

  /** What a bracket may turn out to be: nothing special, something wrong, or a construct. */
  datatype Parsed = Nothing | Bad | Took(e: Construct, next: nat)

  /** The first unescaped closing bracket from k on, not looking past an escaped character. */
  function CloseFrom(es: seq<EChar>, k: nat): (r: Option<nat>)
    ensures r.Some? ==> k <= r.value < |es|
    decreases |es| - k
  {
    if k >= |es| || es[k].escaped then None
    else if es[k].c == CLOSE then Some(k)
    else CloseFrom(es, k + 1)
  }

  /** `[c*n]` or `[c*]`, whose bracket stands before start. */
  function RepeatAt(es: seq<EChar>, start: nat): (r: Parsed)
    requires start + 1 < |es|
    ensures r.Took? ==> start < r.next <= |es| && ValidConstruct(r.e)
  {
    if !EsMatch(es, start + 1, STAR) then Nothing
    else
      match CloseFrom(es, start + 2)
      case None => Nothing
      case Some(i) =>
        var digits := Bytes(es[start + 2..i]);
        if digits == [] then Took(Repeated(es[start].c, 0), i + 1)
        else
          match RepeatCount(digits)
          case Some(n) => Took(Repeated(es[start].c, n), i + 1)
          case None => Bad
  }

  method FindBracketedRepeat(es: seq<EChar>, start: nat) returns (r: Parsed)
    requires start + 1 < |es|
    ensures r == RepeatAt(es, start)
  {
    if !EsMatch(es, start + 1, STAR) {
      return Nothing;
    }
    var i := start + 2;
    while i < |es| && !es[i].escaped
      invariant start + 2 <= i <= |es| && CloseFrom(es, start + 2) == CloseFrom(es, i)
    {
      if es[i].c == CLOSE {
        var digits := Bytes(es[start + 2..i]);
        if digits == [] {
          return Took(Repeated(es[start].c, 0), i + 1);
        }
        match RepeatCount(digits) {
          case Some(n) => return Took(Repeated(es[start].c, n), i + 1);
          case None => return Bad;
        }
      }
      i := i + 1;
    }
    r := Nothing;
  }

  /** Whether a star, digits and a closing bracket stand at idx, none of them escaped. */
  function DigitsThenClose(es: seq<EChar>, k: nat): bool
    decreases |es| - k
  {
    if k >= |es| then false
    else if !IsDigit(es[k].c) || es[k].escaped then EsMatch(es, k, CLOSE)
    else DigitsThenClose(es, k + 1)
  }

  method StarDigitsClosebracket(es: seq<EChar>, idx: nat) returns (yes: bool)
    ensures yes == (EsMatch(es, idx, STAR) && DigitsThenClose(es, idx + 1))
  {
    if !EsMatch(es, idx, STAR) {
      return false;
    }
    for i := idx + 1 to |es|
      invariant DigitsThenClose(es, idx + 1) == DigitsThenClose(es, i)
    {
      if !IsDigit(es[i].c) || es[i].escaped {
        return EsMatch(es, i, CLOSE);
      }
    }
    yes := false;
  }

  /** What the bracket at i opens. */
  ghost function BracketAt(es: seq<EChar>, i: nat): (r: Parsed)
    requires i + 2 < |es|
    ensures r.Took? ==> i < r.next <= |es| && ValidConstruct(r.e)
  {
    if EsMatch(es, i + 1, COLON) || EsMatch(es, i + 1, EQUALS) then
      match FirstClose(es, i + 2, es[i + 1].c)
      case None => RepeatAt(es, i + 1)
      case Some(j) =>
        if j == i + 2 then Bad
        else if es[i + 1].c == COLON && ClassNamed(Bytes(es[i + 2..j])).Some? then
          Took(Class(ClassNamed(Bytes(es[i + 2..j])).value), j + 2)
        else if es[i + 1].c == EQUALS && j == i + 3 then Took(EquivClass(es[i + 2].c), j + 2)
        else if EsMatch(es, i + 2, STAR) && DigitsThenClose(es, i + 3) then RepeatAt(es, i + 1)
        else Bad
    else RepeatAt(es, i + 1)
  }

  /** The construct at i, where at least three characters are left. */
  ghost function ParseAt(es: seq<EChar>, i: nat): (r: Parsed)
    requires i + 2 < |es|
    ensures r != Nothing && (r.Took? ==> i < r.next <= |es| && ValidConstruct(r.e))
  {
    if EsMatch(es, i, OPEN) && BracketAt(es, i) != Nothing then BracketAt(es, i)
    else if EsMatch(es, i + 1, DASH) then
      if es[i + 2].c < es[i].c then Bad else Took(Range(es[i].c, es[i + 2].c), i + 3)
    else Took(NormalChar(es[i].c), i + 1)
  }

  /** All constructs from i on; None if one of them is wrong. */
  ghost function ParseFrom(es: seq<EChar>, i: nat): (r: Option<seq<Construct>>)
    requires i <= |es|
    ensures r.Some? ==> ValidList(r.value)
    decreases |es| - i
  {
    if i == |es| then Some([])
    else if i + 2 >= |es| then Before(NormalChar(es[i].c), ParseFrom(es, i + 1))
    else
      match ParseAt(es, i)
      case Took(e, next) => Before(e, ParseFrom(es, next))
      case _ => None
  }

  function Before(e: Construct, r: Option<seq<Construct>>): Option<seq<Construct>> {
    match r
    case Some(es) => Some([e] + es)
    case None => None
  }

  function After(done: seq<Construct>, r: Option<seq<Construct>>): Option<seq<Construct>> {
    match r
    case Some(es) => Some(done + es)
    case None => None
  }

  lemma AfterBefore(done: seq<Construct>, e: Construct, r: Option<seq<Construct>>)
    ensures After(done, Before(e, r)) == After(done + [e], r)
  {
    if r.Some? {
      assert done + ([e] + r.value) == (done + [e]) + r.value;
    }
  }

  /** Whether the bracket at i is a class, an equivalence class or a repeat. */
  method ParseBracket(es: seq<EChar>, i: nat) returns (r: Parsed)
    requires i + 2 < |es|
    ensures r == BracketAt(es, i)
  {
    if EsMatch(es, i + 1, COLON) || EsMatch(es, i + 1, EQUALS) {
      var closing := FindClosingDelim(es, i + 2, es[i + 1].c);
      if closing.Some? {
        var j := closing.value;
        if j == i + 2 {
          return Bad;
        }
        if es[i + 1].c == COLON {
          var cls := LookUpCharClass(Bytes(es[i + 2..j]));
          if cls.Some? {
            return Took(Class(cls.value), j + 2);
          }
        } else if j == i + 3 {
          return Took(EquivClass(es[i + 2].c), j + 2);
        }
        var isRepeat := StarDigitsClosebracket(es, i + 2);
        if !isRepeat {
          return Bad;
        }
      }
    }
    r := FindBracketedRepeat(es, i + 1);
  }

  /** The second pass: appends the constructs of a specification to a list. */
  method BuildSpecList(es: seq<EChar>, result: SpecList) returns (ok: bool)
    requires result.tail == |result.elems|
    modifies result`elems, result`tail
    ensures ok <==> ParseFrom(es, 0).Some?
    ensures ok ==> result.elems == old(result.elems) + ParseFrom(es, 0).value
    ensures result.tail == |result.elems|
  {
    hide ParseAt;
    var i := 0;
    ghost var done: seq<Construct> := [];
    while i + 2 < |es|
      invariant i <= |es| && result.tail == |result.elems|
      invariant result.elems == old(result.elems) + done
      invariant After([], ParseFrom(es, 0)) == After(done, ParseFrom(es, i))
      decreases |es| - i
    {
      var r := ParseConstruct(es, i);
      if r == Bad {
        return false;
      }
      AfterBefore(done, r.e, ParseFrom(es, r.next));
      result.Append(r.e);
      done := done + [r.e];
      i := r.next;
    }
    while i < |es|
      invariant i <= |es| && i + 2 >= |es| && result.tail == |result.elems|
      invariant result.elems == old(result.elems) + done
      invariant After([], ParseFrom(es, 0)) == After(done, ParseFrom(es, i))
    {
      var e := NormalChar(es[i].c);
      AfterBefore(done, e, ParseFrom(es, i + 1));
      result.Append(e);
      done := done + [e];
      i := i + 1;
    }
    assert done + [] == done && [] + ParseFrom(es, 0).value == ParseFrom(es, 0).value;
    ok := true;
  }

  method ParseConstruct(es: seq<EChar>, i: nat) returns (r: Parsed)
    requires i + 2 < |es|
    ensures r == ParseAt(es, i)
  {
    if EsMatch(es, i, OPEN) {
      r := ParseBracket(es, i);
      if r != Nothing {
        return;
      }
    }
    if EsMatch(es, i + 1, DASH) {
      r := if es[i + 2].c < es[i].c then Bad else Took(Range(es[i].c, es[i + 2].c), i + 3);
    } else {
      r := Took(NormalChar(es[i].c), i + 1);
    }
  }

  /** Both passes. */
  method ParseStr(s: seq<byte>, specList: SpecList) returns (ok: bool)
    requires 0 !in s && specList.tail == |specList.elems|
    modifies specList`elems, specList`tail
    ensures ok <==> Parse(s).Some?
    ensures ok ==> specList.elems == old(specList.elems) + Parse(s).value
    ensures specList.tail == |specList.elems|
  {
    var es, len := Unquote(s);
    ok := BuildSpecList(es[..len], specList);
  }

  ghost function Parse(s: seq<byte>): (r: Option<seq<Construct>>)
    ensures r.Some? ==> ValidList(r.value)
  {
    ParseFrom(Unquoted(s, 0), 0)
  }

  // ----- every list can be written down -----

  /** A construct written so that its bytes are escaped and only its syntax is not. */
  function Written(e: Construct): seq<EChar> {
    match e
    case NormalChar(c) => [EChar(c, true)]
    case Range(first, last) => [EChar(first, true), EChar(DASH, false), EChar(last, true)]
    case Class(cls) => Plain([OPEN, COLON] + ClassName(cls) + [COLON, CLOSE])
    case EquivClass(c) => Plain([OPEN, EQUALS]) + [EChar(c, true)] + Plain([EQUALS, CLOSE])
    case Repeated(c, n) =>
      Plain([OPEN]) + [EChar(c, true)] + Plain([STAR] + (if n == 0 then [] else Decimal.Digits(n)) + [CLOSE])
  }

  function Plain(s: seq<byte>): (es: seq<EChar>)
    ensures |es| == |s| && forall k :: 0 <= k < |s| ==> es[k] == EChar(s[k], false)
  {
    seq(|s|, k requires 0 <= k < |s| => EChar(s[k], false))
  }

  function WrittenList(cs: seq<Construct>): seq<EChar> {
    if cs == [] then [] else Written(cs[0]) + WrittenList(cs[1..])
  }

  /** No written construct can be taken for the second half of a range. */
  lemma NoDashFirst(cs: seq<Construct>)
    ensures !EsMatch(WrittenList(cs), 0, DASH)
  {
  }

  /** `es` has the text `x` at i. */
  predicate HasAt(es: seq<EChar>, i: nat, x: seq<EChar>) {
    i + |x| <= |es| && forall k :: 0 <= k < |x| ==> es[i + k] == x[k]
  }

  lemma {:induction false} FirstCloseIs(es: seq<EChar>, k: nat, j: nat, pre: byte)
    requires k <= j && ClosesAt(es, j, pre)
    requires forall m :: k <= m < j ==> !EsMatch(es, m, pre)
    ensures FirstClose(es, k, pre) == Some(j)
    decreases j - k
  {
    if k < j {
      FirstCloseIs(es, k + 1, j, pre);
    }
  }

  lemma {:induction false} CloseFromIs(es: seq<EChar>, k: nat, j: nat)
    requires k <= j && EsMatch(es, j, CLOSE)
    requires forall m :: k <= m < j ==> !es[m].escaped && es[m].c != CLOSE
    ensures CloseFrom(es, k) == Some(j)
    decreases j - k
  {
    if k < j {
      CloseFromIs(es, k + 1, j);
    }
  }

  lemma ParseWrittenClass(es: seq<EChar>, i: nat, cls: CharClass)
    requires HasAt(es, i, Written(Class(cls)))
    ensures i + 2 < |es| && ParseAt(es, i) == Took(Class(cls), i + |Written(Class(cls))|)
  {
    hide FirstClose, ClassName, RepeatAt;
    var name := ClassName(cls);
    var j := i + 2 + |name|;
    var w := Written(Class(cls));
    assert es[i] == w[0] == EChar(OPEN, false) && es[i + 1] == w[1] == EChar(COLON, false);
    assert es[j] == w[2 + |name|] && es[j + 1] == w[3 + |name|];
    forall m | i + 2 <= m < j
      ensures es[m] == EChar(name[m - i - 2], false)
    {
      assert es[m] == w[m - i];
    }
    FirstCloseIs(es, i + 2, j, COLON);
    assert Bytes(es[i + 2..j]) == name;
    NamesDiffer(cls, ClassNamed(name).value);
  }

  lemma ParseWrittenEquiv(es: seq<EChar>, i: nat, c: byte)
    requires HasAt(es, i, Written(EquivClass(c)))
    ensures i + 2 < |es| && ParseAt(es, i) == Took(EquivClass(c), i + |Written(EquivClass(c))|)
  {
    hide FirstClose, RepeatAt;
    var w := Written(EquivClass(c));
    assert w == [EChar(OPEN, false), EChar(EQUALS, false), EChar(c, true), EChar(EQUALS, false), EChar(CLOSE, false)];
    assert es[i] == w[0] && es[i + 1] == w[1] && es[i + 2] == w[2] && es[i + 3] == w[3] && es[i + 4] == w[4];
    FirstCloseIs(es, i + 2, i + 3, EQUALS);
  }

  lemma ParseWrittenRepeat(es: seq<EChar>, i: nat, c: byte, n: nat)
    requires n <= REPEAT_COUNT_MAXIMUM && HasAt(es, i, Written(Repeated(c, n)))
    ensures i + 2 < |es| && ParseAt(es, i) == Took(Repeated(c, n), i + |Written(Repeated(c, n))|)
  {
    hide FirstClose, CloseFrom, RepeatCount, Decimal.Digits, HasAt;
    var digits := if n == 0 then [] else Decimal.Digits(n);
    WrittenDigits(es, i, c, digits);
    if n > 0 {
      assert [] + [] + digits == digits;
      CountInDecimal([], false, n);
    }
  }

  /** The characters between star and bracket are found. */
  lemma WrittenDigits(es: seq<EChar>, i: nat, c: byte, digits: seq<byte>)
    requires Decimal.AllDigits(digits, 10)
    requires HasAt(es, i, Plain([OPEN]) + [EChar(c, true)] + Plain([STAR] + digits + [CLOSE]))
    ensures var j := i + 3 + |digits|;
      && j < |es| && es[i] == EChar(OPEN, false) && es[i + 1] == EChar(c, true) && es[i + 2] == EChar(STAR, false)
      && CloseFrom(es, i + 3) == Some(j) && Bytes(es[i + 3..j]) == digits
  {
    hide CloseFrom;
    var w := Plain([OPEN]) + [EChar(c, true)] + Plain([STAR] + digits + [CLOSE]);
    var j := i + 3 + |digits|;
    assert es[i] == w[0] && es[i + 1] == w[1] && es[i + 2] == w[2] && es[j] == w[3 + |digits|];
    forall m | i + 3 <= m < j
      ensures es[m] == EChar(digits[m - i - 3], false)
    {
      assert es[m] == w[m - i];
    }
    CloseFromIs(es, i + 3, j);
    assert Bytes(es[i + 3..j]) == digits;
  }

  /** Reading a written construct gives it back, whatever follows that is not a dash. */
  lemma ParseWritten(es: seq<EChar>, i: nat, e: Construct)
    requires ValidConstruct(e) && HasAt(es, i, Written(e)) && i + 2 < |es|
    requires !EsMatch(es, i + |Written(e)|, DASH)
    ensures ParseAt(es, i) == Took(e, i + |Written(e)|)
  {
    hide Written, BracketAt;
    var w := Written(e);
    match e
    case NormalChar(c) =>
      WrittenNormal(c);
      assert es[i] == w[0];
    case Range(first, last) =>
      WrittenRange(first, last);
      assert es[i] == w[0] && es[i + 1] == w[1] && es[i + 2] == w[2];
    case Class(cls) => ParseWrittenClass(es, i, cls);
    case EquivClass(c) => ParseWrittenEquiv(es, i, c);
    case Repeated(c, n) => ParseWrittenRepeat(es, i, c, n);
  }

  lemma WrittenNormal(c: byte)
    ensures Written(NormalChar(c)) == [EChar(c, true)]
  {
  }

  lemma WrittenRange(first: byte, last: byte)
    ensures Written(Range(first, last)) == [EChar(first, true), EChar(DASH, false), EChar(last, true)]
  {
  }

  /** Parsing inverts writing, for every list of constructs and from every place on. */
  lemma {:induction false} ParseInvertsWriting(es: seq<EChar>, i: nat, cs: seq<Construct>)
    requires ValidList(cs) && i <= |es| && es[i..] == WrittenList(cs)
    ensures ParseFrom(es, i) == Some(cs)
    decreases |cs|
  {
    hide ParseAt, Written, HasAt;
    if cs != [] {
      var e, w := cs[0], Written(cs[0]);
      SomethingWritten(e);
      PrefixAt(es, i, w, WrittenList(cs[1..]));
      NoDashFirst(cs[1..]);
      assert !EsMatch(es, i + |w|, DASH) by {
        if i + |w| < |es| {
          assert es[i + |w|] == WrittenList(cs[1..])[0];
        }
      }
      ParseInvertsWriting(es, i + |w|, cs[1..]);
      if i + 2 < |es| {
        ParseWritten(es, i, e);
      } else {
        ShortIsNormal(es, i, e);
      }
      assert [e] + cs[1..] == cs;
    }
  }

  lemma PrefixAt(es: seq<EChar>, i: nat, w: seq<EChar>, rest: seq<EChar>)
    requires i <= |es| && es[i..] == w + rest
    ensures HasAt(es, i, w) && es[i + |w|..] == rest
  {
  }

  lemma SomethingWritten(e: Construct)
    ensures Written(e) != []
  {
  }

  lemma ShortIsNormal(es: seq<EChar>, i: nat, e: Construct)
    requires HasAt(es, i, Written(e)) && i + 2 >= |es|
    ensures i < |es| && e == NormalChar(es[i].c) && |Written(e)| == 1
  {
    assert es[i] == Written(e)[0];
  }

  /** A character written in the source text: an octal escape for an escaped one. */
  function Source(e: EChar): seq<byte> {
    if e.escaped then [BACKSLASH, 48 + e.c / 64, 48 + e.c / 8 % 8, 48 + e.c % 8] else [e.c]
  }

  function SourceText(es: seq<EChar>): seq<byte> {
    if es == [] then [] else Source(es[0]) + SourceText(es[1..])
  }

  /** Characters that can stand for themselves. */
  predicate Writable(es: seq<EChar>) {
    forall k :: 0 <= k < |es| ==> es[k].escaped || (es[k].c != BACKSLASH && es[k].c != 0)
  }

  lemma {:induction false} UnquoteInvertsSource(s: seq<byte>, i: nat, es: seq<EChar>)
    requires Writable(es) && i <= |s| && s[i..] == SourceText(es)
    ensures Unquoted(s, i) == es
    decreases |es|
  {
    hide UnquoteAt, Source;
    if es != [] {
      var x := Source(es[0]);
      SplitAt(s, i, x, SourceText(es[1..]));
      UnquoteSource(s, i, es[0]);
      UnquoteInvertsSource(s, i + |x|, es[1..]);
      assert [es[0]] + es[1..] == es;
    }
  }

  lemma UnquoteSource(s: seq<byte>, i: nat, e: EChar)
    requires Writable([e]) && i + |Source(e)| <= |s|
    requires forall k :: 0 <= k < |Source(e)| ==> s[i + k] == Source(e)[k]
    ensures UnquoteAt(s, i) == (e, i + |Source(e)|)
  {
    var x := Source(e);
    assert [e][0] == e;
    assert s[i + 0] == x[0];
    if e.escaped {
      assert s[i + 1] == x[1] && s[i + 2] == x[2] && s[i + 3] == x[3];
      OctalDigits(e.c);
    }
  }

  lemma OctalDigits(c: byte)
    ensures IsOctal(48 + c / 64) && IsOctal(48 + c / 8 % 8) && IsOctal(48 + c % 8)
    ensures 8 * (8 * (c / 64) + c / 8 % 8) + c % 8 == c
  {
  }

  lemma {:induction false} WrittenIsWritable(cs: seq<Construct>)
    ensures Writable(WrittenList(cs))
  {
    if cs != [] {
      WrittenIsWritable(cs[1..]);
      WrittenOneIsWritable(cs[0]);
    }
  }

  lemma WrittenOneIsWritable(e: Construct)
    ensures Writable(Written(e))
  {
  }

  /** Every list of constructs has a source text, and parsing that text gives exactly the list. */
  lemma ParseSource(cs: seq<Construct>)
    requires ValidList(cs)
    ensures Parse(SourceText(WrittenList(cs))) == Some(cs)
  {
    var es := WrittenList(cs);
    var s := SourceText(es);
    WrittenIsWritable(cs);
    assert s[0..] == s && es[0..] == es;
    UnquoteInvertsSource(s, 0, es);
    ParseInvertsWriting(es, 0, cs);
  }

  function NormalChars(bytes: seq<byte>): (cs: seq<Construct>)
    ensures |cs| == |bytes| && ValidList(cs)
    ensures forall k :: 0 <= k < |bytes| ==> cs[k] == NormalChar(bytes[k])
  {
    seq(|bytes|, k requires 0 <= k < |bytes| => NormalChar(bytes[k]))
  }

  function Octal(bytes: seq<byte>): seq<byte> {
    if bytes == [] then [] else Source(EChar(bytes[0], true)) + Octal(bytes[1..])
  }

  lemma {:induction false} OctalIsSource(bytes: seq<byte>)
    ensures Octal(bytes) == SourceText(WrittenList(NormalChars(bytes)))
    ensures Expand(NormalChars(bytes)) == bytes
  {
    if bytes != [] {
      var cs := NormalChars(bytes);
      assert cs[1..] == NormalChars(bytes[1..]);
      OctalIsSource(bytes[1..]);
      var rest := WrittenList(cs[1..]);
      assert ([EChar(bytes[0], true)] + rest)[1..] == rest;
    }
  }

  /** Any byte string, written as three-digit octal escapes, is a specification that expands to it: escaped
      bytes never act as brackets, dashes or stars. */
  lemma OctalRoundTrip(bytes: seq<byte>)
    ensures Parse(Octal(bytes)) == Some(NormalChars(bytes)) && Expand(NormalChars(bytes)) == bytes
  {
    OctalIsSource(bytes);
    ParseSource(NormalChars(bytes));
  }
}
