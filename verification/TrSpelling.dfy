/** How set specifications of `tr` may be spelled, in the characters of the documented syntax. */
module TrSpelling {
  import opened Streams
  import opened TrSpec
  import opened TrParse
  import Decimal

  // ----- characters and escapes -----

  /** The letters that stand for control characters behind a backslash. */
  predicate NamedEscape(d: byte, v: byte) {
    || (d as char == 'a' && v == 7) || (d as char == 'b' && v == 8) || (d as char == 't' && v == 9)
    || (d as char == 'n' && v == 10) || (d as char == 'v' && v == 11) || (d as char == 'f' && v == 12)
    || (d as char == 'r' && v == 13)
  }

  predicate IsOctalDigit(d: byte) {
    '0' <= d as char <= '7'
  }

  function OctalDigit(d: byte): nat
    requires IsOctalDigit(d)
  {
    d as int - '0' as int
  }

  /** The text denotes the character e when `rest` follows it: a character stands for itself, and a backslash
      is followed by a letter of its own, by up to three octal digits of a number below 256, or by any other
      character, which then has no special meaning. */
  predicate Denotes(text: seq<byte>, rest: seq<byte>, e: EChar) {
    match |text|
    case 0 => false
    case 1 =>
      if text[0] as char == '\\' then rest == [] && e == EChar(text[0], false) else e == EChar(text[0], false)
    case _ =>
      && text[0] as char == '\\' && e.escaped && 0 !in text
      && (var digits := text[1..];
        if IsOctalDigit(digits[0]) then
          match |digits|
          case 1 => e.c == OctalDigit(digits[0]) && (rest == [] || !IsOctalDigit(rest[0]))
          case 2 =>
            && IsOctalDigit(digits[1]) && e.c == 8 * OctalDigit(digits[0]) + OctalDigit(digits[1])
            && (rest == [] || !IsOctalDigit(rest[0]) || 8 * e.c + OctalDigit(rest[0]) > 255)
          case 3 =>
            && IsOctalDigit(digits[1]) && IsOctalDigit(digits[2])
            && e.c == 64 * OctalDigit(digits[0]) + 8 * OctalDigit(digits[1]) + OctalDigit(digits[2])
          case _ => false
        else
          |digits| == 1 && (NamedEscape(digits[0], e.c) || (digits[0] !in Ascii("abtnvfr") && e.c == digits[0])))
  }

  /** Every text that denotes a character is unquoted to that character. */
  lemma UnquoteDenoted(s: seq<byte>, i: nat, text: seq<byte>, rest: seq<byte>, e: EChar)
    requires i <= |s| && s[i..] == text + rest && Denotes(text, rest, e)
    ensures i < |s| && UnquoteAt(s, i) == (e, i + |text|) && s[i + |text|..] == rest
  {
    SplitAt(s, i, text, rest);
    assert rest != [] ==> s[i + |text|] == rest[0];
    if |text| >= 2 {
      assert s[i] == text[0] && s[i + 1] == text[1];
      var abc := Ascii("abtnvfr");
      assert abc == [97, 98, 116, 110, 118, 102, 114];
      assert |text| >= 3 ==> s[i + 2] == text[2];
      assert |text| >= 4 ==> s[i + 3] == text[3];
    } else {
      assert s[i] == text[0];
    }
  }

  /** The texts denote the characters one after the other. */
  predicate DenotesAll(texts: seq<seq<byte>>, es: seq<EChar>) {
    && |texts| == |es|
    && forall k :: 0 <= k < |es| ==> Denotes(texts[k], Flatten(texts[k + 1..]), es[k])
  }

  lemma {:induction false} UnquoteText(s: seq<byte>, i: nat, texts: seq<seq<byte>>, es: seq<EChar>)
    requires i <= |s| && s[i..] == Flatten(texts) && DenotesAll(texts, es)
    ensures Unquoted(s, i) == es
    decreases |es|
  {
    hide Denotes, UnquoteAt;
    if es != [] {
      var rest := Flatten(texts[1..]);
      UnquoteDenoted(s, i, texts[0], rest, es[0]);
      forall k | 0 <= k < |es[1..]|
        ensures Denotes(texts[1..][k], Flatten(texts[1..][k + 1..]), es[1..][k])
      {
        assert texts[1..][k + 1..] == texts[k + 1 + 1..];
        assert Denotes(texts[k + 1], Flatten(texts[k + 1 + 1..]), es[k + 1]);
      }
      UnquoteText(s, i + |texts[0]|, texts[1..], es[1..]);
      assert [es[0]] + es[1..] == es;
    }
  }

  lemma DenotedAt(s: seq<byte>, i: nat)
    requires i < |s| && 0 !in s
    ensures var (e, next) := UnquoteAt(s, i);
      Denotes(s[i..next], s[next..], e)
  {
    var (e, next) := UnquoteAt(s, i);
    var text, rest := s[i..next], s[next..];
    assert Ascii("abtnvfr") == [97, 98, 116, 110, 118, 102, 114];
    assert forall k :: 0 <= k < |text| ==> text[k] == s[i + k];
    assert rest != [] ==> rest[0] == s[next];
    assert |text| > 1 ==> forall k :: 0 <= k < |text| - 1 ==> text[1..][k] == s[i + 1 + k];
  }

  /** Every text without null characters is a row of texts that denote what it is unquoted to. */
  lemma {:induction false} UnquotedIsDenoted(s: seq<byte>, i: nat) returns (texts: seq<seq<byte>>)
    requires i <= |s| && 0 !in s
    ensures Flatten(texts) == s[i..] && DenotesAll(texts, Unquoted(s, i))
    decreases |s| - i
  {
    hide Denotes, UnquoteAt;
    if i == |s| {
      texts := [];
    } else {
      DenotedAt(s, i);
      var (e, next) := UnquoteAt(s, i);
      var more := UnquotedIsDenoted(s, next);
      texts := [s[i..next]] + more;
      var es := Unquoted(s, i);
      assert es == [e] + Unquoted(s, next) && texts[1..] == more;
      forall k | 0 <= k < |es|
        ensures Denotes(texts[k], Flatten(texts[k + 1..]), es[k])
      {
        if k > 0 {
          assert texts[k + 1..] == more[k..] && texts[k] == more[k - 1] && es[k] == Unquoted(s, next)[k - 1];
          assert Denotes(more[k - 1], Flatten(more[k - 1 + 1..]), Unquoted(s, next)[k - 1]);
        }
      }
    }
  }

  /** Without backslashes every character stands for itself. */
  lemma {:induction false} UnquotePlain(s: seq<byte>, i: nat)
    requires i <= |s| && '\\' as int !in s
    ensures Unquoted(s, i) == Plain(s[i..])
    decreases |s| - i
  {
    if i < |s| {
      UnquotePlain(s, i + 1);
      assert Plain(s[i..]) == [EChar(s[i], false)] + Plain(s[i + 1..]);
    }
  }

  // ----- constructs -----

  /** The unescaped character c stands at i. */
  predicate Shows(es: seq<EChar>, i: nat, c: char) {
    i < |es| && !es[i].escaped && es[i].c as char == c
  }

  /** Behind a bracket at i stands the character c, and somewhere later c and a closing bracket. */
  predicate Closes(es: seq<EChar>, i: nat, c: char) {
    Shows(es, i + 1, c) && exists j :: i + 2 <= j < |es| && Shows(es, j, c) && Shows(es, j + 1, ']')
  }

  /** Behind a bracket at i stand some character, a star, and unescaped characters up to a closing bracket. */
  predicate Stars(es: seq<EChar>, i: nat) {
    && Shows(es, i + 2, '*')
    && exists j :: i + 3 <= j < |es| && Shows(es, j, ']') && forall m :: i + 3 <= m < j ==> !es[m].escaped
  }

  /** A bracket at i begins a class, an equivalence class or a repeat, or what must be an attempt at one. */
  predicate Opens(es: seq<EChar>, i: nat) {
    Shows(es, i, '[') && (Closes(es, i, ':') || Closes(es, i, '=') || Stars(es, i))
  }

  predicate IsBlank(c: byte) {
    c as char == ' ' || '\t' <= c as char <= '\r'
  }

  /** An octal number behind a zero, or a decimal number behind any blanks and perhaps a plus sign. */
  ghost predicate Numeral(text: seq<byte>, n: nat) {
    && text != []
    && if text[0] as char == '0' then Decimal.AllDigits(text, 8) && Decimal.Value(text, 8) == n
       else exists k, m :: IsNumeral(text, k, m, n)
  }

  predicate IsNumeral(text: seq<byte>, k: int, m: int, n: nat) {
    && 0 <= k <= m < |text| && (forall x :: 0 <= x < k ==> IsBlank(text[x]))
    && (m == k || (m == k + 1 && text[k] as char == '+'))
    && Decimal.AllDigits(text[m..], 10) && Decimal.Value(text[m..], 10) == n
  }

  function NameOf(cls: CharClass): string {
    match cls
    case Alnum => "alnum" case Alpha => "alpha" case Blank => "blank" case Cntrl => "cntrl"
    case Digit => "digit" case Graph => "graph" case Lower => "lower" case Print => "print"
    case Punct => "punct" case Space => "space" case Upper => "upper" case Xdigit => "xdigit"
  }

  /** The characters from i to j spell the construct.  Bytes that are not syntax may be escaped or not; one that
      stands for itself must not begin a bracketed construct, nor be followed by a dash and another one. */
  ghost predicate Spelled(es: seq<EChar>, i: nat, j: nat, e: Construct) {
    match e
    case NormalChar(c) =>
      j == i + 1 <= |es| && es[i].c == c && (i + 2 < |es| ==> !Opens(es, i) && !Shows(es, i + 1, '-'))
    case Range(first, last) =>
      && j == i + 3 <= |es| && es[i].c == first && Shows(es, i + 1, '-') && es[i + 2].c == last
      && first <= last && !Opens(es, i)
    case Class(cls) =>
      && i + 4 <= j <= |es| && Shows(es, i, '[') && Shows(es, i + 1, ':')
      && Bytes(es[i + 2..j - 2]) == Ascii(NameOf(cls)) && Shows(es, j - 2, ':') && Shows(es, j - 1, ']')
    case EquivClass(c) =>
      && j == i + 5 <= |es| && Shows(es, i, '[') && Shows(es, i + 1, '=') && es[i + 2].c == c
      && Shows(es, i + 3, '=') && Shows(es, i + 4, ']')
    case Repeated(c, n) =>
      && i + 4 <= j <= |es| && Shows(es, i, '[') && es[i + 1].c == c && Shows(es, i + 2, '*')
      && Shows(es, j - 1, ']') && SpelledCount(es, i, j - 1, n)
  }

  /** The count between the star behind i and the closing bracket at j.  Where the bracket could also begin a
      class, only digits will do. */
  ghost predicate SpelledCount(es: seq<EChar>, i: nat, j: nat, n: nat)
    requires i + 3 <= j < |es|
  {
    && (forall m :: i + 3 <= m < j ==> !es[m].escaped && es[m].c as char != ']')
    && (Closes(es, i, ':') || Closes(es, i, '=') ==> Decimal.AllDigits(Bytes(es[i + 3..j]), 10))
    && n < 0xFFFF_FFFF_FFFF_FFFF
    && if j == i + 3 then n == 0 else Numeral(Bytes(es[i + 3..j]), n)
  }

  ghost predicate Spells(es: seq<EChar>, i: nat, cs: seq<Construct>)
    decreases |cs|
  {
    if cs == [] then i == |es|
    else exists j: nat :: i < j <= |es| && Spelled(es, i, j, cs[0]) && Spells(es, j, cs[1..])
  }

  // ----- the searches -----

  lemma {:induction false} FirstCloseMeans(es: seq<EChar>, k: nat, pre: byte)
    ensures var r := FirstClose(es, k, pre);
      if r.Some? then ClosesAt(es, r.value, pre) && forall m :: k <= m < r.value ==> !ClosesAt(es, m, pre)
      else forall m :: k <= m ==> !ClosesAt(es, m, pre)
    decreases |es| - k
  {
    if k + 1 < |es| && !ClosesAt(es, k, pre) {
      FirstCloseMeans(es, k + 1, pre);
    }
  }

  lemma ClosesExactly(es: seq<EChar>, i: nat, c: char)
    requires c == ':' || c == '='
    ensures Closes(es, i, c) <==> EsMatch(es, i + 1, c as byte) && FirstClose(es, i + 2, c as byte).Some?
  {
    FirstCloseMeans(es, i + 2, c as byte);
    var r := FirstClose(es, i + 2, c as byte);
    if r.Some? {
      assert Shows(es, r.value, c) && Shows(es, r.value + 1, ']');
    }
    if j :| i + 2 <= j < |es| && Shows(es, j, c) && Shows(es, j + 1, ']') {
      assert ClosesAt(es, j, c as byte);
    }
  }

  /** Up to the first closing bracket, if no escaped character comes before it. */
  lemma {:induction false} CloseFromMeans(es: seq<EChar>, k: nat)
    ensures var r := CloseFrom(es, k);
      if r.Some? then
        Shows(es, r.value, ']') && forall m :: k <= m < r.value ==> !es[m].escaped && es[m].c as char != ']'
      else forall j :: k <= j && Shows(es, j, ']') ==> exists m :: k <= m < j && es[m].escaped
    decreases |es| - k
  {
    if k < |es| && !es[k].escaped && es[k].c != CLOSE {
      CloseFromMeans(es, k + 1);
    }
  }

  lemma StarsExactly(es: seq<EChar>, i: nat)
    requires i + 2 < |es|
    ensures Stars(es, i) <==> RepeatAt(es, i + 1) != Nothing
  {
    hide RepeatCount, CloseFrom;
    CloseFromMeans(es, i + 3);
  }

  lemma {:induction false} DigitsExactly(es: seq<EChar>, k: nat, j: nat)
    requires k <= j < |es| && EsMatch(es, j, CLOSE)
    requires forall m :: k <= m < j ==> !es[m].escaped && es[m].c != CLOSE
    ensures DigitsThenClose(es, k) <==> forall m :: k <= m < j ==> IsDigit(es[m].c)
    decreases j - k
  {
    if k < j && IsDigit(es[k].c) {
      DigitsExactly(es, k + 1, j);
    }
  }

  lemma {:induction false} DigitsNeedClose(es: seq<EChar>, k: nat)
    ensures DigitsThenClose(es, k) ==> CloseFrom(es, k).Some?
    decreases |es| - k
  {
    if k < |es| && IsDigit(es[k].c) && !es[k].escaped {
      DigitsNeedClose(es, k + 1);
    }
  }

  // ----- counts -----

  lemma {:induction false} BlanksPassed(text: seq<byte>)
    ensures var rest := SkipBlanks(text);
      var k := |text| - |rest|;
      && 0 <= k && rest == text[k..] && (forall x :: 0 <= x < k ==> IsBlank(text[x]))
      && (rest == [] || !IsBlank(rest[0]))
  {
    if text != [] && IsMember(Space, text[0]) {
      BlanksPassed(text[1..]);
      var k := |text| - |SkipBlanks(text)|;
      assert text[1..][k - 1..] == text[k..];
      assert forall x :: 0 < x < k ==> text[x] == text[1..][x - 1];
    }
  }

  lemma CountExactly(text: seq<byte>, n: nat)
    requires text != []
    ensures RepeatCount(text) == Some(n) <==> Numeral(text, n) && n < 0xFFFF_FFFF_FFFF_FFFF
  {
    hide Decimal.Value;
    BlanksPassed(text);
    var rest, ds := SkipBlanks(text), Unsigned(text);
    var k := |text| - |rest|;
    if text[0] == 48 {
      assert k == 0 && ds == text;
    } else {
      var m := |text| - |ds|;
      assert ds == text[m..];
      if RepeatCount(text) == Some(n) {
        assert IsNumeral(text, k, m, n);
      }
      if k', m' :| IsNumeral(text, k', m', n) {
        NumeralIsUnique(text, k, k', m', n);
      }
    }
  }

  lemma NumeralIsUnique(text: seq<byte>, k: nat, k': int, m': int, n: nat)
    requires k <= |text| && (forall x :: 0 <= x < k ==> IsBlank(text[x])) && (k < |text| ==> !IsBlank(text[k]))
    requires IsNumeral(text, k', m', n)
    ensures k == k' && (m' == k || (m' == k + 1 && text[k] == PLUS)) && (m' == k ==> text[k] != PLUS)
  {
    hide Decimal.Value;
    assert Decimal.IsDigitIn(text[m'..][0], 10);
    assert !IsBlank(text[m']) && (m' == k' + 1 ==> !IsBlank(text[k']));
  }

  // ----- whatever is spelled is read, and nothing else -----

  lemma OpensExactly(es: seq<EChar>, i: nat)
    requires i + 2 < |es| && EsMatch(es, i, OPEN)
    ensures Opens(es, i) <==> BracketAt(es, i) != Nothing
  {
    hide FirstClose, RepeatAt, DigitsThenClose, Closes, Stars;
    ClosesExactly(es, i, ':');
    ClosesExactly(es, i, '=');
    StarsExactly(es, i);
    DigitsStar(es, i);
  }

  lemma DigitsStar(es: seq<EChar>, i: nat)
    requires i + 2 < |es|
    ensures EsMatch(es, i + 2, STAR) && DigitsThenClose(es, i + 3) ==> RepeatAt(es, i + 1) != Nothing
  {
    hide CloseFrom, DigitsThenClose, RepeatCount;
    DigitsNeedClose(es, i + 3);
  }

  lemma NamesAgree(cls: CharClass)
    ensures Ascii(NameOf(cls)) == ClassName(cls)
  {
  }

  lemma SpelledClass(es: seq<EChar>, i: nat, j: nat, cls: CharClass)
    requires Spelled(es, i, j, Class(cls))
    ensures i + 2 < |es| && BracketAt(es, i) == Took(Class(cls), j)
  {
    hide ClassName, RepeatAt, FirstClose, NameOf, DigitsThenClose;
    NamesAgree(cls);
    var name := Bytes(es[i + 2..j - 2]);
    forall m | i + 2 <= m < j - 2
      ensures !EsMatch(es, m, COLON)
    {
      assert IsLower(name[m - i - 2]);
    }
    FirstCloseIs(es, i + 2, j - 2, COLON);
    NamesDiffer(cls, ClassNamed(name).value);
  }

  lemma SpelledEquiv(es: seq<EChar>, i: nat, c: byte)
    requires Spelled(es, i, i + 5, EquivClass(c))
    ensures BracketAt(es, i) == Took(EquivClass(c), i + 5)
  {
    hide FirstClose, RepeatAt;
    FirstCloseMeans(es, i + 2, EQUALS);
    assert ClosesAt(es, i + 3, EQUALS) && !ClosesAt(es, i + 2, EQUALS);
  }

  lemma SpelledRepeat(es: seq<EChar>, i: nat, j: nat, c: byte, n: nat)
    requires Spelled(es, i, j, Repeated(c, n))
    ensures i + 2 < |es| && BracketAt(es, i) == Took(Repeated(c, n), j)
  {
    hide FirstClose, CloseFrom, RepeatCount, DigitsThenClose, Numeral, Closes;
    var text := Bytes(es[i + 3..j - 1]);
    CloseFromIs(es, i + 3, j - 1);
    if text != [] {
      CountExactly(text, n);
    }
    assert RepeatAt(es, i + 1) == Took(Repeated(c, n), j);
    RepeatIsTaken(es, i, j - 1);
  }

  /** A star and digits behind a bracket make a repeat, whatever character stands between; a star and anything
      else do if no class can be meant. */
  lemma RepeatIsTaken(es: seq<EChar>, i: nat, j: nat)
    requires i + 3 <= j < |es| && Shows(es, i, '[') && Shows(es, i + 2, '*') && Shows(es, j, ']')
    requires forall m :: i + 3 <= m < j ==> !es[m].escaped && es[m].c as char != ']'
    requires Closes(es, i, ':') || Closes(es, i, '=') ==> Decimal.AllDigits(Bytes(es[i + 3..j]), 10)
    ensures BracketAt(es, i) == RepeatAt(es, i + 1)
  {
    hide FirstClose, RepeatAt, ClassName, DigitsThenClose, Closes;
    ClosesExactly(es, i, ':');
    ClosesExactly(es, i, '=');
    DigitsExactly(es, i + 3, j);
    assert forall m :: i + 3 <= m < j ==> Bytes(es[i + 3..j])[m - i - 3] == es[m].c;
    assert Closes(es, i, ':') || Closes(es, i, '=') ==> DigitsThenClose(es, i + 3);
    FirstCloseMeans(es, i + 2, es[i + 1].c);
    var close := FirstClose(es, i + 2, es[i + 1].c);
    if (EsMatch(es, i + 1, COLON) || EsMatch(es, i + 1, EQUALS)) && close.Some? {
      assert close.value != i + 2 && close.value != i + 3;
      var name := Bytes(es[i + 2..close.value]);
      assert name[0] == STAR;
      var cls := ClassNamed(name);
      assert cls.Some? ==> IsLower(ClassName(cls.value)[0]);
    }
  }

  lemma SpelledIsRead(es: seq<EChar>, i: nat, j: nat, e: Construct)
    requires Spelled(es, i, j, e) && ValidConstruct(e) && i + 2 < |es|
    ensures ParseAt(es, i) == Took(e, j)
  {
    hide BracketAt, Opens, Numeral;
    if EsMatch(es, i, OPEN) {
      OpensExactly(es, i);
    }
    match e
    case NormalChar(c) =>
    case Range(first, last) =>
    case Class(cls) => SpelledClass(es, i, j, cls);
    case EquivClass(c) => SpelledEquiv(es, i, c);
    case Repeated(c, n) => SpelledRepeat(es, i, j, c, n);
  }

  lemma BracketIsSpelled(es: seq<EChar>, i: nat)
    requires i + 2 < |es| && EsMatch(es, i, OPEN)
    ensures BracketAt(es, i).Took? ==> Spelled(es, i, BracketAt(es, i).next, BracketAt(es, i).e)
  {
    hide FirstClose, CloseFrom, RepeatCount, DigitsThenClose, Numeral, Closes, ClassName, NameOf;
    FirstCloseMeans(es, i + 2, es[i + 1].c);
    ClosesExactly(es, i, ':');
    ClosesExactly(es, i, '=');
    var r := BracketAt(es, i);
    if r.Took? && r.e.Class? {
      NamesAgree(r.e.cls);
    } else if r.Took? && r.e.Repeated? {
      CloseFromMeans(es, i + 3);
      var j := r.next - 1;
      DigitsExactly(es, i + 3, j);
      var text := Bytes(es[i + 3..j]);
      assert forall m :: 0 <= m < |text| ==> text[m] == es[i + 3 + m].c;
      if text != [] {
        CountExactly(text, r.e.count);
      }
    }
  }

  lemma ReadIsSpelled(es: seq<EChar>, i: nat)
    requires i + 2 < |es|
    ensures ParseAt(es, i).Took? ==> Spelled(es, i, ParseAt(es, i).next, ParseAt(es, i).e)
  {
    hide BracketAt, Closes, Stars;
    if EsMatch(es, i, OPEN) {
      OpensExactly(es, i);
      BracketIsSpelled(es, i);
    } else {
      assert !Opens(es, i);
    }
  }

  lemma {:induction false} ParseSpelled(es: seq<EChar>, i: nat, cs: seq<Construct>)
    requires ValidList(cs) && i <= |es| && Spells(es, i, cs)
    ensures ParseFrom(es, i) == Some(cs)
    decreases |cs|
  {
    hide ParseAt, Opens, Numeral;
    if cs != [] {
      var j: nat :| i < j <= |es| && Spelled(es, i, j, cs[0]) && Spells(es, j, cs[1..]);
      ParseSpelled(es, j, cs[1..]);
      if i + 2 < |es| {
        SpelledIsRead(es, i, j, cs[0]);
      }
      assert [cs[0]] + cs[1..] == cs;
    }
  }

  lemma {:induction false} ParsedIsSpelled(es: seq<EChar>, i: nat)
    requires i <= |es| && ParseFrom(es, i).Some?
    ensures Spells(es, i, ParseFrom(es, i).value)
    decreases |es| - i
  {
    hide ParseAt, Spelled;
    if i < |es| {
      var cs := ParseFrom(es, i).value;
      var j := if i + 2 < |es| then ParseAt(es, i).next else i + 1;
      if i + 2 < |es| {
        ReadIsSpelled(es, i);
      } else {
        LastIsSpelled(es, i);
      }
      ParsedIsSpelled(es, j);
      assert cs[1..] == ParseFrom(es, j).value && Spelled(es, i, j, cs[0]);
    }
  }

  lemma LastIsSpelled(es: seq<EChar>, i: nat)
    requires i < |es| <= i + 2
    ensures Spelled(es, i, i + 1, NormalChar(es[i].c))
  {
  }

  /** A specification is read as a list of constructs exactly if it is spelled that way, with whatever marks on
      the bytes that are not syntax; whatever is not spelled is rejected. */
  lemma ParseIsSpelling(es: seq<EChar>, cs: seq<Construct>)
    ensures ParseFrom(es, 0) == Some(cs) <==> ValidList(cs) && Spells(es, 0, cs)
  {
    hide ParseFrom, Spells;
    if ValidList(cs) && Spells(es, 0, cs) {
      ParseSpelled(es, 0, cs);
    } else if ParseFrom(es, 0) == Some(cs) {
      ParsedIsSpelled(es, 0);
    }
  }
}
