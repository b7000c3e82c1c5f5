/** What `tr` does, said without the definitions of its parts: in characters, and by what the output holds. */
module TrLaws {
  import opened Streams
  import opened TrSpec
  import opened TrFilter
  import opened TrAlign
  import TrAlignLaws
  import opened TrValidate
  import opened TrParse
  import TrSpelling
  import TrTranslate
  import opened Tr

  // ----- classes and constructs -----

  /** The members of the classes in ASCII, and how the classes are made of each other. */
  lemma ClassesInCharacters(c: byte)
    ensures var ch := c as char;
      && (IsMember(Lower, c) <==> 'a' <= ch <= 'z') && (IsMember(Upper, c) <==> 'A' <= ch <= 'Z')
      && (IsMember(Digit, c) <==> '0' <= ch <= '9') && (IsMember(Blank, c) <==> ch == ' ' || ch == '\t')
      && (IsMember(Space, c) <==> ch == ' ' || '\t' <= ch <= '\r')
      && (IsMember(Print, c) <==> ' ' <= ch <= '~') && (IsMember(Graph, c) <==> IsMember(Print, c) && ch != ' ')
      && (IsMember(Cntrl, c) <==> c < 128 && !IsMember(Print, c))
      && (IsMember(Alpha, c) <==> IsMember(Lower, c) || IsMember(Upper, c))
      && (IsMember(Alnum, c) <==> IsMember(Alpha, c) || IsMember(Digit, c))
      && (IsMember(Punct, c) <==> IsMember(Graph, c) && !IsMember(Alnum, c))
      && (IsMember(Xdigit, c) <==> IsMember(Digit, c) || 'a' <= ch <= 'f' || 'A' <= ch <= 'F')
  {
  }

  /** A range is its bytes ascending, a class its members ascending, a repeat its copies. */
  lemma ConstructsExpand(e: Construct)
    requires ValidConstruct(e)
    ensures var x := Expand([e]);
      match e
      case NormalChar(c) => x == [c]
      case EquivClass(c) => x == [c]
      case Range(first, last) =>
        |x| == last as int - first as int + 1 && forall k :: 0 <= k < |x| ==> x[k] as int == first as int + k
      case Class(cls) =>
        (forall c: byte :: c in x <==> IsMember(cls, c)) && forall j, k :: 0 <= j < k < |x| ==> x[j] < x[k]
      case Repeated(c, n) => |x| == n && forall k :: 0 <= k < n ==> x[k] == c
  {
    hide MembersFrom, IsMember;
    ExpandSingle(e);
    if e.Class? {
      var members := set c: byte | IsMember(e.cls, c);
      MembersAscend(e.cls, 0, members);
    }
  }

  /** The bytes of a set from one on, ascending. */
  predicate Lists(x: seq<byte>, from: nat, members: set<byte>) {
    && (forall c: byte :: c in x <==> from <= c && c in members)
    && forall j, k :: 0 <= j < k < |x| ==> x[j] < x[k]
  }

  lemma ListsMore(x: seq<byte>, from: byte, members: set<byte>)
    requires Lists(x, from + 1, members)
    ensures Lists((if from in members then [from] else []) + x, from, members)
  {
    var y := (if from in members then [from] else []) + x;
    assert forall k :: 0 <= k < |x| ==> x[k] in x;
    forall c: byte
      ensures c in y <==> from <= c && c in members
    {
      assert c in y <==> (c == from && from in members) || c in x;
    }
  }

  lemma {:induction false} MembersAscend(cls: CharClass, from: nat, members: set<byte>)
    requires from <= N_CHARS && forall c: byte :: c in members <==> IsMember(cls, c)
    ensures Lists(MembersFrom(cls, from), from, members)
    decreases N_CHARS - from
  {
    hide IsMember, Lists;
    if from < N_CHARS {
      MembersAscend(cls, from + 1, members);
      ListsMore(MembersFrom(cls, from + 1), from, members);
    } else {
      NothingListed(members);
    }
  }

  lemma NothingListed(members: set<byte>)
    ensures Lists([], N_CHARS, members)
  {
  }

  /** The complement of a set is the other bytes ascending. */
  lemma ComplementAscends(chars: seq<byte>)
    ensures var x := ComplementOf(chars);
      && (forall c: byte :: c in x <==> c !in chars) && forall j, k :: 0 <= j < k < |x| ==> x[j] < x[k]
  {
    var members := Elements(chars);
    var others := set c: byte | c !in members;
    OutsideAscends(members, 0, others);
    assert forall c: byte :: c in others <==> c !in chars;
  }

  lemma {:induction false} OutsideAscends(members: set<byte>, from: nat, others: set<byte>)
    requires from <= N_CHARS && forall c: byte :: c in others <==> c !in members
    ensures Lists(Outside(members, from), from, others)
    decreases N_CHARS - from
  {
    hide Lists;
    if from < N_CHARS {
      OutsideAscends(members, from + 1, others);
      ListsMore(Outside(members, from + 1), from, others);
    } else {
      NothingListed(others);
    }
  }

  // ----- filters -----

  /** The elements of s that are marked. */
  function Picked(s: seq<byte>, marks: seq<bool>): seq<byte>
    requires |marks| == |s|
  {
    if s == [] then [] else (if marks[0] then [s[0]] else []) + Picked(s[1..], marks[1..])
  }

  /** Marks what is outside a set or its complement. */
  function Outsiders(s: seq<byte>, set': seq<byte>, complement: bool): (marks: seq<bool>)
    ensures |marks| == |s|
  {
    seq(|s|, k requires 0 <= k < |s| => (s[k] in set') == complement)
  }

  /** Marks what does not repeat a member of a set or its complement. */
  function NonRepeats(s: seq<byte>, set': seq<byte>, complement: bool): (marks: seq<bool>)
    ensures |marks| == |s|
  {
    seq(|s|, k requires 0 <= k < |s| => !((s[k] in set') != complement && k > 0 && s[k - 1] == s[k]))
  }

  lemma {:induction false} DeletedIsPicked(s: seq<byte>, set': seq<byte>, complement: bool)
    ensures Deleted(Table(set', complement), s) == Picked(s, Outsiders(s, set', complement))
  {
    if s != [] {
      assert Outsiders(s, set', complement)[1..] == Outsiders(s[1..], set', complement);
      DeletedIsPicked(s[1..], set', complement);
    }
  }

  lemma {:induction false} SqueezedIsPicked(s: seq<byte>, set': seq<byte>, complement: bool, n: nat)
    requires n <= |s|
    ensures SqueezedFrom(Table(set', complement), s, n) == Picked(s[n..], NonRepeats(s, set', complement)[n..])
    decreases |s| - n
  {
    if n < |s| {
      var marks := NonRepeats(s, set', complement);
      assert s[n..][0] == s[n] && s[n..][1..] == s[n + 1..];
      assert marks[n..][0] == marks[n] && marks[n..][1..] == marks[n + 1..];
      SqueezedIsPicked(s, set', complement, n + 1);
    }
  }

  lemma SqueezedIsAllPicked(s: seq<byte>, set': seq<byte>, complement: bool)
    ensures Squeezed(Table(set', complement), s) == Picked(s, NonRepeats(s, set', complement))
  {
    SqueezedIsPicked(s, set', complement, 0);
    assert s[0..] == s && NonRepeats(s, set', complement)[0..] == NonRepeats(s, set', complement);
  }

  // ----- operands and checks -----

  /** The numbers of operands that a run takes: one more if options ask for both or neither of the filters. */
  lemma OperandCount(o: Options, two: bool)
    ensures var count := if two then 2 else 1;
      var least := 1 + (if o.delete == o.squeeze then 1 else 0);
      var most := 1 + (if o.delete && !o.squeeze then 0 else 1);
      OperandsFit(o, two) <==> least <= count <= most
  {
  }

  ghost predicate NoIndefiniteIn(es: seq<Construct>) {
    forall i :: 0 <= i < |es| ==> !(es[i].Repeated? && es[i].count == 0)
  }

  ghost predicate OneIndefiniteIn(es: seq<Construct>) {
    forall i, j :: 0 <= i < j < |es| && es[i].Repeated? && es[i].count == 0 ==> !(es[j].Repeated? && es[j].count == 0)
  }

  lemma {:induction false} AtMostOneIndefinite(es: seq<Construct>)
    ensures CountIndefinite(es) <= 1 <==> OneIndefiniteIn(es)
  {
    if es != [] {
      AtMostOneIndefinite(es[1..]);
      NoIndefinite(es[1..]);
      assert forall i :: 0 < i < |es| ==> es[i] == es[1..][i - 1];
      assert forall i :: 0 <= i < |es[1..]| ==> es[1..][i] == es[i + 1];
    }
  }

  /** Set 1 is accepted exactly if it has no `[c*]` and is not too long. */
  lemma SetOneAccepted(es1: seq<Construct>)
    requires ValidList(es1)
    ensures Acceptable1(es1) <==> NoIndefiniteIn(es1) && |Expand(es1)| <= REPEAT_COUNT_MAXIMUM
  {
    hide Expand;
    NoIndefinite(es1);
  }

  /** Two sets without case classes in the second, and for complements without classes in the first, are
      accepted for translation exactly if set 1 is, set 2 has no class or equivalence class, at most one `[c*]`
      and is not too long, and set 2 has a byte to go on with if it needs one. */
  lemma PlainSetsAccepted(es1: seq<Construct>, es2: seq<Construct>, complement: bool, truncate: bool)
    requires ValidList(es1) && ValidList(es2)
    requires forall i :: 0 <= i < |es2| ==> es2[i] != Class(Lower) && es2[i] != Class(Upper)
    requires complement ==> forall i :: 0 <= i < |es1| ==> !es1[i].Class?
    ensures Acceptable2(es1, es2, complement, truncate) <==>
      && NoIndefiniteIn(es1) && |Expand(es1)| <= REPEAT_COUNT_MAXIMUM
      && (forall i :: 0 <= i < |es2| ==> !es2[i].Class? && !es2[i].EquivClass?)
      && OneIndefiniteIn(es2) && |Expand(es2)| <= REPEAT_COUNT_MAXIMUM
      && (truncate || Expand(es2) != [] || !NoIndefiniteIn(es2) || Length1(es1, complement) == 0)
  {
    hide Expand, Align, CountIndefinite, ComplementOf;
    NoIndefinite(es1);
    NoIndefinite(es2);
    AtMostOneIndefinite(es2);
    if complement {
      ComplementSize(Expand(es1));
    }
    if Acceptable1(es1) && CountIndefinite(es2) <= 1 && |Expand(es2)| <= REPEAT_COUNT_MAXIMUM {
      ResolvedLength(es2, Length1(es1, complement));
      ResolvedShape(es2, Length1(es1, complement));
    }
  }

  /** The one `[c*]` of set 2 stands for as many copies as set 1 is longer than the rest of set 2. */
  lemma StretchedRepeat(before: seq<Construct>, c: byte, behind: seq<Construct>, n: nat)
    requires ValidList(before) && ValidList(behind) && NoIndefiniteIn(before) && NoIndefiniteIn(behind)
    requires n <= REPEAT_COUNT_MAXIMUM
    ensures var es2, m := before + [Repeated(c, 0)] + behind, |Expand(before)| + |Expand(behind)|;
      Expand(Resolved(es2, n)) == Expand(before) + Copies(c, if n < m then 0 else n - m) + Expand(behind)
  {
    hide Expand, Expand1, CountIndefinite;
    var es2, m := before + [Repeated(c, 0)] + behind, |Expand(before)| + |Expand(behind)|;
    var k := |before|;
    OneRepeat(before, c, behind);
    ExpandThree(before, Repeated(c, 0), behind);
    if n >= m {
      assert IsIndefinite(es2[k]);
      assert es2[k := Repeated(c, n - m)] == before + [Repeated(c, n - m)] + behind;
      ExpandThree(before, Repeated(c, n - m), behind);
    }
  }

  lemma OneRepeat(before: seq<Construct>, c: byte, behind: seq<Construct>)
    requires NoIndefiniteIn(before) && NoIndefiniteIn(behind)
    ensures CountIndefinite(before + [Repeated(c, 0)] + behind) == 1
  {
    var es := before + [Repeated(c, 0)] + behind;
    AtMostOneIndefinite(es);
    NoIndefinite(es);
    assert IsIndefinite(es[|before|]);
  }

  lemma ExpandThree(before: seq<Construct>, e: Construct, behind: seq<Construct>)
    requires ValidList(before) && ValidList(behind) && e.Repeated? && ValidConstruct(e)
    ensures Expand(before + [e] + behind) == Expand(before) + Copies(e.c, e.count) + Expand(behind)
  {
    hide Expand;
    ExpandSingle(e);
    ExpandAppend(before, [e]);
    ExpandAppend(before + [e], behind);
  }

  lemma ResolvedShape(es2: seq<Construct>, n: nat)
    requires ValidList(es2) && n <= REPEAT_COUNT_MAXIMUM
    ensures var r := Resolved(es2, n);
      |r| == |es2| && (Expand(r) != [] ==> r != []) && forall i :: 0 <= i < |r| ==> (r[i].Class? <==> es2[i].Class?)
  {
    hide CountIndefinite;
    EmptyList();
  }

  /** Any two sets are accepted for translation exactly if set 1 has no `[c*]` and set 2 at most one; neither is
      too long; set 2, its `[c*]` stretched to the length of set 1, has no classes but case classes, which begin
      where case classes of set 1 do, and goes on with a byte of its own if it must; and, if classes are
      complemented, it consists of one byte value only. */
  lemma SetsAccepted(es1: seq<Construct>, es2: seq<Construct>, complement: bool, truncate: bool)
    requires ValidList(es1) && ValidList(es2)
    ensures Acceptable2(es1, es2, complement, truncate) <==>
      && NoIndefiniteIn(es1) && OneIndefiniteIn(es2)
      && |Expand(es1)| <= REPEAT_COUNT_MAXIMUM && |Expand(es2)| <= REPEAT_COUNT_MAXIMUM
      && (forall i :: 0 <= i < |es2| ==> !es2[i].EquivClass? && (es2[i].Class? ==> es2[i].cls in {Lower, Upper}))
      && var n := Length1(es1, complement);
         n <= REPEAT_COUNT_MAXIMUM &&
         var r := Resolved(es2, n);
         && (complement || TrAlignLaws.LineUp(es1, r))
         && (truncate || |Expand(r)| >= n || (Expand(r) != [] && r != [] && !r[|r| - 1].Class?))
         && (complement && (exists i :: 0 <= i < |es1| && es1[i].Class?) ==>
               && Expand(r) != [] && (|Expand(r)| == n || (|Expand(r)| < n && !truncate))
               && forall c, d :: c in Expand(r) && d in Expand(r) ==> c == d)
  {
    hide Expand, Align, CountIndefinite, ComplementOf, TrAlignLaws.LineUp, Homogeneous, Prepared;
    NoIndefinite(es1);
    AtMostOneIndefinite(es2);
    var n := Length1(es1, complement);
    if n <= REPEAT_COUNT_MAXIMUM && CountIndefinite(es2) <= 1 {
      var r := Resolved(es2, n);
      ResolvedShape(es2, n);
      TrAlignLaws.AlignedExactly(es1, r);
      NoCaseLinesUp(es1, r);
      if Extensible(r, n, truncate) {
        PreparedExpansion(es2, n, truncate);
        PaddedUniform(Expand(r), n, truncate, Expand(Prepared(es2, n, truncate)));
      }
    }
  }

  lemma NoCaseLinesUp(es1: seq<Construct>, es2: seq<Construct>)
    requires ValidList(es1) && ValidList(es2)
    ensures (forall i :: 0 <= i < |es2| ==> !es2[i].Class?) ==> TrAlignLaws.LineUp(es1, es2)
  {
    hide Expand;
  }

  lemma PaddedUniform(s: seq<byte>, n: nat, truncate: bool, padded: seq<byte>)
    requires |s| < n && !truncate ==> s != []
    requires padded == if |s| < n && !truncate then s + Copies(s[|s| - 1], n - |s|) else s
    ensures |padded| == n && Homogeneous(padded) <==>
      && s != [] && (|s| == n || (|s| < n && !truncate))
      && forall c, d :: c in s && d in s ==> c == d
  {
    if Homogeneous(padded) {
      assert forall k :: 0 <= k < |s| ==> s[k] == padded[k];
    }
    if s != [] && forall c, d :: c in s && d in s ==> c == d {
      forall k | 0 <= k < |s|
        ensures s[k] == s[0]
      {
        assert s[k] in s && s[0] in s;
      }
    }
  }

  // ----- outputs -----

  /** With one operand: deleting keeps what is outside the set or its complement, squeezing what does not repeat a
      member of it. */
  lemma OneOperand(o: Options, es1: seq<Construct>, input: seq<byte>)
    requires ValidList(es1) && o.delete != o.squeeze
    ensures Output1(o, es1, input) ==
      if !NoIndefiniteIn(es1) || |Expand(es1)| > REPEAT_COUNT_MAXIMUM then None
      else if o.delete then Some(Picked(input, Outsiders(input, Expand(es1), o.complement)))
      else Some(Picked(input, NonRepeats(input, Expand(es1), o.complement)))
  {
    hide Expand, Deleted, SqueezedFrom, Squeezed, Acceptable1, Picked;
    SetOneAccepted(es1);
    DeletedIsPicked(input, Expand(es1), o.complement);
    SqueezedIsAllPicked(input, Expand(es1), o.complement);
  }

  /** Deleting by the first set or its complement, then squeezing what is left by the second. */
  lemma DeleteAndSqueeze(o: Options, es1: seq<Construct>, es2: seq<Construct>, input: seq<byte>)
    requires ValidList(es1) && ValidList(es2) && o.delete
    ensures var left := Picked(input, Outsiders(input, Expand(es1), o.complement));
      Output2(o, es1, es2, input) ==
      if NoIndefiniteIn(es1) && |Expand(es1)| <= REPEAT_COUNT_MAXIMUM
        && NoIndefiniteIn(es2) && |Expand(es2)| <= REPEAT_COUNT_MAXIMUM
      then Some(Picked(left, NonRepeats(left, Expand(es2), false)))
      else None
  {
    hide Expand, Deleted, SqueezedFrom, Squeezed, CountIndefinite, Picked;
    NoIndefinite(es1);
    NoIndefinite(es2);
    DeletedIsPicked(input, Expand(es1), o.complement);
    SqueezedIsAllPicked(Picked(input, Outsiders(input, Expand(es1), o.complement)), Expand(es2), false);
  }

  /** Translating and squeezing is translating, then squeezing by set 2, its `[c*]` stretched. */
  lemma TranslateAndSqueeze(o: Options, es1: seq<Construct>, es2: seq<Construct>, input: seq<byte>)
    requires ValidList(es1) && ValidList(es2) && !o.delete && o.squeeze
    requires Acceptable2(es1, es2, o.complement, o.truncate)
    ensures Output2(o.(squeeze := false), es1, es2, input).Some? && Output2(o, es1, es2, input).Some?
    ensures var plain := Output2(o.(squeeze := false), es1, es2, input).value;
      var set2 := Expand(Resolved(es2, Length1(es1, o.complement)));
      Output2(o, es1, es2, input).value == Picked(plain, NonRepeats(plain, set2, false))
  {
    hide Expand, SqueezedFrom, Squeezed, Translated, TrTranslate.TableOf, Resolved, Prepared, Picked, CountIndefinite;
    var n := Length1(es1, o.complement);
    PreparedExpansion(es2, n, o.truncate);
    var set2, longer := Expand(Resolved(es2, n)), Expand(Prepared(es2, n, o.truncate));
    assert Table(longer, false) == Table(set2, false);
    var plain := Output2(o.(squeeze := false), es1, es2, input).value;
    SqueezedIsAllPicked(plain, set2, false);
  }

  // ----- letters -----

  function Capital(c: byte): byte {
    if 'a' <= c as char <= 'z' then c - 'a' as int + 'A' as int else c
  }

  lemma RangeOperand(text: seq<byte>, first: byte, last: byte)
    requires |text| == 3 && text[0] == first && text[1] as char == '-' && text[2] == last && first <= last
    requires first as char != '[' && first as char != '\\' && last as char != '\\'
    ensures Parse(text) == Some([Range(first, last)])
  {
    hide TrSpelling.Closes, TrSpelling.Stars, ParseFrom, Unquoted;
    var es, cs := TrParse.Plain(text), [Range(first, last)];
    assert text == [first, DASH, last];
    TrSpelling.UnquotePlain(text, 0);
    assert text[0..] == text && cs[1..] == [];
    assert TrSpelling.Spelled(es, 0, 3, cs[0]) && TrSpelling.Spells(es, 3, cs[1..]);
    TrSpelling.ParseIsSpelling(es, cs);
  }

  lemma AscendingImage(first: byte, last: byte, first': byte, last': byte, c: byte)
    requires first <= last && first' <= last' && last - first == last' - first'
    ensures Image(Ascending(first, last), Ascending(first', last'), c)
         == if first <= c <= last then c - first + first' else c
  {
    var s := Ascending(first, last);
    assert |s| == last - first + 1 && forall i :: 0 <= i < |s| ==> s[i] == first + i;
    if first <= c <= last {
      assert s[c - first] == c;
    }
  }

  /** Two sets that are accepted and stand for the small and the capital letters. */
  predicate CapitalSets(es1: seq<Construct>, es2: seq<Construct>) {
    && ValidList(es1) && ValidList(es2)
    && Acceptable2(es1, es2, false, false) && Resolved(es2, Length1(es1, false)) == es2
    && TrTranslate.OppositeCases(es1, es2, false)
    && Expand(es1) == Ascending(97, 122) && Expand(es2) == Ascending(65, 90)
  }

  lemma CapitalOutput(es1: seq<Construct>, es2: seq<Construct>, input: seq<byte>)
    requires CapitalSets(es1, es2)
    ensures Output2(Options(false, false, false, false), es1, es2, input)
         == Some(seq(|input|, k requires 0 <= k < |input| => Capital(input[k])))
  {
    hide Image, Output2, Expand, Acceptable2, TrTranslate.OppositeCases, Resolved, Ascending;
    var o := Options(false, false, false, false);
    TranslationIsBytewise(o, es1, es2, input);
    forall k | 0 <= k < |input|
      ensures Image(Expand(es1), Expand(es2), input[k]) == Capital(input[k])
    {
      AscendingImage(97, 122, 65, 90, input[k]);
    }
    var out := Output2(o, es1, es2, input);
    assert out.value == seq(|input|, k requires 0 <= k < |input| => Capital(input[k]));
  }

  /** `tr a-z A-Z` writes every input with its small letters made capital. */
  lemma SmallToCapital(input: seq<byte>)
    ensures Output(Options(false, false, false, false), Ascii("a-z"), Some(Ascii("A-Z")), input)
         == Some(seq(|input|, k requires 0 <= k < |input| => Capital(input[k])))
  {
    hide Parse, Output2, CapitalSets;
    var es1, es2 := [Range(97, 122)], [Range(65, 90)];
    assert Ascii("a-z") == [97, 45, 122] && Ascii("A-Z") == [65, 45, 90];
    RangeOperand(Ascii("a-z"), 97, 122);
    RangeOperand(Ascii("A-Z"), 65, 90);
    LettersAccepted(es1, es2);
    CapitalOutput(es1, es2, input);
  }

  lemma LettersAccepted(es1: seq<Construct>, es2: seq<Construct>)
    requires es1 == [Range(97, 122)] && es2 == [Range(65, 90)]
    ensures CapitalSets(es1, es2)
  {
    hide Expand, CountIndefinite, Align;
    ExpandSingle(es1[0]);
    ExpandSingle(es2[0]);
    PlainSetsAccepted(es1, es2, false, false);
    NoIndefinite(es2);
  }

  /** The operand `[:name:]` is the class of that name. */
  lemma ClassOperand(cls: CharClass)
    ensures Parse(Ascii("[:") + Ascii(TrSpelling.NameOf(cls)) + Ascii(":]")) == Some([Class(cls)])
  {
    hide TrSpelling.Spelled, ParseFrom, Unquoted, TrParse.Plain;
    var text := Ascii("[:") + Ascii(TrSpelling.NameOf(cls)) + Ascii(":]");
    var n, es, cs := |text|, TrParse.Plain(text), [Class(cls)];
    ClassIsSpelled(cls, text);
    TrSpelling.UnquotePlain(text, 0);
    assert text[0..] == text && cs[1..] == [];
    assert TrSpelling.Spells(es, n, cs[1..]);
    TrSpelling.ParseIsSpelling(es, cs);
  }

  lemma ClassIsSpelled(cls: CharClass, text: seq<byte>)
    requires text == Ascii("[:") + Ascii(TrSpelling.NameOf(cls)) + Ascii(":]")
    ensures '\\' as int !in text
    ensures |TrParse.Plain(text)| == |text| && TrSpelling.Spelled(TrParse.Plain(text), 0, |text|, Class(cls))
  {
    hide TrSpelling.NameOf, TrSpelling.SpelledCount, TrSpelling.Opens;
    NameIsLower(cls);
    BracketedName(text, TrSpelling.NameOf(cls));
    var n, es := |text|, TrParse.Plain(text);
    assert forall k :: 0 <= k < n ==> es[k] == EChar(text[k], false);
    assert TrParse.Bytes(es[2..n - 2]) == text[2..n - 2];
  }

  lemma BracketedName(text: seq<byte>, name: string)
    requires forall k :: 0 <= k < |name| ==> 'a' <= name[k] <= 'z'
    requires text == Ascii("[:") + Ascii(name) + Ascii(":]")
    ensures |text| == |name| + 4 && text[2..|text| - 2] == Ascii(name)
    ensures text[0] as char == '[' && text[1] as char == ':'
    ensures text[|text| - 2] as char == ':' && text[|text| - 1] as char == ']'
    ensures '\\' as int !in text
  {
    assert Ascii("[:") == [91, 58] && Ascii(":]") == [58, 93];
  }

  lemma NameIsLower(cls: CharClass)
    ensures var name := TrSpelling.NameOf(cls);
      forall k :: 0 <= k < |name| ==> 'a' <= name[k] <= 'z'
  {
  }

  lemma CasesAccepted(es1: seq<Construct>, es2: seq<Construct>)
    requires es1 == [Class(Lower)] && es2 == [Class(Upper)]
    ensures CapitalSets(es1, es2)
  {
    hide Expand, CountIndefinite, Align, MembersFrom;
    ExpandSingle(es1[0]);
    ExpandSingle(es2[0]);
    CaseMembers(Lower);
    CaseMembers(Upper);
    NoIndefinite(es1);
    NoIndefinite(es2);
    var a, b := Start(es1), Start(es2);
    PairStep(a, b);
    AlignEnds(Skip(Next(a).1), Skip(Next(b).1));
  }

  /** `tr '[:lower:]' '[:upper:]'` does the same. */
  lemma LowerToUpper(input: seq<byte>)
    ensures Output(Options(false, false, false, false), Ascii("[:lower:]"), Some(Ascii("[:upper:]")), input)
         == Some(seq(|input|, k requires 0 <= k < |input| => Capital(input[k])))
  {
    hide Parse, Output2, CapitalSets;
    var es1, es2 := [Class(Lower)], [Class(Upper)];
    ClassOperand(Lower);
    ClassOperand(Upper);
    assert Ascii("[:lower:]") == Ascii("[:") + Ascii("lower") + Ascii(":]");
    assert Ascii("[:upper:]") == Ascii("[:") + Ascii("upper") + Ascii(":]");
    CasesAccepted(es1, es2);
    CapitalOutput(es1, es2, input);
  }
}
