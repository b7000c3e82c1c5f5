/** Translation by `tr` as a whole: accepted sets give the table that zipping two strings gives. */
module TrTranslate {
  import opened Streams
  import opened TrSpec
  import opened TrAlign
  import opened TrValidate
  import opened TrTable

  /** Set 1 as translation runs through it. */
  function Set1(es1: seq<Construct>, complement: bool): seq<byte>
    requires ValidList(es1)
  {
    if complement then ComplementOf(Expand(es1)) else Expand(es1)
  }

  /** Whether every case class of set 2 that translation meets is paired with the opposite one. */
  predicate OppositeCases(es1: seq<Construct>, es2: seq<Construct>, complement: bool)
    requires ValidList(es1) && ValidList(es2) && Length1(es1, complement) <= REPEAT_COUNT_MAXIMUM
  {
    complement || !HasCharClass(es2) ||
    match Align(Start(es1), Start(Resolved(es2, Length1(es1, complement))))
    case Aligned(_, opposite) => opposite
    case Misaligned => false
  }

  /** Continuing set 2 leaves the alignment that was checked before as it was. */
  lemma PreparedAligns(es1: seq<Construct>, es2: seq<Construct>, truncate: bool)
    requires ValidList(es1) && ValidList(es2) && Acceptable2(es1, es2, false, truncate)
    ensures var n := Length1(es1, false);
      && Align(Start(es1), Start(Prepared(es2, n, truncate))).Aligned?
      && (OppositeCases(es1, es2, false) ==> Align(Start(es1), Start(Prepared(es2, n, truncate))).opposite)
  {
    hide Expand, Align, CountIndefinite;
    var n := Length1(es1, false);
    var r := Resolved(es2, n);
    if !HasCharClass(es2) {
      assert NoClasses(r);
      NoClassesAlign(Start(es1), Start(r));
    }
    if |Expand(r)| < n && !truncate {
      AlignExtended(Start(es1), Start(r), Repeated(LastByte(r[|r| - 1]), n - |Expand(r)|));
    }
  }

  /** Set 2 never runs out before set 1 does, complemented or not, unless --truncate-set1 was given: the
      discounted lengths compared by the checks decide about the full expansions. */
  lemma SetTwoLastsLongEnough(es1: seq<Construct>, es2: seq<Construct>, complement: bool)
    requires ValidList(es1) && ValidList(es2) && Acceptable2(es1, es2, complement, false)
    ensures var n := Length1(es1, complement);
      |Set1(es1, complement)| == n <= |Expand(Prepared(es2, n, false))|
  {
    hide Expand, Align, CountIndefinite, ComplementOf;
    PreparedExpansion(es2, Length1(es1, complement), false);
  }

  /** The table for two accepted sets. */
  function TableOf(es1: seq<Construct>, es2: seq<Construct>, complement: bool, truncate: bool): seq<byte>
    requires ValidList(es1) && ValidList(es2) && Acceptable2(es1, es2, complement, truncate)
  {
    var e2 := Prepared(es2, Length1(es1, complement), truncate);
    if complement then
      Assign(Identity(), ComplementOf(Expand(es1)), Expand(e2))
    else
      PreparedAligns(es1, es2, truncate);
      TableLoop(Start(es1), Start(e2), Identity())
  }

  /** Checks both sets and builds the table; the affirmations on the way hold for all accepted sets. */
  method BuildTable(s1: SpecList, s2: SpecList, complement: bool, truncate: bool)
    returns (ok: bool, xlate: array<byte>)
    requires s1 != s2 && ValidList(s1.elems) && ValidList(s2.elems) && s2.tail == |s2.elems|
    modifies s1, s2
    ensures ok <==> Acceptable2(old(s1.elems), old(s2.elems), complement, truncate)
    ensures ok ==> xlate[..] == TableOf(old(s1.elems), old(s2.elems), complement, truncate)
    ensures ok ==> s2.elems == Prepared(old(s2.elems), Length1(old(s1.elems), complement), truncate)
    ensures fresh(xlate) && xlate.Length == N_CHARS
  {
    hide Expand, Align, Acceptable2, Prepared, TableLoop, ComplementOf, Assign;
    ghost var es1, es2 := s1.elems, s2.elems;
    xlate := new byte[N_CHARS];
    ok := Validate(s1, s2, complement, truncate);
    if !ok {
      return;
    }
    if !truncate {
      SetTwoLastsLongEnough(es1, es2, complement);
    }
    if complement {
      var inS1 := new bool[N_CHARS](_ => false);
      BuildComplement(s1, s2, truncate, inS1, xlate);
    } else {
      PreparedAligns(es1, es2, truncate);
      BuildPlain(s1, s2, truncate, xlate);
    }
  }

  /** For all accepted sets, complemented or not, whose case classes pair opposite cases: the padded table
      built with the class shortcut is the table of the two expanded strings, string 2 continued by its last
      byte, with the last write winning. */
  lemma TablesAgree(es1: seq<Construct>, es2: seq<Construct>, complement: bool)
    requires ValidList(es1) && ValidList(es2) && Acceptable2(es1, es2, complement, false)
    requires OppositeCases(es1, es2, complement)
    ensures var set1 := Set1(es1, complement);
      var set2 := Expand(Resolved(es2, Length1(es1, complement)));
      (set2 != [] || set1 == []) && TableOf(es1, es2, complement, false) == ZipTable(set1, set2)
  {
    hide Expand, Align, CountIndefinite, ComplementOf, Copies, Identity, TableLoop, Assign;
    var n := Length1(es1, complement);
    var e2 := Prepared(es2, n, false);
    var set1, set2 := Set1(es1, complement), Expand(Resolved(es2, n));
    PreparedExpansion(es2, n, false);
    if !complement {
      PreparedAligns(es1, es2, false);
      TableLoopIsZip(Start(es1), Start(e2), Identity());
      NothingBefore(es1);
      NothingBefore(e2);
    }
    if set1 == [] {
      AssignNothing(Identity(), set1, Expand(e2));
    }
  }

  lemma NothingBefore(es: seq<Construct>)
    requires ValidList(es)
    ensures Start(es).Chars() == Expand(es)
  {
  }

  /** With --truncate-set1 the table is the plain zip, up to the end of the shorter string. */
  lemma TruncatedTable(es1: seq<Construct>, es2: seq<Construct>, complement: bool)
    requires ValidList(es1) && ValidList(es2) && Acceptable2(es1, es2, complement, true)
    requires OppositeCases(es1, es2, complement)
    ensures TableOf(es1, es2, complement, true)
         == Assign(Identity(), Set1(es1, complement), Expand(Resolved(es2, Length1(es1, complement))))
  {
    hide Expand, Align, CountIndefinite, ComplementOf, Identity, TableLoop, Assign;
    if !complement {
      var r := Resolved(es2, Length1(es1, false));
      PreparedAligns(es1, es2, true);
      TableLoopIsZip(Start(es1), Start(r), Identity());
      NothingBefore(es1);
      NothingBefore(r);
    }
  }

  /** A pair of equal case classes is where shortcut and zip part: for `tr 'B[:upper:]' 'x[:upper:]'`, which
      is accepted, the shortcut leaves B mapped to x, the zip maps it back to itself. */
  lemma SameCaseDiffers()
    ensures var es1, es2 := [NormalChar(66), Class(Upper)], [NormalChar(120), Class(Upper)];
      && Acceptable2(es1, es2, false, false)
      && TableOf(es1, es2, false, false)[66] == 120
      && Resolved(es2, Length1(es1, false)) == es2
      && Expand(es2) != [] && ZipTable(Expand(es1), Expand(es2))[66] == 66
  {
    hide Acceptable2, Expand, TableLoop, ZipTable, Identity;
    var es1, es2 := [NormalChar(66), Class(Upper)], [NormalChar(120), Class(Upper)];
    SameCaseAccepted(es1, es2);
    SameCaseTables(es1, es2);
  }

  lemma SameCaseAccepted(es1: seq<Construct>, es2: seq<Construct>)
    requires es1 == [NormalChar(66), Class(Upper)] && es2 == [NormalChar(120), Class(Upper)]
    ensures Acceptable2(es1, es2, false, false)
    ensures |Expand(es1)| == |Expand(es2)| == 27
    ensures Resolved(es2, Length1(es1, false)) == Prepared(es2, Length1(es1, false), false) == es2
  {
    hide MembersFrom, Expand, Next, Align, CountIndefinite;
    ClassAfter(66, es1[1]);
    ClassAfter(120, es2[1]);
    NoIndefinite(es1);
    NoIndefinite(es2);
    SingleClassWalk(es1[1]);
    PlainStep(Start(es1), Start(es2));
  }

  lemma SameCaseTables(es1: seq<Construct>, es2: seq<Construct>)
    requires es1 == [NormalChar(66), Class(Upper)] && es2 == [NormalChar(120), Class(Upper)]
    ensures Align(Start(es1), Start(es2)).Aligned? && TableLoop(Start(es1), Start(es2), Identity())[66] == 120
    ensures Expand(es2) != [] && ZipTable(Expand(es1), Expand(es2))[66] == 66
  {
    hide MembersFrom, Ascending, Expand, Next, Align, TableLoop, Assign;
    SingleClassWalk(es1[1]);
    ClassAfter(66, es1[1]);
    ClassAfter(120, es2[1]);
    PlainStep(Start(es1), Start(es2));
    TablePlain(Start(es1), Start(es2), Identity());
    AssignStep(Identity(), 66, 120, [66] + Letters(UpperCase), [120] + Letters(UpperCase));
    assert ([66] + Letters(UpperCase))[1..] == Letters(UpperCase) == ([120] + Letters(UpperCase))[1..];
    AssignAscending(Identity()[66 := 120], 65, 90, 65, 90, 66);
  }

  /** The walks of a list that is one case class. */
  lemma SingleClassWalk(e: Construct)
    requires e == Class(Upper)
    ensures Align(Start([e]), Start([e])) == Aligned(1, false)
    ensures forall t: seq<byte> :: |t| == N_CHARS ==>
      TableLoop(Start([e]), Start([e]), t) == t[65 := 65]
  {
    hide Assign, MembersFrom, Ascending;
    var p := Start([e]);
    CaseMembers(e.cls);
    AscendingTail(65, 90);
    assert [e][1..] == [];
    assert Next(p) == (Char(65, UpperCase), At(Letters(UpperCase)[1..], UpperCase, []));
    assert Skip(Next(p).1) == Start([]);
  }

  lemma ClassAfter(c: byte, e: Construct)
    requires e == Class(Upper)
    ensures Expand([NormalChar(c), e]) == [c] + Letters(UpperCase)
    ensures Next(Start([NormalChar(c), e])) == (Char(c, NoCase), Start([e]))
  {
    hide MembersFrom, Ascending;
    CaseMembers(e.cls);
    var es := [NormalChar(c), e];
    assert es[1..] == [e];
    ExpandSingle(e);
  }
}
