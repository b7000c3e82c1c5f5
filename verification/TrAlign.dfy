/** How the case classes of the two sets of `tr` must line up. */
module TrAlign {
  import opened Streams
  import opened TrSpec

  // ----- case classes are 26 letters -----

  function Letters(kind: Case): (ls: seq<byte>)
    requires kind != NoCase
    ensures |ls| == 26
  {
    if kind == LowerCase then Ascending(97, 122) else Ascending(65, 90)
  }

  lemma {:induction false} MembersRun(cls: CharClass, lo: byte, hi: byte)
    requires lo <= hi && forall c: byte :: lo <= c <= hi ==> IsMember(cls, c)
    ensures MembersFrom(cls, lo) == Ascending(lo, hi) + MembersFrom(cls, hi + 1)
    decreases hi as int - lo as int
  {
    hide IsMember;
    assert IsMember(cls, lo);
    if lo < hi {
      MembersRun(cls, lo + 1, hi);
      var xs, later := Ascending(lo + 1, hi), MembersFrom(cls, hi + 1);
      assert Ascending(lo, hi) == [lo] + xs;
      assert [lo] + (xs + later) == ([lo] + xs) + later;
    } else {
      assert Ascending(lo, hi) == [lo];
    }
  }

  lemma NoMembersLeft(cls: CharClass)
    ensures MembersFrom(cls, N_CHARS) == []
  {
  }

  lemma CaseMembers(cls: CharClass)
    requires cls == Lower || cls == Upper
    ensures MembersFrom(cls, 0) == Letters(CaseOf(Class(cls)))
  {
    hide MembersFrom, Ascending;
    var a: byte := if cls == Lower then 97 else 65;
    MembersSkip(cls, 0, a);
    MembersRun(cls, a, a + 25);
    MembersSkip(cls, a + 26, N_CHARS);
    NoMembersLeft(cls);
  }

  lemma SkipChars(p: Cursor)
    requires p.Valid()
    ensures Skip(p).kind == NoCase && |Skip(p).Chars()| <= |p.Chars()|
  {
  }

  /** A walk that enters a case class returns its first letter and has the other 25 pending. */
  lemma {:induction false} EnterCase(p: Cursor)
    requires p.Valid() && p.current == [] && Next(p).0.Kind() != NoCase
    ensures var (x, q) := Next(p);
      && x.c == Letters(x.kind)[0] && q.current == Letters(x.kind)[1..]
      && p.Chars() == Letters(x.kind) + Skip(q).Chars()
    decreases |p.rest|
  {
    hide MembersFrom, Letters, Ascending;
    var e := p.rest[0];
    if Expand1(e) == [] {
      EnterCase(Start(p.rest[1..]));
    } else {
      assert e.Class?;
      CaseMembers(e.cls);
    }
  }

  // ----- alignment -----

  /** Either some case class of set 2 does not start where one of set 1 starts, or the number of paired
      classes and whether each is paired with the opposite case. */
  datatype Alignment = Misaligned | Aligned(pairs: nat, opposite: bool)

  function AfterPair(opposite: bool, a: Alignment): Alignment {
    match a
    case Misaligned => Misaligned
    case Aligned(n, o) => Aligned(n + 1, opposite && o)
  }

  /** Walks both sets together until one ends; a pair of case classes is passed as a whole. */
  function Align(a: Cursor, b: Cursor): Alignment
    requires a.Valid() && b.Valid() && b.kind == NoCase
    decreases |a.Chars()|
  {
    NextChars(a);
    SkipChars(Next(a).1);
    var (x, p) := Next(a);
    var (y, q) := Next(b);
    NextKind(b);
    SkipChars(q);
    if y.Kind() != NoCase then
      if a.current != [] || x.Kind() == NoCase then Misaligned
      else AfterPair(x.Kind() != y.Kind(), Align(Skip(p), Skip(q)))
    else if x.End? || y.End? then Aligned(0, true)
    else Align(p, q)
  }

  /** What a pair of case classes does to both walks. */
  lemma PairStep(a: Cursor, b: Cursor)
    requires a.Valid() && b.Valid() && b.kind == NoCase && a.current == []
    requires Next(a).0.Kind() != NoCase && Next(b).0.Kind() != NoCase
    ensures var (x, p) := Next(a);
      var (y, q) := Next(b);
      && p.current != [] && q.current != []
      && a.Chars() == Letters(x.kind) + Skip(p).Chars()
      && b.Chars() == Letters(y.kind) + Skip(q).Chars()
      && Align(a, b) == AfterPair(x.kind != y.kind, Align(Skip(p), Skip(q)))
  {
    EnterCase(a);
    NextChars(b);
    if b.current == [] {
      EnterCase(b);
    }
  }

  /** A step that meets no case class of set 2. */
  lemma PlainStep(a: Cursor, b: Cursor)
    requires a.Valid() && b.Valid() && b.kind == NoCase
    requires Next(a).0.Char? && Next(b).0.Char? && Next(b).0.kind == NoCase
    ensures var (x, p) := Next(a);
      var (y, q) := Next(b);
      && q.kind == NoCase
      && a.Chars() == [x.c] + p.Chars() && b.Chars() == [y.c] + q.Chars()
      && Align(a, b) == Align(p, q)
  {
    NextChars(a);
    NextChars(b);
    NextKind(b);
  }

  lemma {:induction false} NextKind(b: Cursor)
    requires b.Valid()
    ensures Next(b).0.Kind() == NoCase ==> Next(b).1.kind == NoCase
    decreases |b.rest|
  {
    if b.current == [] && b.rest != [] && Expand1(b.rest[0]) == [] {
      NextKind(Start(b.rest[1..]));
    }
  }

  lemma AlignEnds(a: Cursor, b: Cursor)
    requires a.Valid() && b.Valid() && b.kind == NoCase
    ensures var (x, y) := (Next(a).0, Next(b).0);
      && ((x.End? || y.End?) && y.Kind() == NoCase ==> Align(a, b) == Aligned(0, true))
      && (y.Kind() != NoCase && (a.current != [] || x.Kind() == NoCase) ==> Align(a, b) == Misaligned)
  {
  }

  // ----- the check as the program makes it -----

  /** A walk of both lists: the verdict it will reach, the pairs passed and whether all were opposite, the
      lengths of both expansions, and how much of the first one is left. */
  datatype Progress = Progress(total: Alignment, pairs: nat, opposite: bool, n1: nat, n2: nat, left: nat)

  ghost predicate Aligning(s1: SpecList, s2: SpecList, g: Progress)
    reads s1, s2
  {
    && s1.Walkable() && s2.Walkable() && s2.View().kind == NoCase
    && g.total == (match Align(s1.View(), s2.View())
                   case Misaligned => Misaligned
                   case Aligned(n, o) => Aligned(g.pairs + n, g.opposite && o))
    && g.left == |s1.View().Chars()|
    && 26 * g.pairs + g.left <= g.n1
    && 26 * g.pairs + |s2.View().Chars()| <= g.n2
  }

  /** The next element of the list is new, as far as the check is concerned. */
  ghost predicate AtNew(s: SpecList)
    reads s
  {
    s.Walkable() && s.View().current == []
  }

  /** One turn of the loop: ok is false for the exit "misaligned construct"; `more` tells that neither list
      has ended. */
  method AlignOne(s1: SpecList, s2: SpecList, s1New: bool, s2New: bool, ghost g: Progress)
    returns (ok: bool, more: bool, paired: bool, ghost g': Progress)
    requires s1 != s2 && Aligning(s1, s2, g) && s1New == AtNew(s1) && s2New == AtNew(s2)
    modifies s1`tail, s1`state, s2`tail, s2`state
    ensures !ok ==> g.total == Misaligned
    ensures ok && !more ==> !paired && g.total == Aligned(g.pairs, g.opposite)
    ensures ok && more ==>
      && Aligning(s1, s2, g') && g'.left < g.left
      && (s1.state == NEW_ELEMENT <==> AtNew(s1)) && (s2.state == NEW_ELEMENT <==> AtNew(s2))
    ensures ok ==> g'.total == g.total && g'.n1 == g.n1 && g'.n2 == g.n2
    ensures ok ==> g'.pairs == (if paired then g.pairs + 1 else g.pairs) && (!more ==> g'.opposite == g.opposite)
  {
    hide Next, Place, Expand, Align, Letters, Skip;
    ghost var a, b := s1.View(), s2.View();
    var item1 := s1.GetNext();
    var item2 := s2.GetNext();
    AlignEnds(a, b);
    NextChars(a);
    NextChars(b);
    g' := g;
    if s2New && item2.Kind() != NoCase && !(s1New && item1.Kind() != NoCase) {
      return false, false, false, g;
    }
    paired := item2.Kind() != NoCase;
    if paired {
      CaseIsNew(b);
      PairStep(a, b);
      SkipChars(s1.View());
      SkipChars(s2.View());
      s1.SkipConstruct();
      s2.SkipConstruct();
      g' := g.(pairs := g.pairs + 1, opposite := g.opposite && item1.Kind() != item2.Kind(),
               left := |s1.View().Chars()|);
      SkipIsNew(a);
      SkipIsNew(b);
    } else if item1.Char? && item2.Char? {
      PlainStep(a, b);
      g' := g.(left := |s1.View().Chars()|);
    }
    ok, more := true, item1.Char? && item2.Char?;
  }

  lemma SkipIsNew(a: Cursor)
    requires a.Valid()
    ensures Skip(Next(a).1).current == []
  {
  }

  lemma CaseIsNew(b: Cursor)
    requires b.Valid() && b.kind == NoCase && Next(b).0.Kind() != NoCase
    ensures b.current == []
  {
  }

  ghost function AlignLists(s1: SpecList, s2: SpecList): Alignment
    requires ValidList(s1.elems) && ValidList(s2.elems)
    reads s1, s2
  {
    Align(Start(s1.elems), Start(s2.elems))
  }

  /** Checks that the case classes of set 2 line up with those of set 1, and discounts their lengths: each
      paired class counts as one byte. */
  method ValidateCaseClasses(s1: SpecList, s2: SpecList, complement: bool) returns (ok: bool)
    requires s1 != s2 && ValidList(s1.elems) && ValidList(s2.elems)
    requires complement || (s1.length == |Expand(s1.elems)| && s2.length == |Expand(s2.elems)|)
    modifies s1`tail, s1`state, s1`length, s2`tail, s2`state, s2`length
    ensures s1.tail == old(s1.tail) && s2.tail == old(s2.tail)
    ensures complement || !s2.hasCharClass ==> ok && s1.length == old(s1.length) && s2.length == old(s2.length)
    ensures !complement && s2.hasCharClass ==> ok == AlignLists(s1, s2).Aligned?
    ensures !complement && s2.hasCharClass && ok ==>
      && s1.length == old(s1.length) - 25 * AlignLists(s1, s2).pairs >= AlignLists(s1, s2).pairs
      && s2.length == old(s2.length) - 25 * AlignLists(s1, s2).pairs >= AlignLists(s1, s2).pairs
  {
    hide Align, Expand, Place;
    if complement || !s2.hasCharClass {
      return true;
    }
    var s1Tail, s2Tail := s1.tail, s2.tail;
    s1.state, s2.state := BEGIN_STATE, BEGIN_STATE;
    ghost var n1, n2 := s1.length, s2.length;
    ghost var g := Progress(Align(Start(s1.elems), Start(s2.elems)), 0, true, n1, n2, n1);
    AtStart(s1);
    AtStart(s2);
    var more, s1New, s2New := true, true, true;
    while more
      invariant more ==> Aligning(s1, s2, g) && s1New == AtNew(s1) && s2New == AtNew(s2)
      invariant !more ==> g.total == Aligned(g.pairs, g.opposite)
      invariant g.n1 == n1 && g.n2 == n2 && g.total == Align(Start(s1.elems), Start(s2.elems))
      invariant 26 * g.pairs <= n1 && 26 * g.pairs <= n2
      invariant s1.length == n1 - 25 * g.pairs && s2.length == n2 - 25 * g.pairs
      decreases more, g.left
    {
      var paired;
      ok, more, paired, g := AlignOne(s1, s2, s1New, s2New, g);
      if !ok {
        s1.tail, s2.tail := s1Tail, s2Tail;
        return;
      }
      if paired {
        s1.length, s2.length := s1.length - 25, s2.length - 25;
      }
      s1New, s2New := s1.state == NEW_ELEMENT, s2.state == NEW_ELEMENT;
    }
    s1.tail, s2.tail := s1Tail, s2Tail;
    ok := true;
  }

  lemma AtStart(s: SpecList)
    requires ValidList(s.elems) && s.state == BEGIN_STATE
    ensures AtNew(s) && s.View() == Start(s.elems) && s.View().Chars() == Expand(s.elems)
  {
  }
}
