/** The translation table of `tr`: what the case-converting loop builds, and the plain zip of two strings. */
module TrTable {
  import opened Streams
  import opened TrSpec
  import opened TrAlign
  import opened TrValidate

  // ----- tables -----

  function Identity(): (t: seq<byte>)
    ensures |t| == N_CHARS && forall c: byte :: t[c] == c
  {
    seq(N_CHARS, i requires 0 <= i < N_CHARS => i as byte)
  }

  /** Maps the bytes of `source`, in order, to those of `target`, until either string ends. */
  function Assign(t: seq<byte>, source: seq<byte>, target: seq<byte>): (t': seq<byte>)
    requires |t| == N_CHARS
    ensures |t'| == N_CHARS
    decreases source
  {
    if source == [] || target == [] then t else Assign(t[source[0] := target[0]], source[1..], target[1..])
  }

  /** Every letter of the given case is mapped to its counterpart. */
  function Converted(t: seq<byte>, kind: Case): (t': seq<byte>)
    requires |t| == N_CHARS && kind != NoCase
    ensures |t'| == N_CHARS
  {
    seq(N_CHARS, i requires 0 <= i < N_CHARS =>
      if kind == LowerCase && IsLower(i) then ToUpper(i)
      else if kind == UpperCase && IsUpper(i) then ToLower(i)
      else t[i])
  }

  /** The last write wins, and bytes that are not written keep their value. */
  lemma {:induction false} AssignLastWins(t: seq<byte>, source: seq<byte>, target: seq<byte>, c: byte)
    requires |t| == N_CHARS && |source| <= |target|
    ensures c !in source ==> Assign(t, source, target)[c] == t[c]
    ensures forall k :: 0 <= k < |source| && source[k] == c && c !in source[k + 1..] ==>
      Assign(t, source, target)[c] == target[k]
    decreases source
  {
    if source != [] {
      var t', source', target' := t[source[0] := target[0]], source[1..], target[1..];
      AssignLastWins(t', source', target', c);
      forall k | 0 <= k < |source| && source[k] == c && c !in source[k + 1..]
        ensures Assign(t, source, target)[c] == target[k]
      {
        if k > 0 {
          assert source'[k - 1] == c && source'[k..] == source[k + 1..];
        }
      }
    }
  }

  lemma {:induction false} AssignAppend(t: seq<byte>, s1: seq<byte>, t1: seq<byte>, s2: seq<byte>, t2: seq<byte>)
    requires |t| == N_CHARS && |s1| == |t1|
    ensures Assign(t, s1 + s2, t1 + t2) == Assign(Assign(t, s1, t1), s2, t2)
    decreases s1
  {
    if s1 == [] {
      assert s1 + s2 == s2 && t1 + t2 == t2;
    } else {
      assert (s1 + s2)[1..] == s1[1..] + s2 && (t1 + t2)[1..] == t1[1..] + t2;
      AssignAppend(t[s1[0] := t1[0]], s1[1..], t1[1..], s2, t2);
    }
  }

  lemma {:induction false} AssignAscending(t: seq<byte>, lo: byte, hi: byte, lo': byte, hi': byte, c: byte)
    requires |t| == N_CHARS && lo <= hi && lo' <= hi' && hi - lo == hi' - lo'
    ensures Assign(t, Ascending(lo, hi), Ascending(lo', hi'))[c]
         == if lo <= c <= hi then lo' + (c - lo) else t[c]
    decreases hi as int - lo as int
  {
    AscendingTail(lo, hi);
    AscendingTail(lo', hi');
    if lo < hi {
      AssignAscending(t[lo := lo'], lo + 1, hi, lo' + 1, hi', c);
    }
  }

  /** Zipping a case class with the opposite one converts every letter of it. */
  lemma AssignLetters(t: seq<byte>, source: Case, target: Case)
    requires |t| == N_CHARS && source != NoCase && target != NoCase && source != target
    ensures Assign(t, Letters(source), Letters(target)) == Converted(t, source)
  {
    hide Assign, Ascending;
    var t' := Assign(t, Letters(source), Letters(target));
    forall c: byte
      ensures t'[c] == Converted(t, source)[c]
    {
      if source == LowerCase {
        AssignAscending(t, 97, 122, 65, 90, c);
      } else {
        AssignAscending(t, 65, 90, 97, 122, c);
      }
    }
  }

  // ----- the table that the two walks build -----

  /** What the translating loop makes of a table: a pair of opposite case classes is converted as a whole,
      and after a case class of set 2 both walks go on behind their classes. */
  function TableLoop(a: Cursor, b: Cursor, t: seq<byte>): (t': seq<byte>)
    requires a.Valid() && b.Valid() && b.kind == NoCase && Align(a, b).Aligned? && |t| == N_CHARS
    ensures |t'| == N_CHARS
    decreases |a.Chars()|
  {
    NextChars(a);
    SkipChars(Next(a).1);
    NextKind(b);
    SkipChars(Next(b).1);
    var (x, p) := Next(a);
    var (y, q) := Next(b);
    if y.Kind() != NoCase then
      TableLoop(Skip(p), Skip(q), if x.kind != y.kind then Converted(t, x.kind) else t[x.c := y.c])
    else if x.End? || y.End? then t
    else TableLoop(p, q, t[x.c := y.c])
  }

  /** When every case class of set 2 is paired with the opposite one, the shortcut builds the table of the
      two full expansions zipped byte by byte. */
  lemma {:induction false} TableLoopIsZip(a: Cursor, b: Cursor, t: seq<byte>)
    requires a.Valid() && b.Valid() && b.kind == NoCase && |t| == N_CHARS
    requires Align(a, b).Aligned? && Align(a, b).opposite
    ensures TableLoop(a, b, t) == Assign(t, a.Chars(), b.Chars())
    decreases |a.Chars()|
  {
    hide Expand, Next, Letters, Skip;
    var (x, p) := Next(a);
    var (y, q) := Next(b);
    NextChars(a);
    NextChars(b);
    if y.Kind() != NoCase {
      CaseIsNew(b);
      PairStep(a, b);
      SkipChars(p);
      SkipChars(q);
      var t' := Converted(t, x.kind);
      TableLoopIsZip(Skip(p), Skip(q), t');
      AssignAppend(t, Letters(x.kind), Letters(y.kind), Skip(p).Chars(), Skip(q).Chars());
      AssignLetters(t, x.kind, y.kind);
    } else if x.Char? && y.Char? {
      PlainStep(a, b);
      TableLoopIsZip(p, q, t[x.c := y.c]);
      assert a.Chars()[1..] == p.Chars() && b.Chars()[1..] == q.Chars();
    }
  }

  // ----- continuing set 2 does not disturb the alignment -----

  function Extended(b: Cursor, e: Construct): Cursor {
    Cursor(b.current, b.kind, b.rest + [e])
  }

  predicate NoClasses(es: seq<Construct>) {
    forall i :: 0 <= i < |es| ==> !es[i].Class?
  }

  lemma {:induction false} NextExtended(b: Cursor, e: Construct)
    requires b.Valid() && ValidConstruct(e) && e.Repeated?
    ensures Extended(b, e).Valid()
    ensures Next(b).0.Char? ==> Next(Extended(b, e)) == (Next(b).0, Extended(Next(b).1, e))
    ensures Next(b).0.End? ==> Next(Extended(b, e)) == Next(Start([e]))
    decreases |b.rest|
  {
    if b.current == [] {
      if b.rest == [] {
        assert b.rest + [e] == [e];
      } else {
        assert (b.rest + [e])[1..] == b.rest[1..] + [e];
        if Expand1(b.rest[0]) == [] {
          NextExtended(Start(b.rest[1..]), e);
        }
      }
    }
  }

  lemma {:induction false} NextNoClasses(b: Cursor)
    requires b.Valid() && b.kind == NoCase && NoClasses(b.rest)
    ensures Next(b).0.Kind() == NoCase && Next(b).1.kind == NoCase && NoClasses(Next(b).1.rest)
    decreases |b.rest|
  {
    if b.current == [] && b.rest != [] && Expand1(b.rest[0]) == [] {
      NextNoClasses(Start(b.rest[1..]));
    }
  }

  /** Without case classes in set 2 there is nothing to line up. */
  lemma {:induction false} NoClassesAlign(a: Cursor, b: Cursor)
    requires a.Valid() && b.Valid() && b.kind == NoCase && NoClasses(b.rest)
    ensures Align(a, b) == Aligned(0, true)
    decreases |a.Chars()|
  {
    hide Next, Expand;
    NextNoClasses(b);
    NextChars(a);
    AlignEnds(a, b);
    if Next(a).0.Char? && Next(b).0.Char? {
      PlainStep(a, b);
      NoClassesAlign(Next(a).1, Next(b).1);
    }
  }

  lemma {:induction false} AlignExtended(a: Cursor, b: Cursor, e: Construct)
    requires a.Valid() && b.Valid() && b.kind == NoCase && ValidConstruct(e) && e.Repeated?
    requires Align(a, b).Aligned?
    ensures Extended(b, e).Valid() && Align(a, Extended(b, e)) == Align(a, b)
    decreases |a.Chars()|
  {
    hide Next, Expand;
    var b' := Extended(b, e);
    NextExtended(b, e);
    AlignEnds(a, b);
    AlignEnds(a, b');
    NextChars(a);
    var (x, p) := Next(a);
    var (y, q) := Next(b);
    if y.End? {
      NextNoClasses(Start([e]));
      if x.Char? && Next(b').0.Char? {
        PlainStep(a, b');
        NoClassesAlign(p, Next(b').1);
      }
    } else if y.kind != NoCase {
      PairStep(a, b);
      PairStep(a, b');
      SkipChars(p);
      SkipChars(q);
      assert Skip(Extended(q, e)) == Extended(Skip(q), e);
      AlignExtended(Skip(p), Skip(q), e);
    } else if x.Char? {
      PlainStep(a, b);
      PlainStep(a, b');
      AlignExtended(p, q, e);
    }
  }

  // ----- the table as the program builds it -----

  method SetInitialize(s: SpecList, complementThisSet: bool, inSet: array<bool>)
    requires ValidList(s.elems) && inSet.Length == N_CHARS
    requires forall c: byte :: !inSet[c]
    modifies s`tail, s`state, inSet
    ensures forall c: byte :: inSet[c] <==> (c in Expand(s.elems)) != complementThisSet
  {
    hide Expand, Taken;
    s.state := BEGIN_STATE;
    TakenAtStart(s);
    ghost var all, seen := Expand(s.elems), [];
    while true
      invariant Taken(s, seen, all)
      invariant forall c: byte :: inSet[c] <==> c in seen
      decreases |all| - |seen|
    {
      var item;
      item, seen := Take(s, seen, all);
      if item.End? {
        break;
      }
      inSet[item.c] := true;
    }
    if complementThisSet {
      for i := 0 to N_CHARS
        invariant forall c: byte :: inSet[c] <==> (c in all) != (c < i)
      {
        inSet[i] := !inSet[i];
      }
    }
  }

  /** Fills the table for complemented translation: the bytes outside set 1, ascending, are mapped to set 2.
      Set 2 never runs out early unless --truncate-set1 was given. */
  method BuildComplement(s1: SpecList, s2: SpecList, truncate: bool, inS1: array<bool>, xlate: array<byte>)
    requires s1 != s2 && ValidList(s1.elems) && ValidList(s2.elems)
    requires inS1.Length == N_CHARS && xlate.Length == N_CHARS && forall c: byte :: !inS1[c]
    requires truncate || |ComplementOf(Expand(s1.elems))| <= |Expand(s2.elems)|
    modifies s1`tail, s1`state, s2`tail, s2`state, inS1, xlate
    ensures xlate[..] == Assign(Identity(), ComplementOf(Expand(s1.elems)), Expand(s2.elems))
  {
    hide Expand, Taken, Outside, Assign, Identity;
    SetInitialize(s1, false, inS1);
    s2.state := BEGIN_STATE;
    TakenAtStart(s2);
    ghost var outside, all, seen := ComplementOf(Expand(s1.elems)), Expand(s2.elems), [];
    FillIdentity(xlate);
    ghost var members := Elements(Expand(s1.elems));
    assert all[0..] == all;
    for i := 0 to N_CHARS
      invariant Taken(s2, seen, all) && |seen| <= |all|
      invariant forall c: byte :: inS1[c] <==> c in members
      invariant |Outside(members, i)| + |seen| == |outside|
      invariant Assign(Identity(), outside, all) == Assign(xlate[..], Outside(members, i), all[|seen|..])
    {
      OutsideStep(members, i);
      if !inS1[i] {
        ghost var seen0 := seen;
        var item;
        item, seen := Take(s2, seen, all);
        assert item.Char? || truncate;
        if item.End? {
          AssignNothing(xlate[..], Outside(members, i), all[|seen|..]);
          return;
        }
        TakenIsPrefix(s2, seen, all);
        assert all[|seen0|] == item.c && all[|seen0|..][1..] == all[|seen|..];
        assert Outside(members, i)[1..] == Outside(members, i + 1);
        AssignStep(xlate[..], i, item.c, Outside(members, i), all[|seen0|..]);
        label BeforeWrite:
        xlate[i] := item.c;
        assert xlate[..] == old@BeforeWrite(xlate[..])[i := item.c];
      }
    }
    NothingOutside(members);
    AssignNothing(xlate[..], Outside(members, N_CHARS), all[|seen|..]);
  }

  method FillIdentity(xlate: array<byte>)
    requires xlate.Length == N_CHARS
    modifies xlate
    ensures xlate[..] == Identity()
  {
    for i := 0 to N_CHARS
      invariant forall c: byte :: c < i ==> xlate[c] == c
    {
      xlate[i] := i;
    }
  }

  lemma OutsideStep(members: set<byte>, i: byte)
    ensures if i in members then Outside(members, i) == Outside(members, i + 1)
      else Outside(members, i) == [i] + Outside(members, i + 1)
  {
  }

  lemma NothingOutside(members: set<byte>)
    ensures Outside(members, N_CHARS) == []
  {
  }

  lemma AssignNothing(t: seq<byte>, source: seq<byte>, target: seq<byte>)
    requires |t| == N_CHARS && (source == [] || target == [])
    ensures Assign(t, source, target) == t
  {
  }

  lemma AssignStep(t: seq<byte>, from: byte, to: byte, source: seq<byte>, target: seq<byte>)
    requires |t| == N_CHARS && source != [] && target != [] && source[0] == from && target[0] == to
    ensures Assign(t, source, target) == Assign(t[from := to], source[1..], target[1..])
  {
  }

  /** Fills the table for plain translation, pairing the bytes and case classes of both sets in step. */
  method BuildPlain(s1: SpecList, s2: SpecList, truncate: bool, xlate: array<byte>)
    requires s1 != s2 && ValidList(s1.elems) && ValidList(s2.elems) && xlate.Length == N_CHARS
    requires AlignLists(s1, s2).Aligned?
    requires truncate || |Expand(s1.elems)| <= |Expand(s2.elems)|
    modifies s1`tail, s1`state, s2`tail, s2`state, xlate
    ensures AlignLists(s1, s2).Aligned?
    ensures xlate[..] == TableLoop(Start(s1.elems), Start(s2.elems), Identity())
  {
    hide Expand, Next, Align, Place, Identity, TableLoop;
    FillIdentity(xlate);
    s1.state, s2.state := BEGIN_STATE, BEGIN_STATE;
    AtStart(s1);
    AtStart(s2);
    ghost var n1, n2 := |Expand(s1.elems)|, |Expand(s2.elems)|;
    ghost var goal := TableLoop(Start(s1.elems), Start(s2.elems), Identity());
    ghost var a, b := Start(s1.elems), Start(s2.elems);
    while true
      invariant s1.Walkable() && s2.Walkable() && a == s1.View() && b == s2.View()
      invariant b.kind == NoCase && Align(a, b).Aligned?
      invariant |b.Chars()| - |a.Chars()| == n2 - n1
      invariant goal == TableLoop(a, b, xlate[..])
      decreases |a.Chars()|
    {
      var item1 := s1.GetNext();
      var item2 := s2.GetNext();
      ghost var t := xlate[..];
      AlignEnds(a, b);
      if item2.Kind() != NoCase {
        TablePair(a, b, t);
      } else if item1.Char? && item2.Char? {
        TablePlain(a, b, t);
      } else {
        TableEnds(a, b, t);
      }
      if item1.Kind() == LowerCase && item2.Kind() == UpperCase {
        ConvertClass(LowerCase, xlate);
      } else if item1.Kind() == UpperCase && item2.Kind() == LowerCase {
        ConvertClass(UpperCase, xlate);
      } else {
        if item1.End? || item2.End? {
          assert item1.End? || truncate;
          return;
        }
        xlate[item1.c] := item2.c;
        assert xlate[..] == t[item1.c := item2.c];
      }
      if item2.Kind() != NoCase {
        s1.SkipConstruct();
        s2.SkipConstruct();
      }
      a, b := s1.View(), s2.View();
    }
  }

  method ConvertClass(kind: Case, xlate: array<byte>)
    requires kind != NoCase && xlate.Length == N_CHARS
    modifies xlate
    ensures xlate[..] == Converted(old(xlate[..]), kind)
  {
    ghost var t := xlate[..];
    for i := 0 to N_CHARS
      invariant forall c: byte :: xlate[c] == if c < i then Converted(t, kind)[c] else t[c]
    {
      if kind == LowerCase && IsLower(i) {
        xlate[i] := ToUpper(i);
      } else if kind == UpperCase && IsUpper(i) {
        xlate[i] := ToLower(i);
      }
    }
  }

  /** A turn of the translating loop that meets a case class of set 2. */
  lemma TablePair(a: Cursor, b: Cursor, t: seq<byte>)
    requires a.Valid() && b.Valid() && b.kind == NoCase && Align(a, b).Aligned? && |t| == N_CHARS
    requires Next(b).0.Kind() != NoCase
    ensures var (x, p) := Next(a);
      var (y, q) := Next(b);
      && x.Kind() != NoCase && p.current != [] && q.current != []
      && Skip(q).kind == NoCase && Align(Skip(p), Skip(q)).Aligned?
      && |a.Chars()| == 26 + |Skip(p).Chars()| && |b.Chars()| == 26 + |Skip(q).Chars()|
      && TableLoop(a, b, t)
         == TableLoop(Skip(p), Skip(q), if x.kind != y.kind then Converted(t, x.kind) else t[x.c := y.c])
  {
    hide Expand, Next, Letters, Skip, Converted, Align;
    AlignEnds(a, b);
    CaseIsNew(b);
    PairStep(a, b);
    SkipChars(Next(a).1);
    SkipChars(Next(b).1);
  }

  /** A turn that meets none. */
  lemma TablePlain(a: Cursor, b: Cursor, t: seq<byte>)
    requires a.Valid() && b.Valid() && b.kind == NoCase && Align(a, b).Aligned? && |t| == N_CHARS
    requires Next(b).0.Kind() == NoCase && Next(a).0.Char? && Next(b).0.Char?
    ensures var (x, p) := Next(a);
      var (y, q) := Next(b);
      && q.kind == NoCase && Align(p, q).Aligned?
      && |a.Chars()| == 1 + |p.Chars()| && |b.Chars()| == 1 + |q.Chars()|
      && TableLoop(a, b, t) == TableLoop(p, q, t[x.c := y.c])
  {
    hide Expand, Next, Letters, Skip, Converted, Align;
    PlainStep(a, b);
  }

  /** The last turn. */
  lemma TableEnds(a: Cursor, b: Cursor, t: seq<byte>)
    requires a.Valid() && b.Valid() && b.kind == NoCase && Align(a, b).Aligned? && |t| == N_CHARS
    requires Next(b).0.Kind() == NoCase && (Next(a).0.End? || Next(b).0.End?)
    ensures TableLoop(a, b, t) == t
    ensures (Next(a).0.End? <==> a.Chars() == []) && (Next(b).0.End? <==> b.Chars() == [])
  {
    hide Expand, Next, Skip, Align;
    NextChars(a);
    NextChars(b);
  }

  // ----- the table of the one-byte-at-a-time form -----

  /** What translating by two strings means: string 2 is continued by its last byte. */
  function Continued(set2: seq<byte>, n: nat): seq<byte>
    requires set2 != []
  {
    if |set2| < n then set2 + Copies(set2[|set2| - 1], n - |set2|) else set2
  }

  function ZipTable(set1: seq<byte>, set2: seq<byte>): (t: seq<byte>)
    requires set2 != [] || set1 == []
    ensures |t| == N_CHARS
  {
    if set1 == [] then Identity() else Assign(Identity(), set1, Continued(set2, |set1|))
  }

  method TranslateOperationNew(set1: seq<byte>, set2: seq<byte>) returns (r: Option<seq<byte>>)
    ensures r == None <==> set2 == [] && set1 != []
    ensures r.Some? ==> r.value == ZipTable(set1, set2)
  {
    hide Assign, Identity;
    var table := new byte[N_CHARS];
    FillIdentity(table);
    if set2 == [] && set1 != [] {
      return None;
    }
    if set1 != [] {
      var fallback := set2[|set2| - 1];
      ghost var target := Continued(set2, |set1|);
      for k := 0 to |set1|
        invariant Assign(Identity(), set1, target) == Assign(table[..], set1[k..], target[k..])
      {
        var next := if k < |set2| then set2[k] else fallback;
        assert set1[k..][1..] == set1[k + 1..] && target[k..][1..] == target[k + 1..];
        AssignStep(table[..], set1[k], next, set1[k..], target[k..]);
        label BeforeWrite:
        table[set1[k]] := next;
        assert table[..] == old@BeforeWrite(table[..])[set1[k] := next];
      }
      AssignNothing(table[..], set1[|set1|..], target[|set1|..]);
    }
    r := Some(table[..]);
  }
}
