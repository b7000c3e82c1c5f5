/** When the case classes of the two sets of `tr` line up, said of the places where they begin. */
module TrAlignLaws {
  import opened Streams
  import opened TrSpec
  import opened TrAlign

  /** A case class begins o bytes into the expansion. */
  ghost predicate CaseBegins(es: seq<Construct>, o: nat)
    requires ValidList(es)
  {
    exists k :: 0 <= k < |es| && CaseOf(es[k]) != NoCase && |Expand(es[..k])| == o
  }

  /** Each case class of set 2 that set 1 reaches begins where a case class of set 1 does. */
  ghost predicate LineUp(es1: seq<Construct>, es2: seq<Construct>)
    requires ValidList(es1) && ValidList(es2)
  {
    forall o: nat :: o <= |Expand(es1)| && CaseBegins(es2, o) ==> CaseBegins(es1, o)
  }

  // ----- the same along a walk -----

  predicate BeginsAt(es: seq<Construct>, o: int)
    requires ValidList(es)
  {
    es != [] && ((o == 0 && CaseOf(es[0]) != NoCase) || BeginsAt(es[1..], o - |Expand1(es[0])|))
  }

  predicate Begins(p: Cursor, o: int)
    requires p.Valid()
  {
    BeginsAt(p.rest, o - |p.current|)
  }

  lemma {:induction false} NotBefore(es: seq<Construct>, o: int)
    requires ValidList(es) && o < 0
    ensures !BeginsAt(es, o)
  {
    if es != [] {
      NotBefore(es[1..], o - |Expand1(es[0])|);
    }
  }

  lemma {:induction false} BeginsExactly(es: seq<Construct>, o: nat)
    requires ValidList(es)
    ensures BeginsAt(es, o) <==> CaseBegins(es, o)
  {
    hide Expand1;
    if es != [] {
      var n := |Expand1(es[0])|;
      assert es[..0] == [];
      forall k | 0 < k < |es|
        ensures ValidList(es[..k]) && |Expand(es[..k])| == n + |Expand(es[1..][..k - 1])|
      {
        assert es[..k][1..] == es[1..][..k - 1];
      }
      if o < n {
        NotBefore(es[1..], o - n);
      } else {
        BeginsExactly(es[1..], o - n);
      }
      if BeginsAt(es, o) && !(o == 0 && CaseOf(es[0]) != NoCase) {
        var k :| 0 <= k < |es[1..]| && CaseOf(es[1..][k]) != NoCase && |Expand(es[1..][..k])| == o - n;
        assert es[k + 1] == es[1..][k] && |Expand(es[..k + 1])| == o;
      }
      if k :| 0 < k < |es| && CaseOf(es[k]) != NoCase && |Expand(es[..k])| == o {
        assert es[1..][k - 1] == es[k] && |Expand(es[1..][..k - 1])| == o - n;
      }
    }
  }

  /** A step of a walk comes one byte nearer to the places where case classes begin. */
  lemma {:induction false} NextBegins(p: Cursor, o: nat)
    requires p.Valid()
    ensures Begins(p, 0) <==> p.current == [] && Next(p).0.Kind() != NoCase
    ensures Next(p).0.Char? ==> (Begins(p, o + 1) <==> Begins(Next(p).1, o))
    ensures Next(p).0.End? ==> !Begins(p, o)
    decreases |p.rest|
  {
    hide Expand1;
    if p.current != [] {
      NotBefore(p.rest, -|p.current|);
    } else if p.rest != [] {
      CaseIsNotEmpty(p.rest[0]);
      var x := Expand1(p.rest[0]);
      if x == [] {
        NextBegins(Start(p.rest[1..]), o);
      } else {
        NotBefore(p.rest[1..], -|x|);
      }
    }
  }

  lemma CaseIsNotEmpty(e: Construct)
    requires ValidConstruct(e)
    ensures CaseOf(e) != NoCase ==> Expand1(e) != []
  {
    if e.Class? {
      ClassIsNotEmpty(e.cls);
    }
  }

  /** Behind a case class just entered, the places are 26 bytes nearer. */
  lemma SkipBegins(p: Cursor, o: nat)
    requires p.Valid() && p.current == [] && Next(p).0.Kind() != NoCase
    ensures Begins(p, o) <==> o == 0 || (o >= 26 && Begins(Skip(Next(p).1), o - 26))
  {
    hide BeginsAt, Next, Expand, Letters;
    EnterCase(p);
    var q := Next(p).1;
    NextBegins(p, if o == 0 then 0 else o - 1);
    if 0 < o < 26 {
      NotBefore(q.rest, o - 26);
    }
  }

  ghost predicate Meet(a: Cursor, b: Cursor)
    requires a.Valid() && b.Valid()
  {
    forall o: nat :: o <= |a.Chars()| && Begins(b, o) ==> Begins(a, o)
  }

  lemma {:induction false} AlignMeets(a: Cursor, b: Cursor)
    requires a.Valid() && b.Valid() && b.kind == NoCase
    ensures Align(a, b).Aligned? <==> Meet(a, b)
    decreases |a.Chars()|
  {
    hide Begins, BeginsAt, Next, Expand, Letters, Align, Skip;
    NextChars(a);
    NextChars(b);
    NextBegins(a, 0);
    NextBegins(b, 0);
    AlignEnds(a, b);
    var (x, p) := Next(a);
    var (y, q) := Next(b);
    if y.Kind() != NoCase {
      CaseIsNew(b);
      if Begins(a, 0) {
        PairStep(a, b);
        SkipChars(p);
        SkipChars(q);
        AlignMeets(Skip(p), Skip(q));
        PairMeets(a, b);
      } else {
        assert !Meet(a, b);
      }
    } else if x.End? || y.End? {
      EndMeets(a, b);
    } else {
      PlainStep(a, b);
      AlignMeets(p, q);
      StepMeets(a, b);
    }
  }

  lemma PairMeets(a: Cursor, b: Cursor)
    requires a.Valid() && b.Valid() && a.current == [] && b.current == []
    requires Next(a).0.Kind() != NoCase && Next(b).0.Kind() != NoCase
    ensures Meet(a, b) <==> Meet(Skip(Next(a).1), Skip(Next(b).1))
  {
    hide Begins, Next, Expand, Letters, Skip;
    EnterCase(a);
    var a', b' := Skip(Next(a).1), Skip(Next(b).1);
    forall o: nat
      ensures Begins(a, o) <==> o == 0 || (o >= 26 && Begins(a', o - 26))
      ensures Begins(b, o) <==> o == 0 || (o >= 26 && Begins(b', o - 26))
    {
      SkipBegins(a, o);
      SkipBegins(b, o);
    }
    forall o: nat
      ensures Begins(a', o) <==> Begins(a, o + 26)
      ensures Begins(b', o) <==> Begins(b, o + 26)
    {
    }
  }

  lemma EndMeets(a: Cursor, b: Cursor)
    requires a.Valid() && b.Valid() && Next(b).0.Kind() == NoCase && (Next(a).0.End? || Next(b).0.End?)
    ensures Meet(a, b)
  {
    hide Begins, Next, Expand;
    NextChars(a);
    forall o: nat
      ensures o <= |a.Chars()| ==> !Begins(b, o)
    {
      NextBegins(b, o);
    }
  }

  lemma StepMeets(a: Cursor, b: Cursor)
    requires a.Valid() && b.Valid() && Next(b).0.Kind() == NoCase && Next(a).0.Char? && Next(b).0.Char?
    ensures Meet(a, b) <==> Meet(Next(a).1, Next(b).1)
  {
    hide Begins, Next, Expand;
    NextChars(a);
    NextBegins(b, 0);
    var p, q := Next(a).1, Next(b).1;
    forall o: nat
      ensures Begins(p, o) <==> Begins(a, o + 1)
      ensures Begins(q, o) <==> Begins(b, o + 1)
    {
      NextBegins(a, o);
      NextBegins(b, o);
    }
    forall o: nat | o > 0
      ensures Begins(p, o - 1) <==> Begins(a, o)
      ensures Begins(q, o - 1) <==> Begins(b, o)
    {
      NextBegins(a, o - 1);
      NextBegins(b, o - 1);
    }
  }

  /** The check succeeds exactly if the case classes line up. */
  lemma AlignedExactly(es1: seq<Construct>, es2: seq<Construct>)
    requires ValidList(es1) && ValidList(es2)
    ensures Align(Start(es1), Start(es2)).Aligned? <==> LineUp(es1, es2)
  {
    hide Align, Expand, BeginsAt, CaseBegins;
    var a, b := Start(es1), Start(es2);
    AlignMeets(a, b);
    assert a.Chars() == Expand(es1);
    forall o: nat
      ensures Begins(a, o) <==> CaseBegins(es1, o)
      ensures Begins(b, o) <==> CaseBegins(es2, o)
    {
      BeginsExactly(es1, o);
      BeginsExactly(es2, o);
    }
  }
}
