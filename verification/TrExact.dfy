/** Exactly when the class shortcut of `tr` and the zip of the two expansions build the same table. */
module TrExact {
  import opened Streams
  import opened TrSpec
  import opened TrAlign
  import opened TrValidate
  import opened TrTable
  import TrTranslate

  /** A position of the zip: the byte of set 1, the byte of set 2, and whether the shortcut writes it, too. */
  datatype Write = Write(source: byte, target: byte, kept: bool)

  /** For a pair of opposite classes every letter is written, for a pair of equal ones only the first. */
  function PairWrites(source: Case, target: Case): (ws: seq<Write>)
    requires source != NoCase && target != NoCase
    ensures |ws| == 26
  {
    seq(26, i requires 0 <= i < 26 => Write(Letters(source)[i], Letters(target)[i], source != target || i == 0))
  }

  /** The positions of the zip along the two walks. */
  function Writes(a: Cursor, b: Cursor): seq<Write>
    requires a.Valid() && b.Valid() && b.kind == NoCase && Align(a, b).Aligned?
    decreases |a.Chars()|
  {
    NextChars(a);
    SkipChars(Next(a).1);
    NextKind(b);
    SkipChars(Next(b).1);
    var (x, p) := Next(a);
    var (y, q) := Next(b);
    if y.Kind() != NoCase then PairWrites(x.kind, y.kind) + Writes(Skip(p), Skip(q))
    else if x.End? || y.End? then []
    else [Write(x.c, y.c, true)] + Writes(p, q)
  }

  /** The table after all writes, or after those that are kept. */
  function Apply(t: seq<byte>, ws: seq<Write>, all: bool): (t': seq<byte>)
    requires |t| == N_CHARS
    ensures |t'| == N_CHARS
    decreases |ws|
  {
    if ws == [] then t
    else Apply(if all || ws[0].kept then t[ws[0].source := ws[0].target] else t, ws[1..], all)
  }

  lemma {:induction false} ApplyAppend(t: seq<byte>, ws: seq<Write>, more: seq<Write>, all: bool)
    requires |t| == N_CHARS
    ensures Apply(t, ws + more, all) == Apply(Apply(t, ws, all), more, all)
    decreases |ws|
  {
    if ws == [] {
      assert ws + more == more;
    } else {
      assert (ws + more)[1..] == ws[1..] + more;
      ApplyAppend(if all || ws[0].kept then t[ws[0].source := ws[0].target] else t, ws[1..], more, all);
    }
  }

  lemma {:induction false} ApplyNoneKept(t: seq<byte>, ws: seq<Write>)
    requires |t| == N_CHARS && forall k :: 0 <= k < |ws| ==> !ws[k].kept
    ensures Apply(t, ws, false) == t
    decreases |ws|
  {
    if ws != [] {
      ApplyNoneKept(t, ws[1..]);
    }
  }

  /** Writes that all count are a zip of their two sides. */
  lemma {:induction false} ApplyIsAssign(t: seq<byte>, ws: seq<Write>, all: bool, source: seq<byte>, target: seq<byte>)
    requires |t| == N_CHARS && |source| == |target| == |ws|
    requires forall k :: 0 <= k < |ws| ==> (all || ws[k].kept) && ws[k].source == source[k] && ws[k].target == target[k]
    ensures Apply(t, ws, all) == Assign(t, source, target)
    decreases |ws|
  {
    if ws != [] {
      ApplyIsAssign(t[source[0] := target[0]], ws[1..], all, source[1..], target[1..]);
    }
  }

  /** What a pair of classes does to a table, by the shortcut and by the zip. */
  lemma ApplyPair(t: seq<byte>, source: Case, target: Case)
    requires |t| == N_CHARS && source != NoCase && target != NoCase
    ensures Apply(t, PairWrites(source, target), true) == Assign(t, Letters(source), Letters(target))
    ensures Apply(t, PairWrites(source, target), false) ==
      if source != target then Converted(t, source) else t[Letters(source)[0] := Letters(target)[0]]
  {
    hide Assign, Letters, Converted;
    var ws := PairWrites(source, target);
    ApplyIsAssign(t, ws, true, Letters(source), Letters(target));
    if source != target {
      ApplyIsAssign(t, ws, false, Letters(source), Letters(target));
      AssignLetters(t, source, target);
    } else {
      ApplyNoneKept(t[ws[0].source := ws[0].target], ws[1..]);
    }
  }

  /** The shortcut is the kept writes, the zip is all of them. */
  lemma {:induction false} LoopKeepsZipWrites(a: Cursor, b: Cursor, t: seq<byte>)
    requires a.Valid() && b.Valid() && b.kind == NoCase && Align(a, b).Aligned? && |t| == N_CHARS
    ensures TableLoop(a, b, t) == Apply(t, Writes(a, b), false)
    decreases |a.Chars()|
  {
    hide Expand, Next, Letters, Skip, Apply, PairWrites, Align;
    var (x, p) := Next(a);
    var (y, q) := Next(b);
    AlignEnds(a, b);
    if y.Kind() != NoCase {
      TablePair(a, b, t);
      CaseIsNew(b);
      EnterCase(a);
      EnterCase(b);
      ApplyPair(t, x.kind, y.kind);
      var t' := if x.kind != y.kind then Converted(t, x.kind) else t[x.c := y.c];
      LoopKeepsZipWrites(Skip(p), Skip(q), t');
      ApplyAppend(t, PairWrites(x.kind, y.kind), Writes(Skip(p), Skip(q)), false);
    } else if x.Char? && y.Char? {
      TablePlain(a, b, t);
      LoopKeepsZipWrites(p, q, t[x.c := y.c]);
      ApplyFirst(t, Write(x.c, y.c, true), Writes(p, q), false);
    } else {
      TableEnds(a, b, t);
      ApplyNothing(t, false);
    }
  }

  lemma {:induction false} ZipIsAllWrites(a: Cursor, b: Cursor, t: seq<byte>)
    requires a.Valid() && b.Valid() && b.kind == NoCase && Align(a, b).Aligned? && |t| == N_CHARS
    ensures Assign(t, a.Chars(), b.Chars()) == Apply(t, Writes(a, b), true)
    decreases |a.Chars()|
  {
    hide Expand, Next, Letters, Skip, Apply, PairWrites, Align;
    var (x, p) := Next(a);
    var (y, q) := Next(b);
    AlignEnds(a, b);
    NextChars(a);
    NextChars(b);
    if y.Kind() != NoCase {
      CaseIsNew(b);
      PairStep(a, b);
      SkipChars(p);
      SkipChars(q);
      var t' := Assign(t, Letters(x.kind), Letters(y.kind));
      ApplyPair(t, x.kind, y.kind);
      ZipIsAllWrites(Skip(p), Skip(q), t');
      ApplyAppend(t, PairWrites(x.kind, y.kind), Writes(Skip(p), Skip(q)), true);
      AssignAppend(t, Letters(x.kind), Letters(y.kind), Skip(p).Chars(), Skip(q).Chars());
    } else if x.Char? && y.Char? {
      PlainStep(a, b);
      ZipIsAllWrites(p, q, t[x.c := y.c]);
      ApplyFirst(t, Write(x.c, y.c, true), Writes(p, q), true);
      AssignStep(t, x.c, y.c, a.Chars(), b.Chars());
      assert a.Chars()[1..] == p.Chars() && b.Chars()[1..] == q.Chars();
    } else {
      AssignNothing(t, a.Chars(), b.Chars());
      ApplyNothing(t, true);
    }
  }

  lemma ApplyFirst(t: seq<byte>, w: Write, ws: seq<Write>, all: bool)
    requires |t| == N_CHARS && w.kept
    ensures Apply(t, [w] + ws, all) == Apply(t[w.source := w.target], ws, all)
  {
    assert ([w] + ws)[1..] == ws;
  }

  lemma ApplyNothing(t: seq<byte>, all: bool)
    requires |t| == N_CHARS
    ensures Apply(t, [], all) == t
  {
  }

  // ----- dropped writes -----

  predicate Counts(w: Write, c: byte, all: bool) {
    w.source == c && (all || w.kept)
  }

  /** The last index of a write that counts, or -1. */
  function LastIndex(ws: seq<Write>, c: byte, all: bool): (i: int)
    ensures -1 <= i < |ws| && (i >= 0 ==> Counts(ws[i], c, all))
    ensures forall k :: i < k < |ws| ==> !Counts(ws[k], c, all)
    decreases |ws|
  {
    if ws == [] then -1
    else if Counts(ws[|ws| - 1], c, all) then |ws| - 1
    else LastIndex(ws[..|ws| - 1], c, all)
  }

  /** The last write that counts decides; without one the byte keeps its value. */
  lemma {:induction false} LastCounts(t: seq<byte>, ws: seq<Write>, all: bool, c: byte)
    requires |t| == N_CHARS
    ensures var i := LastIndex(ws, c, all);
      Apply(t, ws, all)[c] == if i >= 0 then ws[i].target else t[c]
    decreases |ws|
  {
    if ws != [] {
      var n := |ws| - 1;
      var w, t' := ws[n], Apply(t, ws[..n], all);
      assert ws == ws[..n] + [w];
      ApplyAppend(t, ws[..n], [w], all);
      assert Apply(t', [w], all) == if all || w.kept then t'[w.source := w.target] else t';
      LastCounts(t, ws[..n], all, c);
    }
  }

  /** Write i, the last kept one of its byte, changes the byte, and a dropped write j of the byte follows. */
  predicate Lost(ws: seq<Write>, i: nat, j: nat) {
    && i < j < |ws| && ws[i].kept && ws[i].target != ws[i].source
    && !ws[j].kept && ws[j].source == ws[i].source
    && forall k :: i < k < |ws| && ws[k].kept ==> ws[k].source != ws[i].source
  }

  /** Writes that are dropped map their byte to itself. */
  predicate DropsIdentity(ws: seq<Write>) {
    forall k :: 0 <= k < |ws| && !ws[k].kept ==> ws[k].target == ws[k].source
  }

  lemma ByteAgrees(ws: seq<Write>, c: byte)
    requires DropsIdentity(ws)
    ensures Apply(Identity(), ws, false)[c] == Apply(Identity(), ws, true)[c] <==>
      !exists i: nat, j: nat :: Lost(ws, i, j) && ws[i].source == c
  {
    hide Apply;
    LastCounts(Identity(), ws, false, c);
    LastCounts(Identity(), ws, true, c);
    var i, m := LastIndex(ws, c, false), LastIndex(ws, c, true);
    assert i <= m by {
      assert i >= 0 ==> Counts(ws[i], c, true);
    }
    if i >= 0 && i < m && ws[i].target != c {
      assert !ws[m].kept;
      assert Lost(ws, i, m);
    }
    if i': nat, j': nat :| Lost(ws, i', j') && ws[i'].source == c {
      assert Counts(ws[i'], c, false) && Counts(ws[j'], c, true);
      assert i == i' && i < m;
      assert !ws[m].kept;
    }
  }

  /** The two tables are equal exactly if no write is lost. */
  lemma TablesEqual(ws: seq<Write>)
    requires DropsIdentity(ws)
    ensures Apply(Identity(), ws, false) == Apply(Identity(), ws, true) <==> !exists i: nat, j: nat :: Lost(ws, i, j)
  {
    hide Apply;
    var kept, all := Apply(Identity(), ws, false), Apply(Identity(), ws, true);
    if i: nat, j: nat :| Lost(ws, i, j) {
      ByteAgrees(ws, ws[i].source);
    } else {
      forall k | 0 <= k < N_CHARS
        ensures kept[k] == all[k]
      {
        ByteAgrees(ws, k);
      }
    }
  }

  lemma {:induction false} WritesDropIdentity(a: Cursor, b: Cursor)
    requires a.Valid() && b.Valid() && b.kind == NoCase && Align(a, b).Aligned?
    ensures DropsIdentity(Writes(a, b))
    decreases |a.Chars()|
  {
    hide Expand, Next, Letters, Skip, Align;
    var (x, p) := Next(a);
    var (y, q) := Next(b);
    AlignEnds(a, b);
    NextChars(a);
    if y.Kind() != NoCase {
      CaseIsNew(b);
      PairStep(a, b);
      SkipChars(p);
      SkipChars(q);
      WritesDropIdentity(Skip(p), Skip(q));
    } else if x.Char? && y.Char? {
      PlainStep(a, b);
      WritesDropIdentity(p, q);
    }
  }

  /** The zip of the two expansions: up to the end of the shorter string with --truncate-set1, otherwise with
      string 2 continued by its last byte. */
  function Zip(set1: seq<byte>, set2: seq<byte>, truncate: bool): seq<byte>
    requires truncate || set2 != [] || set1 == []
  {
    if truncate then Assign(Identity(), set1, set2) else ZipTable(set1, set2)
  }

  /** For all accepted sets: the table with the class shortcut is the zip of the two expansions if and only if
      no byte that an earlier pair changes reappears last as a later letter of a class paired with the same
      class. */
  lemma ShortcutIsZipExactly(es1: seq<Construct>, es2: seq<Construct>, truncate: bool)
    requires ValidList(es1) && ValidList(es2) && Acceptable2(es1, es2, false, truncate)
    ensures var n := Length1(es1, false);
      var set1, set2 := Expand(es1), Expand(Resolved(es2, n));
      && Align(Start(es1), Start(Prepared(es2, n, truncate))).Aligned?
      && (truncate || set2 != [] || set1 == [])
      && (TrTranslate.TableOf(es1, es2, false, truncate) == Zip(set1, set2, truncate) <==>
          !exists i: nat, j: nat :: Lost(Writes(Start(es1), Start(Prepared(es2, n, truncate))), i, j))
  {
    hide Expand, Align, CountIndefinite, Copies, Identity, TableLoop, Assign, Apply, Lost, Writes;
    var n := Length1(es1, false);
    var e2 := Prepared(es2, n, truncate);
    var set1 := Expand(es1);
    TrTranslate.PreparedAligns(es1, es2, truncate);
    LoopKeepsZipWrites(Start(es1), Start(e2), Identity());
    ZipIsAllWrites(Start(es1), Start(e2), Identity());
    WritesDropIdentity(Start(es1), Start(e2));
    TablesEqual(Writes(Start(es1), Start(e2)));
    TrTranslate.NothingBefore(es1);
    TrTranslate.NothingBefore(e2);
    if !truncate {
      PreparedExpansion(es2, n, false);
      if set1 == [] {
        AssignNothing(Identity(), set1, Expand(e2));
      }
    }
  }
}
