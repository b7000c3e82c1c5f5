/** The checks that `tr` makes on its two sets before it translates, and the padding of the second one. */
module TrValidate {
  import opened Streams
  import opened TrSpec
  import TrAlign

  // ----- statistics of one list -----

  predicate IsIndefinite(e: Construct) {
    e.Repeated? && e.count == 0
  }

  predicate IsRestricted(e: Construct) {
    e.Class? && e.cls != Lower && e.cls != Upper
  }

  function CountIndefinite(es: seq<Construct>): nat {
    if es == [] then 0 else (if IsIndefinite(es[0]) then 1 else 0) + CountIndefinite(es[1..])
  }

  predicate HasEquivClass(es: seq<Construct>) {
    exists i :: 0 <= i < |es| && es[i].EquivClass?
  }

  predicate HasCharClass(es: seq<Construct>) {
    exists i :: 0 <= i < |es| && es[i].Class?
  }

  predicate HasRestrictedCharClass(es: seq<Construct>) {
    exists i :: 0 <= i < |es| && IsRestricted(es[i])
  }

  lemma {:induction false} NoIndefinite(es: seq<Construct>)
    ensures CountIndefinite(es) == 0 <==> forall i :: 0 <= i < |es| ==> !IsIndefinite(es[i])
  {
    if es != [] {
      NoIndefinite(es[1..]);
      assert forall i :: 0 < i < |es| ==> es[i] == es[1..][i - 1];
      assert CountIndefinite(es) == 0 ==> forall i :: 0 <= i < |es[1..]| ==> !IsIndefinite(es[1..][i]);
    }
  }

  lemma ExpandSplit(es: seq<Construct>, i: nat)
    requires ValidList(es) && i < |es|
    ensures ValidList(es[i..]) && ValidList(es[i + 1..])
    ensures Expand(es[i..]) == Expand1(es[i]) + Expand(es[i + 1..])
    ensures CountIndefinite(es[i..]) == (if IsIndefinite(es[i]) then 1 else 0) + CountIndefinite(es[i + 1..])
  {
  }

  method CountMembers(cls: CharClass) returns (n: nat)
    ensures n == |MembersFrom(cls, 0)|
  {
    n := 0;
    for i := 0 to N_CHARS
      invariant n + |MembersFrom(cls, i)| == |MembersFrom(cls, 0)|
    {
      if IsMember(cls, i) {
        n := n + 1;
      }
    }
  }

  method CountEquivalents(code: byte) returns (n: nat)
    ensures n == 1
  {
    n := 0;
    for i := 0 to N_CHARS
      invariant n == if i > code then 1 else 0
    {
      if i == code {
        n := n + 1;
      }
    }
  }

  method ConstructLength(e: Construct) returns (len: nat)
    requires ValidConstruct(e)
    ensures len == |Expand1(e)|
  {
    match e
    case NormalChar(_) => len := 1;
    case Range(first, last) => len := last - first + 1;
    case Class(cls) => len := CountMembers(cls);
    case EquivClass(c) => len := CountEquivalents(c);
    case Repeated(_, n) => len := n;
  }

  /** Fills in the attributes of a list; false stands for the exit "too many characters in set". */
  method GetSpecStats(s: SpecList) returns (ok: bool)
    requires ValidList(s.elems)
    modifies s`length, s`nIndefinite, s`indefinite, s`hasEquivClass, s`hasCharClass, s`hasRestrictedCharClass
    ensures ok <==> |Expand(s.elems)| <= REPEAT_COUNT_MAXIMUM
    ensures ok ==> s.length == |Expand(s.elems)| && s.nIndefinite == CountIndefinite(s.elems)
    ensures ok && s.nIndefinite > 0 ==> s.indefinite < |s.elems| && IsIndefinite(s.elems[s.indefinite])
    ensures ok ==> s.hasEquivClass == HasEquivClass(s.elems) && s.hasCharClass == HasCharClass(s.elems)
    ensures ok ==> s.hasRestrictedCharClass == HasRestrictedCharClass(s.elems)
  {
    hide Expand, CountIndefinite, Expand1;
    var es := s.elems;
    var length: nat := 0;
    s.nIndefinite := 0;
    s.hasEquivClass, s.hasRestrictedCharClass, s.hasCharClass := false, false, false;
    assert es[0..] == es;
    for i := 0 to |es|
      invariant s.elems == es && length <= REPEAT_COUNT_MAXIMUM
      invariant length + |Expand(es[i..])| == |Expand(es)|
      invariant s.nIndefinite + CountIndefinite(es[i..]) == CountIndefinite(es)
      invariant s.nIndefinite > 0 ==> s.indefinite < i && IsIndefinite(es[s.indefinite])
      invariant s.hasEquivClass <==> exists j :: 0 <= j < i && es[j].EquivClass?
      invariant s.hasCharClass <==> exists j :: 0 <= j < i && es[j].Class?
      invariant s.hasRestrictedCharClass <==> exists j :: 0 <= j < i && IsRestricted(es[j])
    {
      ExpandSplit(es, i);
      var len := ConstructLength(es[i]);
      match es[i] {
        case Class(cls) =>
          s.hasCharClass := true;
          if cls != Lower && cls != Upper {
            s.hasRestrictedCharClass := true;
          }
        case EquivClass(_) =>
          s.hasEquivClass := true;
        case Repeated(_, n) =>
          if n == 0 {
            s.indefinite, s.nIndefinite := i, s.nIndefinite + 1;
          }
        case _ =>
      }
      if length + len > REPEAT_COUNT_MAXIMUM {
        return false;
      }
      length := length + len;
    }
    s.length := length;
    EndOfList(es);
    return true;
  }

  lemma EndOfList(es: seq<Construct>)
    ensures Expand(es[|es|..]) == [] && CountIndefinite(es[|es|..]) == 0
  {
  }

  // ----- the complement of a set -----

  /** The bytes from `from` on that are not in the set, ascending. */
  function Outside(members: set<byte>, from: nat): seq<byte>
    requires from <= N_CHARS
    decreases N_CHARS - from, members
  {
    if from == N_CHARS then []
    else (if from as byte in members then [] else [from as byte]) + Outside(members, from + 1)
  }

  function Elements(chars: seq<byte>): set<byte> {
    set c | c in chars
  }

  /** The complement, in the order in which translation runs through it. */
  function ComplementOf(chars: seq<byte>): seq<byte> {
    Outside(Elements(chars), 0)
  }

  function AtLeast(members: set<byte>, from: nat): set<byte> {
    set c | c in members && from <= c
  }

  lemma {:induction false} OutsideSize(members: set<byte>, from: nat)
    requires from <= N_CHARS
    ensures |Outside(members, from)| + |AtLeast(members, from)| == N_CHARS - from
    decreases N_CHARS - from
  {
    if from == N_CHARS {
      assert AtLeast(members, from) == {};
    } else {
      OutsideSize(members, from + 1);
      if from as byte in members {
        assert AtLeast(members, from) == AtLeast(members, from + 1) + {from as byte};
      } else {
        assert AtLeast(members, from) == AtLeast(members, from + 1);
      }
    }
  }

  lemma ComplementSize(chars: seq<byte>)
    ensures |ComplementOf(chars)| + |Elements(chars)| == N_CHARS
  {
    OutsideSize(Elements(chars), 0);
    assert Elements(chars) == AtLeast(Elements(chars), 0);
  }

  /** The walk of s has returned `seen` and has the rest of `all` to come. */
  ghost predicate Taken(s: SpecList, seen: seq<byte>, all: seq<byte>)
    reads s
  {
    s.Walkable() && all == seen + s.View().Chars()
  }

  lemma TakenAtStart(s: SpecList)
    requires ValidList(s.elems) && s.state == BEGIN_STATE
    ensures Taken(s, [], Expand(s.elems))
  {
  }

  /** One call of the generator moves one byte from what is still to come to what has been seen. */
  method Take(s: SpecList, ghost seen: seq<byte>, ghost all: seq<byte>) returns (item: Item, ghost seen': seq<byte>)
    requires Taken(s, seen, all)
    modifies s`tail, s`state
    ensures Taken(s, seen', all) && s.state != BEGIN_STATE
    ensures if item.End? then seen' == seen == all else seen' == seen + [item.c] && |seen| < |all|
  {
    hide Next, Place, Expand;
    NextChars(s.View());
    item := s.GetNext();
    ghost var rest := s.View().Chars();
    seen' := seen;
    if item.Char? {
      seen' := seen + [item.c];
      assert seen + ([item.c] + rest) == (seen + [item.c]) + rest;
    }
  }

  method CardOfComplement(s: SpecList) returns (cardinality: nat)
    requires ValidList(s.elems)
    modifies s`tail, s`state
    ensures cardinality == |ComplementOf(Expand(s.elems))|
  {
    hide Expand, Outside, Taken;
    var inSet := new bool[N_CHARS](_ => false);
    s.state := BEGIN_STATE;
    TakenAtStart(s);
    ghost var all, seen, members: set<byte> := Expand(s.elems), [], {};
    var card := N_CHARS;
    while true
      invariant Taken(s, seen, all) && members == Elements(seen)
      invariant forall c: byte :: inSet[c] <==> c in members
      invariant card + |members| == N_CHARS
      decreases |all| - |seen|
    {
      var item;
      item, seen := Take(s, seen, all);
      if item.End? {
        break;
      }
      ElementsBound(seen);
      assert Elements(seen) == members + {item.c};
      card := card - (if inSet[item.c] then 0 else 1);
      inSet[item.c] := true;
      members := members + {item.c};
    }
    ComplementSize(all);
    return card;
  }

  lemma ElementsBound(chars: seq<byte>)
    ensures |Elements(chars)| <= N_CHARS
  {
    ComplementSize(chars);
  }

  // ----- which pairs of sets are accepted, and what set 2 becomes -----

  /** The index of the indefinite repeat of a list that has one. */
  function IndefiniteAt(es: seq<Construct>): (i: nat)
    requires CountIndefinite(es) == 1
    ensures i < |es| && IsIndefinite(es[i])
    ensures forall j :: 0 <= j < |es| && IsIndefinite(es[j]) ==> j == i
  {
    NoIndefinite(es[1..]);
    assert forall j :: 0 < j < |es| ==> es[j] == es[1..][j - 1];
    if IsIndefinite(es[0]) then 0 else 1 + IndefiniteAt(es[1..])
  }

  /** The length of set 1 as far as translation is concerned. */
  function Length1(es1: seq<Construct>, complement: bool): nat
    requires ValidList(es1)
  {
    if complement then |ComplementOf(Expand(es1))| else |Expand(es1)|
  }

  /** Set 2 with its one `[c*]`, if any, stretched so that its length is n; unless it is longer already. */
  function Resolved(es2: seq<Construct>, n: nat): (r: seq<Construct>)
    requires ValidList(es2) && n <= REPEAT_COUNT_MAXIMUM
    ensures ValidList(r)
  {
    if CountIndefinite(es2) == 1 && n >= |Expand(es2)| then
      var i := IndefiniteAt(es2);
      es2[i := Repeated(es2[i].c, n - |Expand(es2)|)]
    else es2
  }

  /** The byte by which a construct is continued. */
  function LastByte(e: Construct): byte
    requires !e.Class?
  {
    match e
    case NormalChar(c) => c
    case Range(_, last) => last
    case EquivClass(c) => c
    case Repeated(c, _) => c
  }

  /** Set 2 as translation uses it: stretched, and without --truncate-set1 continued to the length of set 1. */
  function Prepared(es2: seq<Construct>, n: nat, truncate: bool): (r: seq<Construct>)
    requires ValidList(es2) && n <= REPEAT_COUNT_MAXIMUM
    requires Extensible(Resolved(es2, n), n, truncate)
    ensures ValidList(r)
  {
    var r := Resolved(es2, n);
    if |Expand(r)| < n && !truncate then r + [Repeated(LastByte(r[|r| - 1]), n - |Expand(r)|)] else r
  }

  predicate Extensible(r: seq<Construct>, n: nat, truncate: bool)
    requires ValidList(r)
  {
    |Expand(r)| < n && !truncate ==> r != [] && Expand(r) != [] && !r[|r| - 1].Class?
  }

  /** At least one byte, and only one distinct byte. */
  predicate Homogeneous(chars: seq<byte>) {
    chars != [] && forall k :: 0 <= k < |chars| ==> chars[k] == chars[0]
  }

  /** Set 1 is accepted. */
  predicate Acceptable1(es1: seq<Construct>)
    requires ValidList(es1)
  {
    |Expand(es1)| <= REPEAT_COUNT_MAXIMUM && CountIndefinite(es1) == 0
  }

  /** Two sets are accepted for translation. */
  predicate Acceptable2(es1: seq<Construct>, es2: seq<Construct>, complement: bool, truncate: bool)
    requires ValidList(es1) && ValidList(es2)
  {
    var n := Length1(es1, complement);
    && Acceptable1(es1) && n <= REPEAT_COUNT_MAXIMUM
    && |Expand(es2)| <= REPEAT_COUNT_MAXIMUM && CountIndefinite(es2) <= 1
    && !HasEquivClass(es2) && !HasRestrictedCharClass(es2)
    && (complement || !HasCharClass(es2) || TrAlign.Align(Start(es1), Start(Resolved(es2, n))).Aligned?)
    && Extensible(Resolved(es2, n), n, truncate)
    && (complement && HasCharClass(es1) ==>
          var chars := Expand(Prepared(es2, n, truncate));
          |chars| == n && Homogeneous(chars))
  }

  lemma {:induction false} ExpandUpdate(es: seq<Construct>, i: nat, e: Construct)
    requires ValidList(es) && i < |es| && IsIndefinite(es[i]) && ValidConstruct(e)
    ensures |Expand(es[i := e])| == |Expand(es)| + |Expand1(e)|
  {
    hide Expand1;
    var es' := es[i := e];
    if i == 0 {
      assert es'[1..] == es[1..];
      IndefiniteIsEmpty(es[0]);
    } else {
      assert es'[1..] == es[1..][i - 1 := e];
      ExpandUpdate(es[1..], i - 1, e);
    }
  }

  lemma IndefiniteIsEmpty(e: Construct)
    requires IsIndefinite(e)
    ensures ValidConstruct(e) && Expand1(e) == []
  {
  }

  /** A stretched set 2 has the length of set 1. */
  lemma ResolvedLength(es2: seq<Construct>, n: nat)
    requires ValidList(es2) && n <= REPEAT_COUNT_MAXIMUM
    ensures |Expand(Resolved(es2, n))|
         == if CountIndefinite(es2) == 1 && n >= |Expand(es2)| then n else |Expand(es2)|
  {
    hide CountIndefinite, Expand;
    if CountIndefinite(es2) == 1 && n >= |Expand(es2)| {
      var i := IndefiniteAt(es2);
      ExpandUpdate(es2, i, Repeated(es2[i].c, n - |Expand(es2)|));
    }
  }

  lemma ExpandSingle(e: Construct)
    requires ValidConstruct(e)
    ensures Expand([e]) == Expand1(e)
  {
  }

  /** A continued set 2 is set 2 followed by copies of the last byte of its expansion. */
  lemma PreparedExpansion(es2: seq<Construct>, n: nat, truncate: bool)
    requires ValidList(es2) && n <= REPEAT_COUNT_MAXIMUM && CountIndefinite(es2) <= 1
    requires Extensible(Resolved(es2, n), n, truncate)
    ensures var chars := Expand(Resolved(es2, n));
      Expand(Prepared(es2, n, truncate)) ==
        if |chars| < n && !truncate then chars + Copies(chars[|chars| - 1], n - |chars|) else chars
  {
    hide Expand, CountIndefinite, Copies;
    var r := Resolved(es2, n);
    var chars := Expand(r);
    if |chars| < n && !truncate {
      ResolvedLength(es2, n);
      assert CountIndefinite(es2) == 0;
      NoIndefinite(es2);
      var e := r[|r| - 1];
      var pad := Repeated(LastByte(e), n - |chars|);
      ExpandAppend(r, [pad]);
      ExpandSingle(pad);
      assert r[..|r| - 1] + [e] == r;
      ExpandAppend(r[..|r| - 1], [e]);
      ExpandSingle(e);
      LastByteIsLast(e);
    }
  }

  lemma LastByteIsLast(e: Construct)
    requires ValidConstruct(e) && !e.Class? && !IsIndefinite(e)
    ensures var x := Expand1(e); x != [] && x[|x| - 1] == LastByte(e)
  {
  }

  // ----- the checks as the program makes them -----

  method GetS1SpecStats(s1: SpecList, complement: bool) returns (ok: bool)
    requires ValidList(s1.elems)
    modifies s1`length, s1`nIndefinite, s1`indefinite, s1`hasEquivClass, s1`hasCharClass, s1`hasRestrictedCharClass
    modifies s1`tail, s1`state
    ensures ok <==> |Expand(s1.elems)| <= REPEAT_COUNT_MAXIMUM
    ensures ok ==> s1.length == Length1(s1.elems, complement) && s1.nIndefinite == CountIndefinite(s1.elems)
    ensures ok ==> s1.hasCharClass == HasCharClass(s1.elems)
  {
    hide Expand, CountIndefinite;
    ok := GetSpecStats(s1);
    if ok && complement {
      s1.length := CardOfComplement(s1);
    }
  }

  method GetS2SpecStats(s2: SpecList, lenS1: nat) returns (ok: bool)
    requires ValidList(s2.elems) && lenS1 <= REPEAT_COUNT_MAXIMUM
    modifies s2`length, s2`nIndefinite, s2`indefinite, s2`hasEquivClass, s2`hasCharClass, s2`hasRestrictedCharClass
    modifies s2`elems
    ensures ok <==> |Expand(old(s2.elems))| <= REPEAT_COUNT_MAXIMUM
    ensures ok ==> s2.elems == Resolved(old(s2.elems), lenS1) && s2.length == |Expand(s2.elems)|
    ensures ok ==> s2.nIndefinite == CountIndefinite(old(s2.elems))
    ensures ok ==> s2.hasEquivClass == HasEquivClass(old(s2.elems))
    ensures ok ==> s2.hasCharClass == HasCharClass(old(s2.elems)) == HasCharClass(s2.elems)
    ensures ok ==> s2.hasRestrictedCharClass == HasRestrictedCharClass(old(s2.elems))
    ensures |s2.elems| == old(|s2.elems|) && ValidList(s2.elems)
  {
    hide Expand, CountIndefinite;
    ok := GetSpecStats(s2);
    if ok {
      ResolvedLength(s2.elems, lenS1);
      if lenS1 >= s2.length && s2.nIndefinite == 1 {
        var i := s2.indefinite;
        assert i == IndefiniteAt(s2.elems);
        s2.elems := s2.elems[i := Repeated(s2.elems[i].c, lenS1 - s2.length)];
        s2.length := lenS1;
        ghost var es := old(s2.elems);
        assert forall j :: 0 <= j < |es| ==> (s2.elems[j].Class? <==> es[j].Class?);
      }
    }
  }

  /** Appends copies of the last byte of set 2; false stands for the exit because set 2 ends with a class. */
  method String2Extend(s1: SpecList, s2: SpecList) returns (ok: bool)
    requires s1 != s2 && s1.length > s2.length > 0 && s1.length <= REPEAT_COUNT_MAXIMUM
    requires ValidList(s2.elems) && s2.elems != [] && s2.tail == |s2.elems| && !HasEquivClass(s2.elems)
    modifies s2`elems, s2`tail, s2`length
    ensures ok <==> !old(s2.elems)[|old(s2.elems)| - 1].Class?
    ensures ok ==> s2.length == s1.length && ValidList(s2.elems)
    ensures ok ==> var es := old(s2.elems);
      s2.elems == es + [Repeated(LastByte(es[|es| - 1]), s1.length - old(s2.length))]
  {
    var c: byte;
    match s2.elems[s2.tail - 1] {
      case NormalChar(b) => c := b;
      case Range(_, last) => c := last;
      case Class(_) => return false;
      case Repeated(b, _) => c := b;
      case EquivClass(_) => assert false;
    }
    s2.Append(Repeated(c, s1.length - s2.length));
    s2.length := s1.length;
    ok := true;
  }

  method HomogeneousSpecList(s: SpecList) returns (yes: bool)
    requires ValidList(s.elems)
    modifies s`tail, s`state
    ensures yes <==> Homogeneous(Expand(s.elems))
  {
    hide Expand, Taken;
    s.state := BEGIN_STATE;
    TakenAtStart(s);
    ghost var all, seen := Expand(s.elems), [];
    var first;
    first, seen := Take(s, seen, all);
    if first.End? {
      return false;
    }
    assert all[0] == first.c by { TakenIsPrefix(s, seen, all); }
    while true
      invariant Taken(s, seen, all) && seen != [] && seen[0] == first.c == all[0] && Homogeneous(seen)
      decreases |all| - |seen|
    {
      var item;
      item, seen := Take(s, seen, all);
      if item.End? {
        break;
      }
      if item.c != first.c {
        TakenIsPrefix(s, seen, all);
        assert all[|seen| - 1] != all[0];
        return false;
      }
    }
    yes := true;
  }

  lemma TakenIsPrefix(s: SpecList, seen: seq<byte>, all: seq<byte>)
    requires Taken(s, seen, all)
    ensures seen <= all
  {
  }

  lemma EmptyList()
    ensures Expand([]) == []
  {
  }

  lemma ResolvedKeepsEquiv(es2: seq<Construct>, n: nat)
    requires ValidList(es2) && n <= REPEAT_COUNT_MAXIMUM && !HasEquivClass(es2)
    ensures !HasEquivClass(Resolved(es2, n))
  {
  }

  /** The checks for one set. */
  method ValidateOne(s1: SpecList, complement: bool) returns (ok: bool)
    requires ValidList(s1.elems)
    modifies s1
    ensures s1.elems == old(s1.elems)
    ensures ok <==> Acceptable1(s1.elems)
    ensures ok ==> s1.length == Length1(s1.elems, complement) && s1.hasCharClass == HasCharClass(s1.elems)
  {
    ok := GetS1SpecStats(s1, complement);
    ok := ok && s1.nIndefinite == 0;
  }

  /** The checks for two sets when translating; set 2 is left as translation needs it.  False stands for the
      exits with a diagnostic. */
  method Validate(s1: SpecList, s2: SpecList, complement: bool, truncate: bool) returns (ok: bool)
    requires s1 != s2 && ValidList(s1.elems) && ValidList(s2.elems) && s2.tail == |s2.elems|
    modifies s1, s2
    ensures s1.elems == old(s1.elems)
    ensures ok <==> Acceptable2(s1.elems, old(s2.elems), complement, truncate)
    ensures ok ==> s2.elems == Prepared(old(s2.elems), Length1(s1.elems, complement), truncate)
  {
    hide Expand, CountIndefinite, TrAlign.Align, ComplementOf, Homogeneous;
    ghost var es2 := s2.elems;
    ok := ValidateOne(s1, complement);
    if !ok {
      return;
    }
    ghost var n := s1.length;
    if complement {
      ComplementSize(Expand(s1.elems));
    }
    ok := GetS2SpecStats(s2, s1.length);
    if !ok || s2.nIndefinite > 1 || s2.hasEquivClass || s2.hasRestrictedCharClass {
      return false;
    }
    ghost var r := s2.elems;
    EmptyList();
    ok := TrAlign.ValidateCaseClasses(s1, s2, complement);
    if !ok {
      return;
    }
    if s1.length > s2.length && !truncate {
      if s2.length == 0 {
        return false;
      }
      assert !HasEquivClass(r) by { ResolvedKeepsEquiv(es2, n); }
      ok := String2Extend(s1, s2);
      if !ok {
        return;
      }
    }
    if complement && s1.hasCharClass {
      PreparedExpansion(es2, n, truncate);
      var one := HomogeneousSpecList(s2);
      ok := s2.length == s1.length && one;
    }
  }
}
