/** The set specifications of `tr`: constructs, their expansion, and the resumable walk over them. */
module TrSpec {
  import opened Streams

  const N_CHARS: nat := 256
  const UINTMAX_MAX: nat := 0xFFFF_FFFF_FFFF_FFFF
  const BEGIN_STATE: nat := UINTMAX_MAX - 1
  const NEW_ELEMENT: nat := BEGIN_STATE + 1
  const REPEAT_COUNT_MAXIMUM: nat := BEGIN_STATE

  // ----- character classes of the C locale -----

  datatype CharClass =
    | Alnum | Alpha | Blank | Cntrl | Digit | Graph | Lower | Print | Punct | Space | Upper | Xdigit

  predicate IsLower(c: byte) { 97 <= c <= 122 }
  predicate IsUpper(c: byte) { 65 <= c <= 90 }
  predicate IsDigit(c: byte) { 48 <= c <= 57 }
  predicate IsAlnum(c: byte) { IsLower(c) || IsUpper(c) || IsDigit(c) }

  predicate IsMember(cls: CharClass, c: byte) {
    match cls
    case Alnum => IsAlnum(c)
    case Alpha => IsLower(c) || IsUpper(c)
    case Blank => c == 9 || c == 32
    case Cntrl => c < 32 || c == 127
    case Digit => IsDigit(c)
    case Graph => 33 <= c <= 126
    case Lower => IsLower(c)
    case Print => 32 <= c <= 126
    case Punct => 33 <= c <= 126 && !IsAlnum(c)
    case Space => 9 <= c <= 13 || c == 32
    case Upper => IsUpper(c)
    case Xdigit => IsDigit(c) || 65 <= c <= 70 || 97 <= c <= 102
  }

  function ToUpper(c: byte): byte { if IsLower(c) then c - 32 else c }
  function ToLower(c: byte): byte { if IsUpper(c) then c + 32 else c }

  /** The members of a class that are at least `from`, in ascending order. */
  function MembersFrom(cls: CharClass, from: nat): (ms: seq<byte>)
    requires from <= N_CHARS
    ensures |ms| <= N_CHARS - from
    ensures forall k :: 0 <= k < |ms| ==> from <= ms[k] && IsMember(cls, ms[k])
    decreases N_CHARS - from, cls
  {
    if from == N_CHARS then []
    else (if IsMember(cls, from) then [from] else []) + MembersFrom(cls, from + 1)
  }

  /** Positions without members contribute nothing. */
  lemma {:induction false} MembersSkip(cls: CharClass, from: nat, to: nat)
    requires from <= to <= N_CHARS
    requires forall c: byte :: from <= c < to ==> !IsMember(cls, c)
    ensures MembersFrom(cls, from) == MembersFrom(cls, to)
    decreases N_CHARS - from
  {
    if from < to {
      var c: byte := from;
      assert !IsMember(cls, c);
      MembersSkip(cls, from + 1, to);
    }
  }

  function FirstMember(cls: CharClass): byte {
    match cls
    case Alnum => 48
    case Alpha => 65
    case Blank => 9
    case Cntrl => 0
    case Digit => 48
    case Graph => 33
    case Lower => 97
    case Print => 32
    case Punct => 33
    case Space => 9
    case Upper => 65
    case Xdigit => 48
  }

  lemma ClassIsNotEmpty(cls: CharClass)
    ensures IsMember(cls, FirstMember(cls))
    ensures MembersFrom(cls, 0) == MembersFrom(cls, FirstMember(cls)) != []
  {
    hide MembersFrom;
    MembersSkip(cls, 0, FirstMember(cls));
    MembersHead(cls, FirstMember(cls));
  }

  // ----- constructs and their expansion -----

  datatype Construct =
    | NormalChar(c: byte)
    | Range(first: byte, last: byte)
    | Class(cls: CharClass)
    | EquivClass(c: byte)
    | Repeated(c: byte, count: nat)

  /** Which of the two case classes a construct is. */
  datatype Case = LowerCase | UpperCase | NoCase

  predicate ValidConstruct(e: Construct) {
    && (e.Range? ==> e.first <= e.last)
    && (e.Repeated? ==> e.count <= REPEAT_COUNT_MAXIMUM)
  }

  predicate ValidList(es: seq<Construct>) {
    forall i :: 0 <= i < |es| ==> ValidConstruct(es[i])
  }

  function CaseOf(e: Construct): Case {
    if e == Class(Lower) then LowerCase else if e == Class(Upper) then UpperCase else NoCase
  }

  function Ascending(first: byte, last: byte): seq<byte>
    requires first <= last
  {
    seq(last - first + 1, k requires 0 <= k <= last - first => (first + k) as byte)
  }

  function Copies(c: byte, n: nat): seq<byte> {
    seq(n, _ => c)
  }

  function Expand1(e: Construct): seq<byte>
    requires ValidConstruct(e)
  {
    match e
    case NormalChar(c) => [c]
    case Range(first, last) => Ascending(first, last)
    case Class(cls) => MembersFrom(cls, 0)
    case EquivClass(c) => [c]
    case Repeated(c, n) => Copies(c, n)
  }

  /** The string of bytes that a specification stands for. */
  function Expand(es: seq<Construct>): seq<byte>
    requires ValidList(es)
  {
    if es == [] then [] else Expand1(es[0]) + Expand(es[1..])
  }

  lemma {:induction false} ExpandAppend(a: seq<Construct>, b: seq<Construct>)
    requires ValidList(a) && ValidList(b)
    ensures ValidList(a + b) && Expand(a + b) == Expand(a) + Expand(b)
  {
    if a == [] {
      assert a + b == b;
    } else {
      assert (a + b)[1..] == a[1..] + b;
      ExpandAppend(a[1..], b);
      var x, y, z := Expand1(a[0]), Expand(a[1..]), Expand(b);
      assert x + (y + z) == (x + y) + z;
    }
  }

  // ----- the walk, as a value -----

  /** A place in a walk: what is left of the construct being walked, its case, and the constructs after it. */
  datatype Cursor = Cursor(current: seq<byte>, kind: Case, rest: seq<Construct>) {
    predicate Valid() {
      ValidList(rest) && (current == [] ==> kind == NoCase)
    }

    /** The bytes still to be returned. */
    function Chars(): seq<byte>
      requires Valid()
    {
      current + Expand(rest)
    }
  }

  datatype Item = End | Char(c: byte, kind: Case) {
    function Kind(): Case {
      if End? then NoCase else kind
    }
  }

  function Start(es: seq<Construct>): Cursor {
    Cursor([], NoCase, es)
  }

  function At(current: seq<byte>, kind: Case, rest: seq<Construct>): Cursor {
    Cursor(current, if current == [] then NoCase else kind, rest)
  }

  /** One step of the walk. */
  function Next(p: Cursor): (r: (Item, Cursor))
    requires p.Valid()
    ensures r.1.Valid() && (r.0.End? ==> r.1 == Start([]))
    decreases |p.rest|
  {
    if p.current != [] then
      (Char(p.current[0], p.kind), At(p.current[1..], p.kind, p.rest))
    else if p.rest == [] then
      (End, Start([]))
    else
      var x := Expand1(p.rest[0]);
      if x == [] then Next(Start(p.rest[1..]))
      else (Char(x[0], CaseOf(p.rest[0])), At(x[1..], CaseOf(p.rest[0]), p.rest[1..]))
  }

  /** A step returns the first byte still to come, and ends exactly when there is none. */
  lemma {:induction false} NextChars(p: Cursor)
    requires p.Valid()
    ensures var (item, q) := Next(p);
      if item.End? then p.Chars() == q.Chars() == [] else p.Chars() == [item.c] + q.Chars()
    decreases |p.rest|
  {
    hide Expand1;
    if p.current != [] {
      var c, cs, later := p.current[0], p.current[1..], Expand(p.rest);
      assert p.current == [c] + cs;
      assert ([c] + cs) + later == [c] + (cs + later);
    } else if p.rest != [] {
      var x, later := Expand1(p.rest[0]), Expand(p.rest[1..]);
      if x == [] {
        NextChars(Start(p.rest[1..]));
      } else {
        assert x == [x[0]] + x[1..];
        assert ([x[0]] + x[1..]) + later == [x[0]] + (x[1..] + later);
      }
    }
  }

  /** The place after the construct being walked. */
  function Skip(p: Cursor): (q: Cursor)
    requires p.Valid()
    ensures q.Valid()
  {
    if p.current != [] || p.rest == [] then Start(p.rest) else Start(p.rest[1..])
  }

  /** What successive calls return before the first End. */
  function Walk(p: Cursor): seq<byte>
    requires p.Valid()
    decreases |p.Chars()|
  {
    NextChars(p);
    var (item, q) := Next(p);
    if item.End? then [] else [item.c] + Walk(q)
  }

  /** Successive steps return exactly the expansion; after it every further step returns End. */
  lemma {:induction false} WalkIsExpansion(p: Cursor)
    requires p.Valid()
    ensures Walk(p) == p.Chars()
    ensures p.Chars() == [] ==> Next(Next(p).1) == (End, Next(p).1)
    decreases |p.Chars()|
  {
    hide Expand1;
    NextChars(p);
    var (item, q) := Next(p);
    if item.Char? {
      WalkIsExpansion(q);
    }
  }

  // ----- the walk, as the resumable generator -----

  /** What is left of a construct whose walk stopped in the middle with the given saved state. */
  function Pending(e: Construct, state: nat): seq<byte>
    requires Paused(e, state)
  {
    match e
    case Range(first, last) => Ascending(state + 1, last)
    case Class(cls) => MembersFrom(cls, state)
    case Repeated(c, n) => Copies(c, n - state)
  }

  /** The saved states in which a construct can be left half-walked; neither sentinel is one of them. */
  predicate Paused(e: Construct, state: nat) {
    match e
    case NormalChar(_) => false
    case Range(first, last) => first <= state < last
    case Class(cls) => state < N_CHARS && IsMember(cls, state)
    case EquivClass(_) => false
    case Repeated(_, n) => 1 <= state < n <= REPEAT_COUNT_MAXIMUM
  }

  /** A repeat count can be walked without the saved counter meeting a sentinel exactly when it does not
      exceed the maximum. */
  lemma CounterMeetsSentinel(n: nat)
    ensures (exists state :: 1 <= state < n && IsSentinel(state)) <==> n > REPEAT_COUNT_MAXIMUM
  {
    assert IsSentinel(BEGIN_STATE);
  }

  predicate IsSentinel(state: nat) {
    state == BEGIN_STATE || state == NEW_ELEMENT
  }

  /** The place that a tail and a saved state stand for. */
  function Place(es: seq<Construct>, tail: nat, state: nat): (p: Cursor)
    requires Resumable(es, tail, state)
    ensures p.Valid()
  {
    if state == BEGIN_STATE then Start(es)
    else if tail == |es| + 1 then Start([])
    else if state == NEW_ELEMENT then Start(es[tail - 1..])
    else At(Pending(es[tail - 1], state), CaseOf(es[tail - 1]), es[tail..])
  }

  predicate Resumable(es: seq<Construct>, tail: nat, state: nat) {
    && ValidList(es)
    && (state == BEGIN_STATE ||
        (1 <= tail <= |es| + 1 &&
         (state == NEW_ELEMENT || (tail <= |es| && Paused(es[tail - 1], state)))))
  }

  /** A construct met for the first time: its first byte is returned, or it is passed if it has none. */
  lemma EnterConstruct(es: seq<Construct>, tail: nat)
    requires ValidList(es) && 1 <= tail <= |es|
    ensures var e := es[tail - 1];
      var x := Expand1(e);
      Next(Place(es, tail, NEW_ELEMENT)) ==
        if x == [] then Next(Place(es, tail + 1, NEW_ELEMENT))
        else (Char(x[0], CaseOf(e)), At(x[1..], CaseOf(e), es[tail..]))
  {
  }

  /** A construct for one byte is left as soon as it is entered. */
  lemma EnterSingle(es: seq<Construct>, tail: nat, state: nat, c: byte)
    requires Resumable(es, tail, state) && state != BEGIN_STATE && tail <= |es|
    requires es[tail - 1] == NormalChar(c) || es[tail - 1] == EquivClass(c)
    ensures Resumable(es, tail + 1, NEW_ELEMENT) && Place(es, tail + 1, NEW_ELEMENT).current == []
    ensures Next(Place(es, tail, state)) == (Char(c, NoCase), Place(es, tail + 1, NEW_ELEMENT))
  {
  }

  lemma NextAtEnd(es: seq<Construct>)
    requires ValidList(es)
    ensures Next(Place(es, |es| + 1, NEW_ELEMENT)) == (End, Place(es, |es| + 1, NEW_ELEMENT))
  {
  }

  /** A construct left half-walked goes on with what is pending. */
  lemma ResumeConstruct(es: seq<Construct>, tail: nat, state: nat)
    requires Resumable(es, tail, state) && !IsSentinel(state)
    ensures var e := es[tail - 1];
      var x := Pending(e, state);
      x != [] ==> Next(Place(es, tail, state)) == (Char(x[0], CaseOf(e)), At(x[1..], CaseOf(e), es[tail..]))
  {
  }

  lemma AscendingTail(first: byte, last: byte)
    requires first <= last
    ensures Ascending(first, last)[0] == first
    ensures Ascending(first, last)[1..] == if first == last then [] else Ascending(first + 1, last)
  {
  }

  lemma CopiesTail(c: byte, n: nat)
    requires n > 0
    ensures Copies(c, n)[1..] == Copies(c, n - 1)
  {
  }

  /** The least member of a class that is at least `from`, or N_CHARS. */
  method NextMember(cls: CharClass, from: nat) returns (i: nat)
    requires from <= N_CHARS
    ensures from <= i <= N_CHARS && (i < N_CHARS ==> IsMember(cls, i))
    ensures MembersFrom(cls, from) == MembersFrom(cls, i)
    ensures MembersFrom(cls, i) == [] <==> i == N_CHARS
  {
    i := from;
    while i < N_CHARS && !IsMember(cls, i)
      invariant from <= i <= N_CHARS
      invariant MembersFrom(cls, from) == MembersFrom(cls, i)
    {
      i := i + 1;
    }
  }

  lemma MembersHead(cls: CharClass, c: byte)
    requires IsMember(cls, c)
    ensures var ms := MembersFrom(cls, c);
      ms != [] && ms[0] == c && ms[1..] == MembersFrom(cls, c + 1)
  {
  }

  class SpecList {
    var elems: seq<Construct>
    // Node 0 is the dummy head, node k > 0 is elems[k - 1], node |elems| + 1 stands for a null pointer.
    var tail: nat
    var state: nat
    var length: nat
    var nIndefinite: nat
    var indefinite: nat
    var hasEquivClass: bool
    var hasCharClass: bool
    var hasRestrictedCharClass: bool

    constructor ()
      ensures elems == [] && tail == 0
    {
      elems, tail, state, length := [], 0, NEW_ELEMENT, 0;
      nIndefinite, indefinite := 0, 0;
      hasEquivClass, hasCharClass, hasRestrictedCharClass := false, false, false;
    }

    /** The list can be walked from its saved state. */
    ghost predicate Walkable()
      reads this
    {
      Resumable(elems, tail, state)
    }

    /** The place that the saved state stands for. */
    ghost function View(): (p: Cursor)
      requires Walkable()
      reads this
      ensures p.Valid()
    {
      Place(elems, tail, state)
    }

    /** Appends a construct; while the list is being built, tail is its last node. */
    method Append(e: Construct)
      requires tail == |elems|
      modifies this`elems, this`tail
      ensures elems == old(elems) + [e] && tail == |elems|
    {
      elems := elems + [e];
      tail := tail + 1;
    }

    /** The next byte of the expansion and the case class it came from, or End. */
    method GetNext() returns (item: Item)
      requires Walkable()
      modifies this`tail, this`state
      ensures Walkable() && state != BEGIN_STATE
      ensures (item, View()) == Next(old(View()))
      ensures state == NEW_ELEMENT <==> View().current == []
      decreases if state == BEGIN_STATE then |elems| + 1 else |elems| + 1 - tail
    {
      hide Next, Expand, MembersFrom, Ascending;
      if state == BEGIN_STATE {
        tail, state := 1, NEW_ELEMENT;
        assert elems[0..] == elems;
      }
      if tail == |elems| + 1 {
        NextAtEnd(elems);
        return End;
      }
      match elems[tail - 1] {
        case NormalChar(c) =>
          item := NextOfSingle(c);
        case Range(first, last) =>
          item := NextOfRange(first, last);
        case Class(cls) =>
          item := NextOfClass(cls);
        case EquivClass(c) =>
          item := NextOfSingle(c);
        case Repeated(c, n) =>
          if n == 0 {
            EnterConstruct(elems, tail);
            tail, state := tail + 1, NEW_ELEMENT;
            item := GetNext();
          } else {
            item := NextOfRepeat(c, n);
          }
      }
    }

    /** The walk of a construct that stands for one byte. */
    method NextOfSingle(c: byte) returns (item: Item)
      requires Walkable() && state != BEGIN_STATE && tail <= |elems|
      requires elems[tail - 1] == NormalChar(c) || elems[tail - 1] == EquivClass(c)
      modifies this`tail, this`state
      ensures Walkable() && state == NEW_ELEMENT
      ensures (item, View()) == Next(old(View())) && View().current == []
    {
      hide Next, Expand, Expand1, Place;
      EnterSingle(elems, tail, state, c);
      item := Char(c, NoCase);
      tail, state := tail + 1, NEW_ELEMENT;
    }

    /** The walk of a range: the saved state is the byte last returned. */
    method NextOfRange(first: byte, last: byte) returns (item: Item)
      requires Walkable() && state != BEGIN_STATE && tail <= |elems| && elems[tail - 1] == Range(first, last)
      modifies this`tail, this`state
      ensures Walkable() && state != BEGIN_STATE
      ensures (item, View()) == Next(old(View()))
      ensures state == NEW_ELEMENT <==> View().current == []
    {
      hide Next, Expand;
      if state == NEW_ELEMENT {
        EnterConstruct(elems, tail);
        state := first;
      } else {
        ResumeConstruct(elems, tail, state);
        state := state + 1;
      }
      AscendingTail(state, last);
      item := Char(state, NoCase);
      if state == last {
        tail, state := tail + 1, NEW_ELEMENT;
      }
    }

    /** The walk of a repeat construct: the saved state counts the copies returned. */
    method NextOfRepeat(c: byte, n: nat) returns (item: Item)
      requires Walkable() && state != BEGIN_STATE && tail <= |elems| && elems[tail - 1] == Repeated(c, n) && n > 0
      modifies this`tail, this`state
      ensures Walkable() && state != BEGIN_STATE
      ensures (item, View()) == Next(old(View()))
      ensures state == NEW_ELEMENT <==> View().current == []
    {
      hide Next, Expand;
      if state == NEW_ELEMENT {
        EnterConstruct(elems, tail);
        state := 0;
      } else {
        ResumeConstruct(elems, tail, state);
      }
      CopiesTail(c, n - state);
      state := state + 1;
      item := Char(c, NoCase);
      if state == n {
        tail, state := tail + 1, NEW_ELEMENT;
      }
    }

    /** The walk of a character class: the saved state is the member to return next. */
    method NextOfClass(cls: CharClass) returns (item: Item)
      requires Walkable() && state != BEGIN_STATE && tail <= |elems| && elems[tail - 1] == Class(cls)
      modifies this`tail, this`state
      ensures Walkable() && state != BEGIN_STATE
      ensures (item, View()) == Next(old(View()))
      ensures state == NEW_ELEMENT <==> View().current == []
    {
      hide Next, Expand, IsMember, MembersFrom;
      ClassIsNotEmpty(cls);
      if state == NEW_ELEMENT {
        EnterConstruct(elems, tail);
        state := NextMember(cls, 0);
      } else {
        ResumeConstruct(elems, tail, state);
      }
      MembersHead(cls, state);
      item := Char(state, CaseOf(Class(cls)));
      var i := NextMember(cls, state + 1);
      if i < N_CHARS {
        state := i;
      } else {
        tail, state := tail + 1, NEW_ELEMENT;
      }
    }

    /** Advances past the current construct. */
    method SkipConstruct()
      requires Walkable() && state != BEGIN_STATE && tail <= |elems|
      modifies this`tail, this`state
      ensures Walkable() && state == NEW_ELEMENT && View() == Skip(old(View()))
    {
      tail, state := tail + 1, NEW_ELEMENT;
    }
  }
}
