/** What option scanning means, as one pass over a sequence of arguments. */
module GetoptSpec {
  import opened Streams

  const NON_OPTION_CHAR: char := 1 as char

  /** What to do with an argument that is not an option. */
  datatype Ordering = RequireOrder | Permute | ReturnInOrder

  datatype ArgType = NoArgument | RequiredArgument | OptionalArgument

  datatype WOption = WOption(name: string, argType: ArgType, val: char)

  /** The known options, the markers at the front of the option string taken off. */
  datatype Config = Config(ordering: Ordering, shortopts: string, longopts: seq<WOption>, returnColon: bool)

  /** An option found: its character, its argument, and the index of a long option. */
  datatype Event = Event(c: char, arg: Option<string>, index: Option<nat>)

  /** The character at i, or a null character behind the end. */
  function CharAt(s: string, i: nat): char {
    if i < |s| then s[i] else 0 as char
  }

  /** The first place of c from i on, or the length of the string. */
  function Find(s: string, c: char, i: nat): (k: nat)
    requires i <= |s|
    ensures i <= k <= |s| && (k < |s| ==> s[k] == c) && forall j :: i <= j < k ==> s[j] != c
    decreases |s| - i
  {
    if i == |s| || s[i] == c then i else Find(s, c, i + 1)
  }

  predicate IsOption(arg: string) {
    CharAt(arg, 0) == '-' && |arg| != 1
  }

  // ----- long options -----

  datatype LongOptMatch = Exact(i: nat) | NonExact(i: nat) | Ambiguous | NoMatch

  predicate Abbreviates(longopts: seq<WOption>, key: string, i: nat)
    requires i < |longopts|
  {
    key <= longopts[i].name
  }

  /** What a name stands for: the first option of exactly that name; failing that the only option whose name
      it abbreviates. */
  predicate Matches(longopts: seq<WOption>, key: string, m: LongOptMatch) {
    match m
    case Exact(i) =>
      && i < |longopts| && longopts[i].name == key
      && forall j :: 0 <= j < i ==> longopts[j].name != key
    case NonExact(i) =>
      && i < |longopts| && Abbreviates(longopts, key, i)
      && (forall j :: 0 <= j < |longopts| ==> longopts[j].name != key)
      && forall j :: 0 <= j < |longopts| && Abbreviates(longopts, key, j) ==> j == i
    case Ambiguous =>
      && (forall j :: 0 <= j < |longopts| ==> longopts[j].name != key)
      && exists i, j :: 0 <= i < j < |longopts| && Abbreviates(longopts, key, i) && Abbreviates(longopts, key, j)
    case NoMatch =>
      forall j :: 0 <= j < |longopts| ==> !Abbreviates(longopts, key, j)
  }

  /** There is exactly one answer. */
  lemma MatchIsUnique(longopts: seq<WOption>, key: string, m: LongOptMatch, m': LongOptMatch)
    requires Matches(longopts, key, m) && Matches(longopts, key, m')
    ensures m == m'
  {
    if m.Exact? && m'.NoMatch? {
      assert Abbreviates(longopts, key, m.i);
    }
    if m'.Exact? && m.NoMatch? {
      assert Abbreviates(longopts, key, m'.i);
    }
  }

  ghost function TheMatch(longopts: seq<WOption>, key: string): (m: LongOptMatch)
    ensures Matches(longopts, key, m)
  {
    MatchExists(longopts, key);
    var m :| Matches(longopts, key, m);
    m
  }

  lemma MatchExists(longopts: seq<WOption>, key: string)
    ensures exists m :: Matches(longopts, key, m)
  {
    if exists i :: 0 <= i < |longopts| && longopts[i].name == key {
      var i :| 0 <= i < |longopts| && longopts[i].name == key;
      var m := FirstExact(longopts, key, i);
      assert Matches(longopts, key, Exact(m));
    } else if exists i :: 0 <= i < |longopts| && Abbreviates(longopts, key, i) {
      var i :| 0 <= i < |longopts| && Abbreviates(longopts, key, i);
      if exists j :: 0 <= j < |longopts| && Abbreviates(longopts, key, j) && j != i {
        var j :| 0 <= j < |longopts| && Abbreviates(longopts, key, j) && j != i;
        assert Matches(longopts, key, Ambiguous) by {
          assert i < j || j < i;
        }
      } else {
        assert Matches(longopts, key, NonExact(i));
      }
    } else {
      assert Matches(longopts, key, NoMatch);
    }
  }

  lemma FirstExact(longopts: seq<WOption>, key: string, i: nat) returns (m: nat)
    requires i < |longopts| && longopts[i].name == key
    ensures m <= i && longopts[m].name == key && forall j :: 0 <= j < m ==> longopts[j].name != key
  {
    if j :| 0 <= j < i && longopts[j].name == key {
      m := FirstExact(longopts, key, j);
    } else {
      m := i;
    }
  }

  // ----- one call -----

  /** What one call makes of the text left in the current element: an error, or an option, the text left in
      the element afterwards, and how many elements are finished. */
  datatype Taken = Failed(c: char) | Found(ev: Event, text: string, used: nat)

  /** `text` is what is left of rest[0]. */
  function ShortCall(cfg: Config, text: string, rest: seq<string>): (r: Taken)
    requires text != "" && rest != []
    ensures r.Found? ==> GoesOn(text, rest, r)
  {
    var c, tail := text[0], text[1..];
    var k := Find(cfg.shortopts, c, 0);
    if k == |cfg.shortopts| || c == ':' then Failed('?')
    else if CharAt(cfg.shortopts, k + 1) != ':' then Found(Event(c, None, None), tail, if tail == "" then 1 else 0)
    else if CharAt(cfg.shortopts, k + 2) == ':' then
      Found(Event(c, if tail == "" then None else Some(tail), None), "", 1)
    else if tail != "" then Found(Event(c, Some(tail), None), "", 1)
    else if |rest| == 1 then Failed(if cfg.returnColon then ':' else '?')
    else Found(Event(c, Some(rest[1]), None), "", 2)
  }

  /** A call either leaves less text in the element or finishes it, perhaps together with an argument. */
  predicate GoesOn(text: string, rest: seq<string>, r: Taken)
    requires r.Found?
  {
    r.used <= |rest| && (r.used == 0 <==> r.text != "") && (r.used == 0 ==> |r.text| < |text|)
  }

  function LongFound(cfg: Config, i: nat, text: string, rest: seq<string>): (r: Taken)
    requires rest != [] && i < |cfg.longopts|
    ensures r.Found? ==> GoesOn(text, rest, r)
  {
    var opt, nameEnd := cfg.longopts[i], Find(text, '=', 0);
    if nameEnd < |text| then
      if opt.argType == NoArgument then Failed('?')
      else Found(Event(opt.val, Some(text[nameEnd + 1..]), Some(i)), "", 1)
    else if opt.argType == RequiredArgument then
      if |rest| > 1 then Found(Event(opt.val, Some(rest[1]), Some(i)), "", 2)
      else Failed(if cfg.returnColon then ':' else '?')
    else Found(Event(opt.val, None, Some(i)), "", 1)
  }

  /** None: not a long option after all. */
  ghost function LongCall(cfg: Config, text: string, rest: seq<string>): (r: Option<Taken>)
    requires rest != []
    ensures r.Some? && r.value.Found? ==> GoesOn(text, rest, r.value)
  {
    match TheMatch(cfg.longopts, text[..Find(text, '=', 0)])
    case Exact(i) => Some(LongFound(cfg, i, text, rest))
    case NonExact(i) => Some(LongFound(cfg, i, text, rest))
    case Ambiguous => Some(Failed('?'))
    case NoMatch =>
      if CharAt(rest[0], 1) == '-' || CharAt(text, 0) !in cfg.shortopts then Some(Failed('?')) else None
  }

  predicate TryLong(cfg: Config, arg: string) {
    (CharAt(arg, 0) == '-' && CharAt(arg, 1) == '-') || CharAt(arg, 1) !in cfg.shortopts
  }

  ghost function Call(cfg: Config, text: string, rest: seq<string>): (r: Taken)
    requires text != "" && rest != []
    ensures r.Found? ==> GoesOn(text, rest, r)
  {
    if cfg.longopts != [] && TryLong(cfg, rest[0]) && LongCall(cfg, text, rest).Some? then
      LongCall(cfg, text, rest).value
    else ShortCall(cfg, text, rest)
  }

  /** The text of an option element behind its dash or dashes. */
  function Body(cfg: Config, arg: string): (text: string)
    requires IsOption(arg) && arg != "--"
    ensures text != "" && |text| < |arg|
  {
    if cfg.longopts != [] && CharAt(arg, 1) == '-' then arg[2..] else arg[1..]
  }

  // ----- a whole scan -----

  /** The options found in order, the elements they and a `--` consist of, the other elements, whether there
      was a `--`, and the error that ended the scan. */
  datatype Outcome = Outcome(
    events: seq<Event>, consumed: seq<string>, others: seq<string>, terminated: bool, failure: Option<char>)
  {
    function WithEvent(ev: Event, elements: seq<string>): Outcome {
      this.(events := [ev] + events, consumed := elements + consumed)
    }

    function WithOther(arg: string): Outcome {
      this.(others := [arg] + others)
    }
  }

  /** Scans `rest`; text is what is left of its first element if that has been begun. */
  ghost function Scan(cfg: Config, text: string, rest: seq<string>): Outcome
    requires text != "" ==> rest != []
    decreases |rest|, if text != "" then |text| else if rest == [] then 0 else 1 + |rest[0]|
  {
    if text != "" then
      match Call(cfg, text, rest)
      case Failed(c) => Outcome([], [], rest, false, Some(c))
      case Found(ev, text', used) => Scan(cfg, text', rest[used..]).WithEvent(ev, rest[..used])
    else if rest == [] then Outcome([], [], [], false, None)
    else if rest[0] == "--" then Outcome([], ["--"], rest[1..], true, None)
    else if IsOption(rest[0]) then Scan(cfg, Body(cfg, rest[0]), rest)
    else
      match cfg.ordering
      case RequireOrder => Outcome([], [], rest, false, None)
      case Permute => Scan(cfg, "", rest[1..]).WithOther(rest[0])
      case ReturnInOrder =>
        Scan(cfg, "", rest[1..]).WithEvent(Event(NON_OPTION_CHAR, Some(rest[0]), None), rest[..1])
  }

  // ----- the scan partitions its input -----

  /** s consists of the elements of a and of b, each in their order. */
  predicate Interleaves<T(==)>(s: seq<T>, a: seq<T>, b: seq<T>)
    decreases |s|
  {
    if s == [] then a == [] && b == []
    else
      || (a != [] && a[0] == s[0] && Interleaves(s[1..], a[1..], b))
      || (b != [] && b[0] == s[0] && Interleaves(s[1..], a, b[1..]))
  }

  lemma {:induction false} InterleavesRight<T>(s: seq<T>)
    ensures Interleaves(s, [], s)
  {
    if s != [] {
      InterleavesRight(s[1..]);
    }
  }

  lemma {:induction false} InterleavesPrefix<T>(p: seq<T>, s: seq<T>, a: seq<T>, b: seq<T>)
    requires Interleaves(s, a, b)
    ensures Interleaves(p + s, p + a, b)
    decreases |p|
  {
    if p == [] {
      assert p + s == s && p + a == a;
    } else {
      InterleavesPrefix(p[1..], s, a, b);
      assert (p + s)[1..] == p[1..] + s && (p + a)[1..] == p[1..] + a;
    }
  }

  /** A stable partition: consumed elements and others, each in their original order. */
  lemma {:induction false} ScanPartitions(cfg: Config, text: string, rest: seq<string>)
    requires text != "" ==> rest != []
    ensures Interleaves(rest, Scan(cfg, text, rest).consumed, Scan(cfg, text, rest).others)
    decreases |rest|, if text != "" then |text| else if rest == [] then 0 else 1 + |rest[0]|
  {
    hide Call, Body;
    var out := Scan(cfg, text, rest);
    if text != "" {
      match Call(cfg, text, rest)
      case Failed(_) => InterleavesRight(rest);
      case Found(ev, text', used) =>
        ScanPartitions(cfg, text', rest[used..]);
        var inner := Scan(cfg, text', rest[used..]);
        InterleavesPrefix(rest[..used], rest[used..], inner.consumed, inner.others);
        assert rest[..used] + rest[used..] == rest;
    } else if rest != [] {
      if rest[0] == "--" {
        InterleavesRight(rest[1..]);
        InterleavesPrefix(["--"], rest[1..], [], rest[1..]);
        assert ["--"] + rest[1..] == rest && ["--"] + [] == ["--"];
      } else if IsOption(rest[0]) {
        ScanPartitions(cfg, Body(cfg, rest[0]), rest);
      } else {
        match cfg.ordering
        case RequireOrder => InterleavesRight(rest);
        case Permute =>
          ScanPartitions(cfg, "", rest[1..]);
          var inner := Scan(cfg, "", rest[1..]);
          assert ([rest[0]] + inner.others)[1..] == inner.others;
        case ReturnInOrder =>
          ScanPartitions(cfg, "", rest[1..]);
          var inner := Scan(cfg, "", rest[1..]);
          InterleavesPrefix(rest[..1], rest[1..], inner.consumed, inner.others);
          assert rest[..1] + rest[1..] == rest;
      }
    }
  }

  // ----- scanning the result again -----

  /** Elements that a scan leaves alone when they follow everything it consumed. */
  predicate Inert(cfg: Config, m: seq<string>) {
    match cfg.ordering
    case RequireOrder => m == [] || !IsOption(m[0])
    case Permute => forall k :: 0 <= k < |m| ==> !IsOption(m[k])
    case ReturnInOrder => m == []
  }

  lemma {:induction false} OthersAreInert(cfg: Config, text: string, rest: seq<string>)
    requires text != "" ==> rest != []
    requires Scan(cfg, text, rest).failure == None
    ensures Scan(cfg, text, rest).terminated || Inert(cfg, Scan(cfg, text, rest).others)
    decreases |rest|, if text != "" then |text| else if rest == [] then 0 else 1 + |rest[0]|
  {
    hide Call, Body;
    if text != "" {
      var r := Call(cfg, text, rest);
      OthersAreInert(cfg, r.text, rest[r.used..]);
    } else if rest != [] && rest[0] != "--" {
      if IsOption(rest[0]) {
        OthersAreInert(cfg, Body(cfg, rest[0]), rest);
      } else if cfg.ordering != RequireOrder {
        OthersAreInert(cfg, "", rest[1..]);
      }
    }
  }

  lemma {:induction false} ScanInert(cfg: Config, m: seq<string>)
    requires Inert(cfg, m)
    ensures Scan(cfg, "", m) == Outcome([], [], m, false, None)
  {
    if m != [] && cfg.ordering == Permute {
      assert !IsOption(m[0]);
      ScanInert(cfg, m[1..]);
      assert [m[0]] + m[1..] == m;
    }
  }

  /** A call looks at no element beyond those it finishes. */
  lemma CallIsLocal(cfg: Config, text: string, rest: seq<string>, rest': seq<string>)
    requires text != "" && rest != [] && Call(cfg, text, rest).Found?
    requires var used := Call(cfg, text, rest).used;
      rest' != [] && rest'[0] == rest[0] && (used == 2 ==> |rest'| > 1 && rest'[1] == rest[1])
    ensures Call(cfg, text, rest') == Call(cfg, text, rest)
  {
  }

  /** An element that a scan goes on with is consumed first. */
  lemma {:induction false} BegunIsConsumed(cfg: Config, text: string, rest: seq<string>)
    requires text != "" && rest != [] && Scan(cfg, text, rest).failure == None
    ensures var consumed := Scan(cfg, text, rest).consumed;
      consumed != [] && consumed[0] == rest[0]
    decreases |text|
  {
    hide Call;
    var r := Call(cfg, text, rest);
    if r.used == 0 {
      BegunIsConsumed(cfg, r.text, rest[0..]);
      assert rest[0..] == rest;
    }
  }

  /** Whatever follows the consumed elements and is left alone, the scan finds the same options. */
  lemma {:induction false} Rescan(cfg: Config, text: string, rest: seq<string>, m: seq<string>)
    requires text != "" ==> rest != []
    requires Scan(cfg, text, rest).failure == None
    requires Scan(cfg, text, rest).terminated || Inert(cfg, m)
    ensures Repeats(cfg, text, rest, m)
    decreases |rest|, if text != "" then |text| else if rest == [] then 0 else 1 + |rest[0]|
  {
    hide Call, Body, Inert;
    var again := Scan(cfg, text, rest).consumed + m;
    if text != "" {
      var r := Call(cfg, text, rest);
      Rescan(cfg, r.text, rest[r.used..], m);
      RescanCall(cfg, text, rest, m);
    } else if rest == [] {
      assert again == m;
      ScanInert(cfg, m);
    } else if rest[0] == "--" {
      assert again[1..] == m;
    } else if IsOption(rest[0]) {
      var text' := Body(cfg, rest[0]);
      Rescan(cfg, text', rest, m);
      BegunIsConsumed(cfg, text', rest);
    } else {
      match cfg.ordering
      case RequireOrder =>
        assert again == m;
        ScanInert(cfg, m);
      case Permute =>
        Rescan(cfg, "", rest[1..], m);
      case ReturnInOrder =>
        Rescan(cfg, "", rest[1..], m);
        var inner := Scan(cfg, "", rest[1..]);
        assert again == rest[..1] + (inner.consumed + m);
        assert again[1..] == inner.consumed + m && again[..1] == rest[..1];
    }
  }

  /** The scan of the consumed elements, followed by m, finds what the first scan found and leaves m. */
  ghost predicate Repeats(cfg: Config, text: string, rest: seq<string>, m: seq<string>)
    requires text != "" ==> rest != []
  {
    var out := Scan(cfg, text, rest);
    (text != "" ==> out.consumed + m != []) && Scan(cfg, text, out.consumed + m) == out.(others := m)
  }

  lemma RescanCall(cfg: Config, text: string, rest: seq<string>, m: seq<string>)
    requires text != "" && rest != [] && Scan(cfg, text, rest).failure == None
    requires Call(cfg, text, rest).Found?
    requires var r := Call(cfg, text, rest); Repeats(cfg, r.text, rest[r.used..], m)
    ensures Repeats(cfg, text, rest, m)
  {
    hide Call, Body;
    var out, r := Scan(cfg, text, rest), Call(cfg, text, rest);
    var inner := Scan(cfg, r.text, rest[r.used..]);
    var again := out.consumed + m;
    BegunIsConsumed(cfg, text, rest);
    assert again == rest[..r.used] + (inner.consumed + m);
    assert again[r.used..] == inner.consumed + m && again[..r.used] == rest[..r.used];
    assert r.used == 2 ==> again[1] == rest[..2][1];
    CallIsLocal(cfg, text, rest, again);
  }

  /** Starting again on the rearranged arguments finds the same options, consumes the same elements and
      leaves the same others behind them. */
  lemma ScanIsStable(cfg: Config, args: seq<string>)
    requires Scan(cfg, "", args).failure == None
    ensures var out := Scan(cfg, "", args);
      Scan(cfg, "", out.consumed + out.others) == out
  {
    OthersAreInert(cfg, "", args);
    Rescan(cfg, "", args, Scan(cfg, "", args).others);
  }
}
