/** How options are written: the argument lists that a scan takes, item by item and character by character. */
module GetoptLaws {
  import opened Streams
  import opened GetoptSpec
  import opened Getopt

  // ----- the option string -----

  /** What the characters behind an option's character in the option string say about its argument. */
  function Marked(s: string): ArgType {
    if "::" <= s then OptionalArgument else if ":" <= s then RequiredArgument else NoArgument
  }

  /** What the option string says about c: its first place in it counts. */
  function Kind(s: string, c: char): Option<ArgType> {
    if s == "" || c == ':' then None
    else if s[0] == c then Some(Marked(s[1..]))
    else Kind(s[1..], c)
  }

  lemma {:induction false} KindIsFound(s: string, c: char, i: nat)
    requires i <= |s| && c != ':'
    ensures var k := Find(s, c, i);
      Kind(s[i..], c) == if k == |s| then None else Some(Marked(s[k + 1..]))
    decreases |s| - i
  {
    if i < |s| {
      assert s[i..][1..] == s[i + 1..];
      KindIsFound(s, c, i + 1);
    }
  }

  lemma MarkedByCharacters(s: string, k: nat)
    requires k <= |s|
    ensures Marked(s[k..]) ==
      if CharAt(s, k) != ':' then NoArgument else if CharAt(s, k + 1) == ':' then OptionalArgument else RequiredArgument
  {
    var t := s[k..];
    assert |t| > 0 ==> t[0] == CharAt(s, k);
    assert |t| > 1 ==> t[1] == CharAt(s, k + 1);
    assert ":" <= t <==> |t| > 0 && t[0] == ':';
    assert "::" <= t <==> |t| > 1 && t[0] == ':' && t[1] == ':';
  }

  /** A short option by what the option string says about it. */
  lemma ShortByKind(cfg: Config, text: string, rest: seq<string>)
    requires text != "" && rest != []
    ensures var c, tail := text[0], text[1..];
      ShortCall(cfg, text, rest) ==
      match Kind(cfg.shortopts, c)
      case None => Failed('?')
      case Some(NoArgument) => Found(Event(c, None, None), tail, if tail == "" then 1 else 0)
      case Some(OptionalArgument) => Found(Event(c, if tail == "" then None else Some(tail), None), "", 1)
      case Some(RequiredArgument) =>
        if tail != "" then Found(Event(c, Some(tail), None), "", 1)
        else if |rest| > 1 then Found(Event(c, Some(rest[1]), None), "", 2)
        else Failed(if cfg.returnColon then ':' else '?')
  {
    var s, c := cfg.shortopts, text[0];
    if c != ':' {
      KindIsFound(s, c, 0);
      assert s[0..] == s;
      var k := Find(s, c, 0);
      if k < |s| {
        MarkedByCharacters(s, k + 1);
      }
    }
  }

  lemma {:induction false} KindIsKnown(s: string, c: char)
    ensures Kind(s, c).Some? ==> c in s
  {
    if s != "" {
      KindIsKnown(s[1..], c);
    }
  }

  /** The markers in front of the option string: `-` or `+` for the order, then `:` for missing arguments. */
  lemma Markers(s: string, longopts: seq<WOption>)
    ensures s == "" || s[0] !in "-+:" ==> ConfigOf(s, longopts) == Config(Permute, s, longopts, false)
    ensures s == "" || s[0] != ':' ==> ConfigOf("+" + s, longopts) == Config(RequireOrder, s, longopts, false)
    ensures s == "" || s[0] != ':' ==> ConfigOf("-" + s, longopts) == Config(ReturnInOrder, s, longopts, false)
    ensures ConfigOf(":" + s, longopts) == Config(Permute, s, longopts, true)
    ensures ConfigOf("+:" + s, longopts) == Config(RequireOrder, s, longopts, true)
    ensures ConfigOf("-:" + s, longopts) == Config(ReturnInOrder, s, longopts, true)
  {
    assert (":" + s)[1..] == s && ("+" + s)[1..] == s && ("-" + s)[1..] == s;
    assert ("+:" + s)[1..] == ":" + s && ("-:" + s)[1..] == ":" + s;
  }

  // ----- items of an argument list -----

  /** The end of a cluster of short options: nothing, an option without its optional argument, or an option with
      its argument joined to it or in the next element. */
  datatype Tail = Nothing | Lone(c: char) | Joined(c: char, arg: string) | Apart(c: char, arg: string)

  /** The argument of a long option: none, behind an equals sign, or in the next element. */
  datatype Value = Bare | Equals(arg: string) | Next(arg: string)

  datatype Item =
    | Operand(arg: string)
    | Short(flags: string, tail: Tail)
    | Long(dash: string, key: string, index: nat, value: Value)

  function TailText(t: Tail): string {
    match t
    case Nothing => ""
    case Lone(c) => [c]
    case Joined(c, arg) => [c] + arg
    case Apart(c, _) => [c]
  }

  function TailRest(t: Tail): seq<string> {
    if t.Apart? then [t.arg] else []
  }

  function LongText(key: string, value: Value): string {
    key + if value.Equals? then "=" + value.arg else ""
  }

  /** The elements that an item is written with. */
  function Written(item: Item): seq<string> {
    match item
    case Operand(arg) => [arg]
    case Short(flags, tail) => ["-" + (flags + TailText(tail))] + TailRest(tail)
    case Long(dash, key, _, value) => [dash + LongText(key, value)] + if value.Next? then [value.arg] else []
  }

  predicate TailLegal(cfg: Config, t: Tail) {
    match t
    case Nothing => true
    case Lone(c) => Kind(cfg.shortopts, c) == Some(OptionalArgument)
    case Joined(c, arg) => arg != "" && Kind(cfg.shortopts, c) in {Some(OptionalArgument), Some(RequiredArgument)}
    case Apart(c, _) => Kind(cfg.shortopts, c) == Some(RequiredArgument)
  }

  predicate FlagsLegal(cfg: Config, flags: string) {
    forall k :: 0 <= k < |flags| ==> Kind(cfg.shortopts, flags[k]) == Some(NoArgument)
  }

  predicate ValueLegal(argType: ArgType, value: Value) {
    match value
    case Bare => argType != RequiredArgument
    case Equals(_) => argType != NoArgument
    case Next(_) => argType == RequiredArgument
  }

  /** A dash and at least one more character. */
  predicate Dashed(arg: string) {
    |arg| >= 2 && arg[0] == '-'
  }

  /** The name is the option's own or begins with key; where other names begin with it too, it is the option's own
      name, and the option is the first of that name. */
  predicate Names(longopts: seq<WOption>, key: string, i: nat) {
    && i < |longopts| && key <= longopts[i].name
    && forall j :: 0 <= j < |longopts| && j != i && key <= longopts[j].name ==>
         longopts[i].name == key && (longopts[j].name == key ==> i < j)
  }

  lemma NamesExactly(longopts: seq<WOption>, key: string, i: nat)
    ensures Names(longopts, key, i) <==>
      TheMatch(longopts, key) == Exact(i) || TheMatch(longopts, key) == NonExact(i)
    ensures Names(longopts, key, i) ==> i < |longopts|
  {
    var m := TheMatch(longopts, key);
    assert forall j :: 0 <= j < |longopts| ==> Abbreviates(longopts, key, j) == (key <= longopts[j].name);
    if Names(longopts, key, i) {
      var m' := if longopts[i].name == key then Exact(i) else NonExact(i);
      assert Matches(longopts, key, m');
      MatchIsUnique(longopts, key, m, m');
    }
  }

  /** What may be written.  With long options a second dash makes an option long; a single dash does where the
      character behind it is no short option. */
  predicate Legal(cfg: Config, item: Item) {
    match item
    case Operand(arg) => cfg.ordering != RequireOrder && !Dashed(arg)
    case Short(flags, tail) =>
      var text := flags + TailText(tail);
      && text != "" && text != "-" && (cfg.longopts == [] || text[0] != '-')
      && FlagsLegal(cfg, flags) && TailLegal(cfg, tail)
    case Long(dash, key, i, value) =>
      var text := LongText(key, value);
      && i < |cfg.longopts| && '=' !in key && text != ""
      && (dash == "--" || (dash == "-" && text[0] != '-' && text[0] !in cfg.shortopts))
      && Names(cfg.longopts, key, i)
      && ValueLegal(cfg.longopts[i].argType, value)
  }

  function TailEvents(t: Tail): seq<Event> {
    match t
    case Nothing => []
    case Lone(c) => [Event(c, None, None)]
    case Joined(c, arg) => [Event(c, Some(arg), None)]
    case Apart(c, arg) => [Event(c, Some(arg), None)]
  }

  function FlagEvents(flags: string): (evs: seq<Event>)
    ensures |evs| == |flags| && forall k :: 0 <= k < |flags| ==> evs[k] == Event(flags[k], None, None)
  {
    if flags == "" then [] else [Event(flags[0], None, None)] + FlagEvents(flags[1..])
  }

  /** The options that an item stands for. */
  function Events(cfg: Config, item: Item): seq<Event>
    requires Legal(cfg, item)
  {
    match item
    case Operand(arg) => if cfg.ordering == ReturnInOrder then [Event(1 as char, Some(arg), None)] else []
    case Short(flags, tail) => FlagEvents(flags) + TailEvents(tail)
    case Long(_, _, i, value) => [Event(cfg.longopts[i].val, if value.Bare? then None else Some(value.arg), Some(i))]
  }

  /** An outcome with an item in front: an operand that is permuted joins the others, any other item is consumed. */
  function Plus(cfg: Config, item: Item, out: Outcome): Outcome
    requires Legal(cfg, item)
  {
    if item.Operand? && cfg.ordering == Permute then out.WithOther(item.arg)
    else out.(events := Events(cfg, item) + out.events, consumed := Written(item) + out.consumed)
  }

  // ----- a scan takes what is written -----

  function Taking(evs: seq<Event>, elements: seq<string>, out: Outcome): Outcome {
    out.(events := evs + out.events, consumed := elements + out.consumed)
  }

  lemma TakingMore(evs: seq<Event>, ev: Event, elements: seq<string>, out: Outcome)
    ensures Taking(evs, elements, out).WithEvent(ev, []) == Taking([ev] + evs, elements, out)
  {
  }

  lemma ScanFlag(cfg: Config, c: char, text: string, rest: seq<string>)
    requires rest != [] && Kind(cfg.shortopts, c) == Some(NoArgument)
    requires cfg.longopts == [] || !TryLong(cfg, rest[0])
    ensures Scan(cfg, [c] + text, rest) ==
      if text == "" then Scan(cfg, "", rest[1..]).WithEvent(Event(c, None, None), rest[..1])
      else Scan(cfg, text, rest).WithEvent(Event(c, None, None), [])
  {
    hide ShortCall, Kind, TryLong;
    ShortByKind(cfg, [c] + text, rest);
    assert ([c] + text)[1..] == text && rest[0..] == rest && rest[..0] == [];
  }

  lemma ScanTail(cfg: Config, tail: Tail, arg: string, rest: seq<string>)
    requires TailLegal(cfg, tail) && tail != Nothing
    requires cfg.longopts == [] || !TryLong(cfg, arg)
    ensures var elements := [arg] + TailRest(tail);
      Scan(cfg, TailText(tail), elements + rest) == Taking(TailEvents(tail), elements, Scan(cfg, "", rest))
  {
    hide ShortCall, Kind, TryLong;
    var text, elements := TailText(tail), [arg] + TailRest(tail);
    var all := elements + rest;
    ShortByKind(cfg, text, all);
    assert text[0] == tail.c && text[1..] == if tail.Joined? then tail.arg else "";
    assert all[|elements|..] == rest && all[..|elements|] == elements;
    assert tail.Apart? ==> all[1] == tail.arg;
  }

  lemma FirstFlag(flags: string, tail: Tail)
    ensures flags == "" ==> flags + TailText(tail) == TailText(tail)
    ensures flags == "" ==> FlagEvents(flags) + TailEvents(tail) == TailEvents(tail)
    ensures flags != "" ==> flags + TailText(tail) == [flags[0]] + (flags[1..] + TailText(tail))
    ensures flags != "" ==>
      FlagEvents(flags) + TailEvents(tail)
      == [Event(flags[0], None, None)] + (FlagEvents(flags[1..]) + TailEvents(tail))
  {
    hide TailText, TailEvents;
    Regrouped(flags, TailText(tail));
    if flags != "" {
      hide FlagEvents;
      FlagEventsStep(flags);
      Regrouped(FlagEvents(flags), TailEvents(tail));
    } else {
      assert FlagEvents(flags) == [];
    }
  }

  lemma FlagEventsStep(flags: string)
    requires flags != ""
    ensures FlagEvents(flags) != [] && FlagEvents(flags)[0] == Event(flags[0], None, None)
    ensures FlagEvents(flags)[1..] == FlagEvents(flags[1..])
  {
  }

  lemma Regrouped<T>(a: seq<T>, b: seq<T>)
    ensures a == [] ==> a + b == b
    ensures a != [] ==> a + b == [a[0]] + (a[1..] + b)
  {
  }

  lemma LastFlag(flags: string, tail: Tail, arg: string, rest: seq<string>)
    requires |flags| == 1 && TailText(tail) == ""
    ensures FlagEvents(flags) + TailEvents(tail) == [Event(flags[0], None, None)]
    ensures var elements := [arg] + TailRest(tail);
      (elements + rest)[1..] == rest && (elements + rest)[..1] == elements
  {
    assert flags[1..] == "";
  }

  lemma {:induction false} ClusterIsFound(cfg: Config, flags: string, tail: Tail, arg: string, rest: seq<string>)
    requires FlagsLegal(cfg, flags) && TailLegal(cfg, tail) && flags + TailText(tail) != ""
    requires cfg.longopts == [] || !TryLong(cfg, arg)
    ensures var elements := [arg] + TailRest(tail);
      Scan(cfg, flags + TailText(tail), elements + rest)
      == Taking(FlagEvents(flags) + TailEvents(tail), elements, Scan(cfg, "", rest))
    decreases |flags|
  {
    hide Scan, Kind, TryLong, FlagEvents, TailEvents, TailText, TailRest, TailLegal;
    FirstFlag(flags, tail);
    if flags == "" {
      NothingIsEmpty(tail);
      ScanTail(cfg, tail, arg, rest);
    } else {
      var text, elements := flags[1..] + TailText(tail), [arg] + TailRest(tail);
      ScanFlag(cfg, flags[0], text, elements + rest);
      if text == "" {
        LastFlag(flags, tail, arg, rest);
      } else {
        ClusterIsFound(cfg, flags[1..], tail, arg, rest);
        TakingMore(FlagEvents(flags[1..]) + TailEvents(tail), Event(flags[0], None, None), elements,
                   Scan(cfg, "", rest));
      }
    }
  }

  lemma NothingIsEmpty(tail: Tail)
    ensures TailText(tail) == "" <==> tail == Nothing
  {
  }

  lemma KeyEnds(key: string, value: Value)
    requires '=' !in key
    ensures var text := LongText(key, value);
      && Find(text, '=', 0) == |key| && text[..|key|] == key && (|key| < |text| <==> value.Equals?)
      && (value.Equals? ==> text[|key| + 1..] == value.arg)
  {
    var text, k := LongText(key, value), Find(LongText(key, value), '=', 0);
    assert forall j :: 0 <= j < |key| ==> text[j] == key[j] && key[j] in key;
    assert value.Equals? ==> text[|key|] == '=';
  }

  /** The text of a dashed element, and whether it may be long. */
  lemma DashedText(cfg: Config, dash: string, text: string)
    requires dash == "--" || dash == "-"
    requires text != "" && !(dash == "-" && text == "-")
    requires cfg.longopts != [] ==> dash == "--" || text[0] != '-'
    requires cfg.longopts == [] ==> dash == "-"
    ensures var arg := dash + text;
      && IsOption(arg) && arg != "--" && Body(cfg, arg) == text
      && (cfg.longopts != [] ==> (TryLong(cfg, arg) <==> dash == "--" || text[0] !in cfg.shortopts))
      && (CharAt(arg, 1) == '-' <==> dash == "--" || text[0] == '-')
  {
    var arg := dash + text;
    assert arg[0] == '-' && arg[|dash|..] == text && (dash == "-" ==> arg[1] == text[0]);
  }

  lemma LongIsCalled(cfg: Config, item: Item, all: seq<string>)
    requires item.Long? && Legal(cfg, item) && Written(item) <= all
    ensures Call(cfg, LongText(item.key, item.value), all) == Found(Events(cfg, item)[0], "", |Written(item)|)
  {
    hide TryLong, Find, Body, Kind, ShortCall, Names, Matches;
    var Long(dash, key, i, value) := item;
    var text, longopts := LongText(key, value), cfg.longopts;
    KeyEnds(key, value);
    DashedText(cfg, dash, text);
    assert all[0] == Written(item)[0] && (value.Next? ==> all[1] == value.arg && |all| > 1);
    NamesExactly(longopts, key, i);
    assert LongCall(cfg, text, all) == Some(LongFound(cfg, i, text, all));
  }

  /** Each item that may be written is found, and nothing behind it is touched. */
  lemma ItemIsFound(cfg: Config, item: Item, rest: seq<string>)
    requires Legal(cfg, item)
    ensures Scan(cfg, "", Written(item) + rest) == Plus(cfg, item, Scan(cfg, "", rest))
  {
    hide Call, Body, Kind, TryLong;
    var elements := Written(item);
    var all := elements + rest;
    assert all[|elements|..] == rest && all[..|elements|] == elements && all[0] == elements[0];
    match item
    case Operand(arg) =>
      assert !IsOption(arg);
    case Short(flags, tail) =>
      var text := flags + TailText(tail);
      DashedText(cfg, "-", text);
      ShortStart(cfg, flags, tail);
      ClusterIsFound(cfg, flags, tail, "-" + text, rest);
    case Long(dash, key, _, value) =>
      DashedText(cfg, dash, LongText(key, value));
      LongIsCalled(cfg, item, all);
  }

  lemma ShortStart(cfg: Config, flags: string, tail: Tail)
    requires Legal(cfg, Short(flags, tail))
    ensures (flags + TailText(tail))[0] in cfg.shortopts
  {
    hide Kind;
    KindIsKnown(cfg.shortopts, (flags + TailText(tail))[0]);
    assert flags == "" ==> tail != Nothing && (flags + TailText(tail))[0] == tail.c;
  }

  // ----- a scan takes nothing else -----

  /** What ends a scan without error: the end of the arguments, `--`, or an operand where order counts. */
  predicate Ends(cfg: Config, ending: seq<string>) {
    ending == [] || ending[0] == "--" || (cfg.ordering == RequireOrder && !Dashed(ending[0]))
  }

  function EndOutcome(ending: seq<string>): Outcome {
    if ending != [] && ending[0] == "--" then Outcome([], ["--"], ending[1..], true, None)
    else Outcome([], [], ending, false, None)
  }

  predicate LegalLine(cfg: Config, items: seq<Item>, ending: seq<string>) {
    Ends(cfg, ending) && forall i :: 0 <= i < |items| ==> Legal(cfg, items[i])
  }

  /** A whole argument list. */
  function Line(items: seq<Item>, ending: seq<string>): seq<string> {
    if items == [] then ending else Written(items[0]) + Line(items[1..], ending)
  }

  /** What it stands for. */
  function Meaning(cfg: Config, items: seq<Item>, ending: seq<string>): Outcome
    requires LegalLine(cfg, items, ending)
  {
    if items == [] then EndOutcome(ending) else Plus(cfg, items[0], Meaning(cfg, items[1..], ending))
  }

  lemma EndIsFound(cfg: Config, ending: seq<string>)
    requires Ends(cfg, ending)
    ensures Scan(cfg, "", ending) == EndOutcome(ending)
  {
    hide Call, Body;
    assert ending != [] ==> (Dashed(ending[0]) <==> IsOption(ending[0]) && ending[0] != "");
  }

  lemma {:induction false} LineIsFound(cfg: Config, items: seq<Item>, ending: seq<string>)
    requires LegalLine(cfg, items, ending)
    ensures Scan(cfg, "", Line(items, ending)) == Meaning(cfg, items, ending)
  {
    hide Scan, Legal, Plus, Written;
    if items == [] {
      EndIsFound(cfg, ending);
    } else {
      LineIsFound(cfg, items[1..], ending);
      ItemIsFound(cfg, items[0], Line(items[1..], ending));
    }
  }

  lemma {:induction false} ReadCluster(cfg: Config, text: string, rest: seq<string>) returns (flags: string, tail: Tail)
    requires text != "" && rest != [] && (cfg.longopts == [] || !TryLong(cfg, rest[0]))
    requires Scan(cfg, text, rest).failure == None
    ensures FlagsLegal(cfg, flags) && TailLegal(cfg, tail) && flags + TailText(tail) == text
    ensures [rest[0]] + TailRest(tail) <= rest
    decreases |text|
  {
    hide ShortCall, Kind, TryLong, FlagsLegal;
    ShortByKind(cfg, text, rest);
    NoFlags(cfg);
    var c, text' := text[0], text[1..];
    flags, tail := "", Nothing;
    match Kind(cfg.shortopts, c)
    case None =>
    case Some(NoArgument) =>
      if text' != "" {
        assert rest[0..] == rest;
        flags, tail := ReadCluster(cfg, text', rest);
      }
      AddFlag(cfg, c, flags);
      flags := [c] + flags;
      assert flags + TailText(tail) == [c] + text';
    case Some(OptionalArgument) =>
      tail := if text' == "" then Lone(c) else Joined(c, text');
    case Some(RequiredArgument) =>
      tail := if text' != "" then Joined(c, text') else Apart(c, rest[1]);
  }

  lemma NoFlags(cfg: Config)
    ensures FlagsLegal(cfg, "")
  {
  }

  lemma AddFlag(cfg: Config, c: char, flags: string)
    requires Kind(cfg.shortopts, c) == Some(NoArgument) && FlagsLegal(cfg, flags)
    ensures FlagsLegal(cfg, [c] + flags)
  {
    hide Kind;
  }

  lemma ReadLong(cfg: Config, dash: string, text: string, rest: seq<string>) returns (item: Item)
    requires rest != [] && rest[0] == dash + text && text != "" && Call(cfg, text, rest).Found?
    requires cfg.longopts != [] && (dash == "--" || (dash == "-" && text[0] != '-' && text[0] !in cfg.shortopts))
    ensures Legal(cfg, item) && !item.Operand? && Written(item) <= rest
  {
    hide TryLong, Body, ShortCall, Names, Matches, Find;
    DashedText(cfg, dash, text);
    var k := Find(text, '=', 0);
    var key := text[..k];
    var m := TheMatch(cfg.longopts, key);
    assert m.Exact? || m.NonExact?;
    var i := m.i;
    NamesExactly(cfg.longopts, key, i);
    var value := if k < |text| then Equals(text[k + 1..])
      else if cfg.longopts[i].argType == RequiredArgument then Next(rest[1]) else Bare;
    assert LongText(key, value) == text;
    item := Long(dash, key, i, value);
  }

  /** The first item of a scan without error that does not end at once. */
  lemma ReadItem(cfg: Config, rest: seq<string>) returns (item: Item)
    requires !Ends(cfg, rest) && Scan(cfg, "", rest).failure == None
    ensures Legal(cfg, item) && Written(item) <= rest
  {
    hide Call, Body, TryLong;
    var arg := rest[0];
    if !Dashed(arg) {
      return Operand(arg);
    }
    assert IsOption(arg);
    var long := cfg.longopts != [] && (arg[1] == '-' || arg[1] !in cfg.shortopts);
    var dash := if long && arg[1] == '-' then "--" else "-";
    var text := arg[|dash|..];
    assert arg == dash + text;
    DashedText(cfg, dash, text);
    if long {
      item := ReadLong(cfg, dash, text, rest);
    } else {
      var flags, tail := ReadCluster(cfg, text, rest);
      item := Short(flags, tail);
    }
  }

  lemma {:induction false} ReadLine(cfg: Config, rest: seq<string>) returns (items: seq<Item>, ending: seq<string>)
    requires Scan(cfg, "", rest).failure == None
    ensures LegalLine(cfg, items, ending) && Line(items, ending) == rest
    decreases |rest|
  {
    hide Scan, Legal, Plus, Ends;
    if Ends(cfg, rest) {
      items, ending := [], rest;
    } else {
      var item := ReadItem(cfg, rest);
      var n := |Written(item)|;
      assert rest == Written(item) + rest[n..];
      ItemIsFound(cfg, item, rest[n..]);
      PlusKeeps(cfg, item, Scan(cfg, "", rest[n..]));
      items, ending := ReadLine(cfg, rest[n..]);
      items := [item] + items;
    }
  }

  lemma PlusKeeps(cfg: Config, item: Item, out: Outcome)
    requires Legal(cfg, item)
    ensures Plus(cfg, item, out).failure == out.failure && |Written(item)| > 0
  {
  }

  ghost predicate Stands(cfg: Config, args: seq<string>, out: Outcome, items: seq<Item>, ending: seq<string>) {
    LegalLine(cfg, items, ending) && args == Line(items, ending) && out == Meaning(cfg, items, ending)
  }

  lemma {:induction false} MeaningFails(cfg: Config, items: seq<Item>, ending: seq<string>)
    requires LegalLine(cfg, items, ending)
    ensures Meaning(cfg, items, ending).failure == None
  {
    hide Legal, Plus;
    if items != [] {
      MeaningFails(cfg, items[1..], ending);
      PlusKeeps(cfg, items[0], Meaning(cfg, items[1..], ending));
    }
  }

  /** The arguments that are scanned without error are those that are written as items, and what is found in
      them is what the items stand for. */
  lemma ScanIsLine(cfg: Config, args: seq<string>, out: Outcome)
    ensures out.failure == None && Scan(cfg, "", args) == out <==>
      exists items, ending :: Stands(cfg, args, out, items, ending)
  {
    hide Scan, Line, LegalLine, Meaning;
    if out.failure == None && Scan(cfg, "", args) == out {
      var items, ending := ReadLine(cfg, args);
      LineIsFound(cfg, items, ending);
      assert Stands(cfg, args, out, items, ending);
    }
    if items, ending :| Stands(cfg, args, out, items, ending) {
      LineIsFound(cfg, items, ending);
      MeaningFails(cfg, items, ending);
    }
  }

  // ----- arguments joined and apart -----

  /** An argument that an option must have may be joined to it or follow it, unless the option is `-`: that one
      cannot stand alone, since `--` ends the options. */
  lemma JoinedIsApart(cfg: Config, c: char, v: string, rest: seq<string>)
    requires Kind(cfg.shortopts, c) == Some(RequiredArgument) && v != ""
    ensures var joined, apart := Scan(cfg, "", ["-" + ([c] + v)] + rest), Scan(cfg, "", ["-" + [c], v] + rest);
      && (c != '-' ==> joined.events == apart.events == [Event(c, Some(v), None)] + Scan(cfg, "", rest).events)
      && (c != '-' ==> joined.failure == apart.failure == Scan(cfg, "", rest).failure)
      && (c == '-' ==> apart == Outcome([], ["--"], [v] + rest, true, None))
      && (c == '-' ==> joined.events != [] || joined.failure != None)
  {
    hide Scan, Call, Kind;
    var joined, apart := Short("", Joined(c, v)), Short("", Apart(c, v));
    assert "" + ([c] + v) == [c] + v && "" + [c] == [c];
    assert Written(joined) == ["-" + ([c] + v)] && Written(apart) == ["-" + [c], v];
    assert FlagEvents("") == [];
    if c != '-' {
      ItemIsFound(cfg, joined, rest);
      ItemIsFound(cfg, apart, rest);
    } else {
      assert "-" + [c] == "--";
      assert ["-" + [c], v] + rest == ["--"] + ([v] + rest);
      EndIsFound(cfg, ["--"] + ([v] + rest));
      DashIsTaken(cfg, v, ["-" + ([c] + v)] + rest);
    }
  }

  lemma DashIsTaken(cfg: Config, v: string, rest: seq<string>)
    requires v != "" && rest != [] && rest[0] == "-" + (['-'] + v)
    ensures Scan(cfg, "", rest).events != [] || Scan(cfg, "", rest).failure != None
  {
    hide Call;
    assert IsOption(rest[0]) && rest[0] != "--";
  }

  /** The same for a long option that must have an argument, by any name that stands for it. */
  lemma EqualsIsNext(cfg: Config, key: string, i: nat, v: string, rest: seq<string>)
    requires i < |cfg.longopts| && cfg.longopts[i].argType == RequiredArgument && key != "" && '=' !in key
    requires Names(cfg.longopts, key, i)
    ensures var equals, next := Scan(cfg, "", ["--" + key + "=" + v] + rest), Scan(cfg, "", ["--" + key, v] + rest);
      && equals.events == next.events == [Event(cfg.longopts[i].val, Some(v), Some(i))] + Scan(cfg, "", rest).events
      && equals.failure == next.failure == Scan(cfg, "", rest).failure
  {
    hide Scan, Names;
    var equals, next := Long("--", key, i, Equals(v)), Long("--", key, i, Next(v));
    assert "--" + (key + ("=" + v)) == "--" + key + "=" + v && key + "" == key;
    assert Written(equals) == ["--" + key + "=" + v] && Written(next) == ["--" + key, v];
    ItemIsFound(cfg, equals, rest);
    ItemIsFound(cfg, next, rest);
  }

  // ----- errors -----

  lemma {:induction false} ScanFlags(cfg: Config, flags: string, text: string, rest: seq<string>)
    requires FlagsLegal(cfg, flags) && text != "" && rest != []
    requires cfg.longopts == [] || !TryLong(cfg, rest[0])
    ensures Scan(cfg, flags + text, rest) == Taking(FlagEvents(flags), [], Scan(cfg, text, rest))
    decreases |flags|
  {
    hide Scan, Kind, TryLong;
    if flags == "" {
      assert flags + text == text && FlagEvents(flags) == [];
    } else {
      ScanFlag(cfg, flags[0], flags[1..] + text, rest);
      assert flags + text == [flags[0]] + (flags[1..] + text);
      ScanFlags(cfg, flags[1..], text, rest);
    }
  }

  /** A short option is an error behind any others if it is unknown, or if its argument is missing. */
  lemma ShortErrors(cfg: Config, flags: string, c: char, more: string, rest: seq<string>)
    requires FlagsLegal(cfg, flags) && flags + ([c] + more) != "-"
    requires cfg.longopts != [] ==> (flags + [c])[0] != '-' && (flags + [c])[0] in cfg.shortopts
    ensures var out := Scan(cfg, "", ["-" + (flags + ([c] + more))] + rest);
      && (Kind(cfg.shortopts, c) == None ==> out.events == FlagEvents(flags) && out.failure == Some('?'))
      && (Kind(cfg.shortopts, c) == Some(RequiredArgument) && more == "" && rest == [] ==>
            out.events == FlagEvents(flags) && out.failure == Some(if cfg.returnColon then ':' else '?'))
  {
    hide Kind, ShortCall, FlagsLegal, TryLong, Body;
    var text := [c] + more;
    var all := ["-" + (flags + text)] + rest;
    assert (flags + text)[0] == (flags + [c])[0];
    DashedText(cfg, "-", flags + text);
    ScanFlags(cfg, flags, text, all);
    ShortByKind(cfg, text, all);
    assert text[1..] == more;
  }

  /** A long option is an error if its name is unknown or ambiguous, if it has an argument that it must not have,
      or if its argument is missing. */
  lemma LongErrors(cfg: Config, dash: string, key: string, value: Value, rest: seq<string>)
    requires cfg.longopts != [] && '=' !in key && !value.Next? && LongText(key, value) != ""
    requires dash == "--" || (dash == "-" && LongText(key, value)[0] !in cfg.shortopts + "-")
    ensures var out := Scan(cfg, "", [dash + LongText(key, value)] + rest);
      && ((forall i: nat :: !Names(cfg.longopts, key, i)) ==> out.events == [] && out.failure == Some('?'))
      && forall i: nat :: Names(cfg.longopts, key, i) ==>
           (cfg.longopts[i].argType == NoArgument && value.Equals? ==>
              out.events == [] && out.failure == Some('?')) &&
           (cfg.longopts[i].argType == RequiredArgument && value.Bare? && rest == [] ==>
              out.events == [] && out.failure == Some(if cfg.returnColon then ':' else '?'))
  {
    hide Body, TryLong, ShortCall, Matches, Find, Names;
    var text := LongText(key, value);
    var all := [dash + text] + rest;
    KeyEnds(key, value);
    DashedText(cfg, dash, text);
    assert LongCall(cfg, text, all).Some? && Call(cfg, text, all) == LongCall(cfg, text, all).value;
    forall i: nat
      ensures Names(cfg.longopts, key, i) ==> i < |cfg.longopts|
      ensures Names(cfg.longopts, key, i) <==>
        TheMatch(cfg.longopts, key) == Exact(i) || TheMatch(cfg.longopts, key) == NonExact(i)
    {
      NamesExactly(cfg.longopts, key, i);
    }
  }
}
