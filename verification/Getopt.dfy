/** The option scanner that permutes its argument array as it goes. */
module Getopt {
  import opened Streams
  import GetoptExchange
  import opened GetoptSpec

  datatype Advance = Finished | UnpermutedNonOption | FoundOption

  /** What a call returns: no more options, an option (or, in order, a non-option), or an error. */
  datatype Answer = Done | Opt(c: char) | Error(c: char)

  /** The option string without the markers at its front. */
  function ConfigOf(optstring: string, longopts: seq<WOption>): Config {
    var marked := CharAt(optstring, 0) == '-' || CharAt(optstring, 0) == '+';
    var ordering := if CharAt(optstring, 0) == '-' then ReturnInOrder
      else if CharAt(optstring, 0) == '+' then RequireOrder else Permute;
    var s := if marked then optstring[1..] else optstring;
    if CharAt(s, 0) == ':' then Config(ordering, s[1..], longopts, true) else Config(ordering, s, longopts, false)
  }

  // ----- the plan of a run -----

  lemma BodyIs(cfg: Config, arg: string)
    requires IsOption(arg) && arg != "--"
    ensures Body(cfg, arg) == if cfg.longopts != [] && CharAt(arg, 1) == '-' then arg[2..] else arg[1..]
    ensures |arg| >= 2 && Body(cfg, arg) != ""
  {
  }

  lemma ScanOption(cfg: Config, rest: seq<string>)
    requires rest != [] && IsOption(rest[0]) && rest[0] != "--"
    ensures Scan(cfg, "", rest) == Scan(cfg, Body(cfg, rest[0]), rest)
  {
  }

  lemma ScanInOrder(cfg: Config, rest: seq<string>)
    requires rest != [] && !IsOption(rest[0]) && cfg.ordering != Permute
    ensures Scan(cfg, "", rest) ==
      if cfg.ordering == RequireOrder then Outcome([], [], rest, false, None)
      else Scan(cfg, "", rest[1..]).WithEvent(Event(NON_OPTION_CHAR, Some(rest[0]), None), rest[..1])
  {
  }

  lemma ExtendEvent(consumed: seq<string>, others: seq<string>, ev: Event, elements: seq<string>, out: Outcome)
    ensures Extend(consumed, others, out.WithEvent(ev, elements))
         == Extend(consumed + elements, others, out).WithEvent(ev, [])
  {
  }

  lemma ScanSkips(cfg: Config, rest: seq<string>)
    requires cfg.ordering == Permute && rest != [] && !IsOption(rest[0])
    ensures Scan(cfg, "", rest) == Scan(cfg, "", rest[1..]).WithOther(rest[0])
  {
  }

  lemma ScanTerminator(cfg: Config, rest: seq<string>)
    requires rest != [] && rest[0] == "--"
    ensures Scan(cfg, "", rest) == Outcome([], ["--"], rest[1..], true, None)
  {
  }

  lemma ScanNothing(cfg: Config, rest: seq<string>)
    ensures rest == [] ==> Scan(cfg, "", rest) == Outcome([], [], [], false, None)
  {
  }

  lemma ExtendOther(consumed: seq<string>, others: seq<string>, arg: string, out: Outcome)
    ensures Extend(consumed, others, out.WithOther(arg)) == Extend(consumed, others + [arg], out)
  {
  }

  function Extend(consumed: seq<string>, others: seq<string>, out: Outcome): Outcome {
    out.(consumed := consumed + out.consumed, others := others + out.others)
  }

  /** Slices of an array are slices of its contents. */
  lemma Slices(argv: array<string>, f: nat, l: nat, i: nat)
    requires 1 <= f <= l <= i <= argv.Length
    ensures argv[..][..1] == argv[..1] && argv[..][1..f] == argv[1..f] && argv[..][f..l] == argv[f..l]
    ensures argv[..][l..i] == argv[l..i] && argv[..][i..] == argv[i..]
  {
  }

  /** What becomes of the slices when `--` at i is passed. */
  lemma EndSlices(a: seq<string>, f: nat, l: nat, i: nat)
    requires 1 <= f <= l <= i < |a| && a[i] == "--" && (f != l ==> l == i)
    ensures f == l ==> a[1..i + 1] == a[1..f] + a[l..i] + ["--"] && a[i + 1..] == a[f..l] + a[i..][1..]
    ensures f != l ==> var t := GetoptExchange.Rotated(a, f, l, i + 1);
      t[..1] == a[..1] && t[1..f + 1] == a[1..f] + a[l..i] + ["--"] && t[f + 1..] == a[f..l] + a[i..][1..]
  {
  }

  lemma WholeArray(argv: array<string>, i: nat)
    requires 1 <= i <= argv.Length
    ensures argv[..] == argv[..1] + argv[1..i] + argv[i..]
  {
  }

  lemma NothingBetween(s: seq<string>, i: nat)
    requires i <= |s|
    ensures s[i..i] == []
  {
  }

  lemma ExchangedSlices(s: seq<string>, f: nat, l: nat, i: nat)
    requires 1 <= f <= l <= i <= |s|
    ensures var t, m := GetoptExchange.Rotated(s, f, l, i), f + (i - l);
      t[..1] == s[..1] && t[1..m] == s[1..f] + s[l..i] && t[m..i] == s[f..l] && t[i..i] == [] && t[i..] == s[i..]
  {
  }

  lemma OneMore(events: seq<Event>, ev: Event, plan: Outcome)
    ensures var more := plan.WithEvent(ev, []);
      more.(events := events + more.events) == plan.(events := events + [ev] + plan.events)
  {
  }

  lemma ExtendNothing(out: Outcome)
    ensures Extend([], [], out) == out
  {
  }

  // ----- the scanner -----

  class WGetopter {
    const argv: array<string>
    const longopts: seq<WOption>
    var woptarg: Option<string>
    var shortopts: string
    var remainingText: string
    var woptIndex: nat
    var unrecognizedOpt: char
    var ordering: Ordering
    var firstNonopt: nat
    var lastNonopt: nat
    var returnColon: bool
    var initialized: bool

    constructor (shortopts: string, longopts: seq<WOption>, argv: array<string>)
      requires argv.Length > 0
      ensures !initialized && !returnColon && this.argv == argv
      ensures this.shortopts == shortopts && this.longopts == longopts
    {
      this.argv, this.longopts, this.shortopts := argv, longopts, shortopts;
      woptarg, remainingText, woptIndex, unrecognizedOpt := None, "", 0, '?';
      ordering, firstNonopt, lastNonopt, returnColon, initialized := Permute, 0, 0, false, false;
    }

    ghost function Cfg(): Config
      reads this
    {
      Config(ordering, shortopts, longopts, returnColon)
    }

    /** Between two calls: skipped non-options lie between firstNonopt and lastNonopt, options scanned since
        then behind them up to woptIndex. */
    ghost predicate Valid()
      reads this, argv
    {
      && initialized
      && 1 <= firstNonopt <= lastNonopt <= woptIndex <= argv.Length
      && (remainingText != "" ==> woptIndex < argv.Length)
      && (ordering != Permute ==> lastNonopt == 1)
    }

    ghost function Consumed(): seq<string>
      requires Valid()
      reads this, argv
    {
      argv[1..firstNonopt] + argv[lastNonopt..woptIndex]
    }

    ghost function Others(): seq<string>
      requires Valid()
      reads this, argv
    {
      argv[firstNonopt..lastNonopt]
    }

    ghost function Rest(): seq<string>
      requires Valid()
      reads this, argv
    {
      argv[woptIndex..]
    }

    /** The outcome of the whole run, seen from here: what is arranged already and what the rest will give. */
    ghost function Plan(): Outcome
      requires Valid()
      reads this, argv
    {
      Extend(Consumed(), Others(), Scan(Cfg(), remainingText, Rest()))
    }

    /** Exchanges the skipped non-options with the options scanned after them. */
    method Exchange()
      requires Valid()
      modifies argv, this`firstNonopt, this`lastNonopt
      ensures firstNonopt == old(firstNonopt + (woptIndex - lastNonopt)) && lastNonopt == woptIndex
      ensures argv[..] == GetoptExchange.Rotated(old(argv[..]), old(firstNonopt), old(lastNonopt), woptIndex)
    {
      GetoptExchange.BlockSwap(argv, firstNonopt, lastNonopt, woptIndex);
      firstNonopt := firstNonopt + (woptIndex - lastNonopt);
      lastNonopt := woptIndex;
    }

    method Initialize()
      requires !initialized && !returnColon && argv.Length > 0
      modifies this
      ensures Valid() && Cfg() == ConfigOf(old(shortopts), longopts)
      ensures remainingText == "" && firstNonopt == lastNonopt == woptIndex == 1
    {
      firstNonopt, lastNonopt, woptIndex := 1, 1, 1;
      remainingText := "";
      var optstring := shortopts;
      if CharAt(optstring, 0) == '-' {
        ordering := ReturnInOrder;
        optstring := optstring[1..];
      } else if CharAt(optstring, 0) == '+' {
        ordering := RequireOrder;
        optstring := optstring[1..];
      } else {
        ordering := Permute;
      }
      if CharAt(optstring, 0) == ':' {
        returnColon := true;
        optstring := optstring[1..];
      }
      shortopts := optstring;
      initialized := true;
    }

    /** Permutes the arguments if options have been found behind non-options. */
    method Rearrange()
      requires Valid() && ordering == Permute
      modifies argv, this`firstNonopt, this`lastNonopt
      ensures Valid() && lastNonopt == woptIndex && argv[..1] == old(argv[..1])
      ensures Consumed() == old(Consumed()) && Others() == old(Others()) && Rest() == old(Rest())
    {
      if lastNonopt != woptIndex {
        if firstNonopt == lastNonopt {
          assert argv[1..woptIndex] == argv[1..firstNonopt] + argv[lastNonopt..woptIndex];
          assert argv[firstNonopt..lastNonopt] == [];
          firstNonopt := woptIndex;
          lastNonopt := woptIndex;
          NothingBetween(argv[..], woptIndex);
        } else {
          ExchangedSlices(argv[..], firstNonopt, lastNonopt, woptIndex);
          Slices(argv, firstNonopt, lastNonopt, woptIndex);
          Exchange();
          Slices(argv, firstNonopt, lastNonopt, woptIndex);
        }
      }
    }

    /** Skips non-options that follow, counting them as skipped. */
    method SkipNonOptions()
      requires Valid() && ordering == Permute && lastNonopt == woptIndex && remainingText == ""
      modifies this`woptIndex, this`lastNonopt
      ensures Valid() && lastNonopt == woptIndex && Plan() == old(Plan())
      ensures woptIndex < argv.Length ==> IsOption(argv[woptIndex])
    {
      hide Scan, IsOption;
      ghost var cfg, plan := Cfg(), Plan();
      ghost var consumed := argv[1..firstNonopt];
      assert consumed + argv[lastNonopt..woptIndex] == consumed;
      while woptIndex < argv.Length && !IsOption(argv[woptIndex])
        invariant firstNonopt <= woptIndex <= argv.Length
        invariant plan == Extend(consumed, argv[firstNonopt..woptIndex], Scan(cfg, "", argv[woptIndex..]))
      {
        ScanSkips(cfg, argv[woptIndex..]);
        assert argv[woptIndex..][1..] == argv[woptIndex + 1..];
        assert argv[firstNonopt..woptIndex + 1] == argv[firstNonopt..woptIndex] + [argv[woptIndex]];
        ExtendOther(consumed, argv[firstNonopt..woptIndex], argv[woptIndex], Scan(cfg, "", argv[woptIndex + 1..]));
        woptIndex := woptIndex + 1;
      }
      lastNonopt := woptIndex;
      assert consumed + argv[lastNonopt..woptIndex] == consumed;
    }

    /** The element `--`: passed like an option, everything behind it like a non-option. */
    method EndOfOptions()
      requires Valid() && remainingText == "" && woptIndex < argv.Length && argv[woptIndex] == "--"
      requires ordering == Permute ==> lastNonopt == woptIndex
      requires ordering != Permute ==> firstNonopt == lastNonopt
      modifies argv, this`woptIndex, this`firstNonopt, this`lastNonopt
      ensures 1 <= firstNonopt <= lastNonopt == woptIndex == argv.Length && argv[..1] == old(argv[..1])
      ensures argv[1..firstNonopt] == old(Consumed()) + ["--"]
      ensures argv[firstNonopt..] == old(Others()) + old(Rest())[1..]
    {
      hide GetoptExchange.Rotated;
      ghost var a, f, l, i := argv[..], firstNonopt, lastNonopt, woptIndex;
      Slices(argv, f, l, i);
      EndSlices(a, f, l, i);
      woptIndex := woptIndex + 1;
      if firstNonopt == lastNonopt {
        firstNonopt := woptIndex;
      } else if lastNonopt != woptIndex {
        Exchange();
      }
      Slices(argv, firstNonopt, firstNonopt, firstNonopt);
      lastNonopt := argv.Length;
      woptIndex := argv.Length;
    }

    /** The scan is over: what was consumed lies in front of woptIndex, the rest from there on. */
    ghost predicate Over(plan: Outcome)
      reads this, argv
    {
      && 1 <= woptIndex <= argv.Length && plan.events == [] && plan.failure == None
      && argv[1..woptIndex] == plan.consumed && argv[woptIndex..] == plan.others
    }

    /** Deals with `--` and with the end of the arguments. */
    method EndOfArguments() returns (done: bool)
      requires Valid() && remainingText == "" && (ordering == Permute ==> lastNonopt == woptIndex)
      modifies argv, this`woptIndex, this`firstNonopt, this`lastNonopt
      ensures argv[..1] == old(argv[..1])
      ensures done ==> Over(old(Plan()))
      ensures !done ==> Valid() && Plan() == old(Plan()) && argv[..] == old(argv[..])
      ensures !done ==> woptIndex == old(woptIndex) < argv.Length && argv[woptIndex] != "--"
    {
      hide Scan;
      ghost var cfg := Cfg();
      if woptIndex != argv.Length && argv[woptIndex] == "--" {
        ScanTerminator(cfg, Rest());
        EndOfOptions();
      } else if woptIndex == argv.Length {
        ScanNothing(cfg, Rest());
        EverythingArranged();
      }
      if woptIndex == argv.Length {
        if firstNonopt != lastNonopt {
          woptIndex := firstNonopt;
        }
        return true;
      }
      done := false;
    }

    lemma EverythingArranged()
      requires Valid() && woptIndex == argv.Length && (ordering == Permute ==> lastNonopt == woptIndex)
      ensures firstNonopt != lastNonopt ==> argv[1..firstNonopt] == Consumed() && argv[firstNonopt..] == Others()
      ensures firstNonopt == lastNonopt ==> argv[1..] == Consumed() && Others() == [] == argv[argv.Length..]
    {
    }

    /** An element that is neither `--` nor skipped. */
    method AtElement() returns (r: Advance)
      requires Valid() && remainingText == "" && woptIndex < argv.Length && argv[woptIndex] != "--"
      requires ordering == Permute ==> IsOption(argv[woptIndex])
      modifies this`woptIndex, this`remainingText, this`woptarg
      ensures r == Finished ==> Over(old(Plan()))
      ensures r == UnpermutedNonOption ==>
        && Valid() && remainingText == "" && woptarg.Some?
        && old(Plan()) == Plan().WithEvent(Event(NON_OPTION_CHAR, woptarg, None), [])
      ensures r == FoundOption ==> Valid() && remainingText != "" && Plan() == old(Plan())
    {
      hide Scan, Body;
      ghost var cfg, rest := Cfg(), Rest();
      assert rest[0] == argv[woptIndex] && rest[1..] == argv[woptIndex + 1..];
      if !IsOption(argv[woptIndex]) {
        ScanInOrder(cfg, rest);
        assert argv[1..1] + argv[1..woptIndex] == argv[1..woptIndex];
        if ordering == RequireOrder {
          assert argv[1..woptIndex] + [] == argv[1..woptIndex] && argv[1..1] + rest == rest;
          return Finished;
        }
        woptarg := Some(argv[woptIndex]);
        assert argv[1..woptIndex + 1] == argv[1..woptIndex] + rest[..1];
        ExtendEvent(argv[1..woptIndex], [], Event(NON_OPTION_CHAR, woptarg, None), rest[..1], Scan(cfg, "", rest[1..]));
        woptIndex := woptIndex + 1;
        assert argv[1..1] + argv[1..woptIndex] == argv[1..woptIndex];
        return UnpermutedNonOption;
      }
      ScanOption(cfg, rest);
      BodyIs(cfg, argv[woptIndex]);
      var skip := if longopts != [] && CharAt(argv[woptIndex], 1) == '-' then 2 else 1;
      remainingText := argv[woptIndex][skip..];
      r := FoundOption;
    }

    /** Advances to the next element. */
    method NextArgv() returns (r: Advance)
      requires Valid() && remainingText == ""
      modifies argv, this`woptIndex, this`firstNonopt, this`lastNonopt, this`remainingText, this`woptarg
      ensures argv[..1] == old(argv[..1])
      ensures r == Finished ==> Over(old(Plan()))
      ensures r == UnpermutedNonOption ==>
        && Valid() && remainingText == "" && woptarg.Some?
        && old(Plan()) == Plan().WithEvent(Event(NON_OPTION_CHAR, woptarg, None), [])
      ensures r == FoundOption ==> Valid() && remainingText != "" && Plan() == old(Plan())
    {
      hide Scan, IsOption, Extend;
      if ordering == Permute {
        Rearrange();
        SkipNonOptions();
      }
      var done := EndOfArguments();
      if done {
        return Finished;
      }
      r := AtElement();
    }

    /** The indices are in order, whatever else happened. */
    ghost predicate InOrder()
      reads this
    {
      1 <= firstNonopt <= lastNonopt <= woptIndex <= argv.Length
    }

    /** The object is in the state, and the answer is the one, that a call's result describes. */
    ghost predicate Answers(t: Taken, a: Answer, index: Option<nat>, from: nat)
      reads this, argv
    {
      match t
      case Failed(c) => a == Error(c) && InOrder()
      case Found(ev, text, used) =>
        && a == Opt(ev.c) && woptarg == ev.arg && index == ev.index
        && Valid() && remainingText == text && woptIndex == from + used
    }

    /** The next short option of the current element. */
    method HandleShortOpt() returns (a: Answer)
      requires Valid() && remainingText != "" && woptarg == None
      modifies this`remainingText, this`woptIndex, this`woptarg, this`unrecognizedOpt
      ensures Answers(ShortCall(Cfg(), old(remainingText), old(Rest())), a, None, old(woptIndex))
      ensures unrecognizedOpt == if a.Error? then old(remainingText[0]) else old(unrecognizedOpt)
    {
      hide CharAt, Find, GoesOn;
      ghost var rest := Rest();
      assert |rest| > 1 ==> rest[1] == argv[woptIndex + 1];
      var c := remainingText[0];
      remainingText := remainingText[1..];
      var k := Find(shortopts, c, 0);
      if remainingText == "" {
        woptIndex := woptIndex + 1;
      }
      if k == |shortopts| || c == ':' {
        unrecognizedOpt := c;
        if remainingText != "" {
          woptIndex := woptIndex + 1;
        }
        return Error('?');
      }
      if CharAt(shortopts, k + 1) != ':' {
        return Opt(c);
      }
      a := Opt(c);
      if CharAt(shortopts, k + 2) == ':' {
        if remainingText != "" {
          woptarg := Some(remainingText);
          woptIndex := woptIndex + 1;
        } else {
          woptarg := None;
        }
      } else {
        if remainingText != "" {
          woptarg := Some(remainingText);
          woptIndex := woptIndex + 1;
        } else if woptIndex == argv.Length {
          unrecognizedOpt := c;
          a := Error(if returnColon then ':' else '?');
        } else {
          woptarg := Some(argv[woptIndex]);
          woptIndex := woptIndex + 1;
        }
      }
      remainingText := "";
    }

    method UpdateLongOpt(i: nat, nameEnd: nat) returns (a: Answer, index: Option<nat>)
      requires Valid() && remainingText != "" && woptarg == None && i < |longopts|
      requires nameEnd == Find(remainingText, '=', 0)
      modifies this`remainingText, this`woptIndex, this`woptarg
      ensures Answers(LongFound(Cfg(), i, old(remainingText), old(Rest())), a, index, old(woptIndex))
    {
      ghost var rest := Rest();
      assert |rest| > 1 ==> rest[1] == argv[woptIndex + 1];
      index := None;
      woptIndex := woptIndex + 1;
      assert CharAt(remainingText, nameEnd) == 0 as char || CharAt(remainingText, nameEnd) == '=';
      if CharAt(remainingText, nameEnd) == '=' {
        if longopts[i].argType == NoArgument {
          remainingText := "";
          return Error('?'), None;
        }
        woptarg := Some(remainingText[nameEnd + 1..]);
      } else if longopts[i].argType == RequiredArgument {
        if woptIndex < argv.Length {
          woptarg := Some(argv[woptIndex]);
          woptIndex := woptIndex + 1;
        } else {
          remainingText := "";
          return Error(if returnColon then ':' else '?'), None;
        }
      }
      remainingText := "";
      a, index := Opt(longopts[i].val), Some(i);
    }

    /** Looks for an exact match, else for the only abbreviation. */
    method FindMatchingLongOpt(nameEnd: nat) returns (m: LongOptMatch)
      requires nameEnd <= |remainingText|
      ensures m == TheMatch(longopts, remainingText[..nameEnd])
    {
      var key := remainingText[..nameEnd];
      var opt: Option<nat> := None;
      var ambiguous := false;
      for i := 0 to |longopts|
        invariant forall j :: 0 <= j < i ==> longopts[j].name != key
        invariant opt == None ==> !ambiguous && forall j :: 0 <= j < i ==> !Abbreviates(longopts, key, j)
        invariant opt.Some? ==> opt.value < i && Abbreviates(longopts, key, opt.value)
        invariant opt.Some? && !ambiguous ==> forall j :: 0 <= j < i && Abbreviates(longopts, key, j) ==> j == opt.value
        invariant ambiguous ==>
          exists j, k :: 0 <= j < k < i && Abbreviates(longopts, key, j) && Abbreviates(longopts, key, k)
      {
        if key <= longopts[i].name {
          assert Abbreviates(longopts, key, i);
          if nameEnd == |longopts[i].name| {
            MatchIsUnique(longopts, key, Exact(i), TheMatch(longopts, key));
            return Exact(i);
          } else if opt == None {
            opt := Some(i);
          } else {
            ambiguous := true;
          }
        }
      }
      match opt {
        case None => m := NoMatch;
        case Some(i) => m := if ambiguous then Ambiguous else NonExact(i);
      }
      MatchIsUnique(longopts, key, m, TheMatch(longopts, key));
    }

    /** A long option; handled is false if the text must be taken as a short one. */
    method HandleLongOpt() returns (handled: bool, a: Answer, index: Option<nat>)
      requires Valid() && remainingText != "" && woptarg == None
      modifies this`remainingText, this`woptIndex, this`woptarg
      ensures handled == LongCall(Cfg(), old(remainingText), old(Rest())).Some?
      ensures handled ==> Answers(LongCall(Cfg(), old(remainingText), old(Rest())).value, a, index, old(woptIndex))
      ensures !handled ==> remainingText == old(remainingText) && woptIndex == old(woptIndex) && woptarg == None
    {
      hide LongFound;
      assert Rest()[0] == argv[woptIndex];
      var nameEnd := Find(remainingText, '=', 0);
      var m := FindMatchingLongOpt(nameEnd);
      handled, a, index := true, Error('?'), None;
      match m {
        case Exact(i) =>
          a, index := UpdateLongOpt(i, nameEnd);
          return;
        case NonExact(i) =>
          a, index := UpdateLongOpt(i, nameEnd);
          return;
        case Ambiguous =>
          remainingText := "";
          woptIndex := woptIndex + 1;
          return;
        case NoMatch =>
      }
      if CharAt(argv[woptIndex], 1) == '-' || CharAt(remainingText, 0) !in shortopts {
        remainingText := "";
        woptIndex := woptIndex + 1;
        return;
      }
      handled := false;
    }

    /** A call that finds an option goes one event forward in the plan. */
    lemma PlanAdvances(cfg: Config, text: string, from: nat, ev: Event, used: nat)
      requires Valid() && cfg == Cfg() && text != ""
      requires lastNonopt <= from < argv.Length && from + used == woptIndex
      requires Call(cfg, text, argv[from..]) == Found(ev, remainingText, used)
      ensures Extend(argv[1..firstNonopt] + argv[lastNonopt..from], Others(), Scan(cfg, text, argv[from..]))
           == Plan().WithEvent(ev, [])
    {
      hide Call;
      var rest := argv[from..];
      assert rest[..used] == argv[from..woptIndex] && rest[used..] == argv[woptIndex..];
      assert (argv[1..firstNonopt] + argv[lastNonopt..from]) + argv[from..woptIndex] == Consumed();
      ExtendEvent(argv[1..firstNonopt] + argv[lastNonopt..from], Others(), ev, rest[..used],
                  Scan(cfg, remainingText, argv[woptIndex..]));
    }

    /** Decodes the text left in the current element. */
    method Decode() returns (a: Answer, index: Option<nat>)
      requires Valid() && remainingText != "" && woptarg == None
      modifies this`remainingText, this`woptIndex, this`woptarg, this`unrecognizedOpt
      ensures Answers(Call(Cfg(), old(remainingText), old(Rest())), a, index, old(woptIndex))
    {
      hide ShortCall, LongCall;
      index := None;
      assert Rest()[0] == argv[woptIndex];
      if longopts != [] && woptIndex < argv.Length {
        var arg := argv[woptIndex];
        var tryLong := (CharAt(arg, 0) == '-' && CharAt(arg, 1) == '-') || CharAt(arg, 1) !in shortopts;
        if tryLong {
          var handled;
          handled, a, index := HandleLongOpt();
          if handled {
            return;
          }
        }
      }
      a := HandleShortOpt();
      index := None;
    }

    /** Before the first call, or between two calls. */
    ghost predicate Ready()
      reads this, argv
    {
      if initialized then Valid() else !returnColon && argv.Length > 0
    }

    ghost function Planned(): Outcome
      requires Ready()
      reads this, argv
    {
      if initialized then Plan() else Scan(ConfigOf(shortopts, longopts), "", argv[1..])
    }

    /** The next option, its argument in woptarg; Done when there are no more. */
    method NextOpt() returns (a: Answer, index: Option<nat>)
      requires Ready()
      modifies this, argv
      ensures argv[..1] == old(argv[..1])
      ensures a == Done ==> Over(old(Planned()))
      ensures a.Opt? ==> Ready() && initialized && old(Planned()) == Plan().WithEvent(Event(a.c, woptarg, index), [])
      ensures a.Error? ==> old(Planned()).failure == Some(a.c) && old(Planned()).events == [] && InOrder()
    {
      hide Call, Scan, Answers;
      ghost var plan := Planned();
      if !initialized {
        Initialize();
        assert argv[1..1] + argv[1..1] == [] && argv[1..1] == [];
        ExtendNothing(Scan(Cfg(), "", Rest()));
      }
      woptarg := None;
      if remainingText == "" {
        var r := NextArgv();
        if r == UnpermutedNonOption {
          return Opt(NON_OPTION_CHAR), None;
        } else if r == Finished {
          return Done, None;
        }
        woptarg := None;
      }
      ghost var cfg, text, from := Cfg(), remainingText, woptIndex;
      a, index := Decode();
      Answered(cfg, text, from, a, index);
    }

    lemma Answered(cfg: Config, text: string, from: nat, a: Answer, index: Option<nat>)
      requires cfg == Cfg() && text != "" && 1 <= firstNonopt <= lastNonopt <= from < argv.Length
      requires Answers(Call(cfg, text, argv[from..]), a, index, from)
      ensures var plan := Extend(argv[1..firstNonopt] + argv[lastNonopt..from], argv[firstNonopt..lastNonopt],
                                 Scan(cfg, text, argv[from..]));
        && a != Done
        && (a.Opt? ==> Valid() && plan == Plan().WithEvent(Event(a.c, woptarg, index), []))
        && (a.Error? ==> InOrder() && plan.failure == Some(a.c) && plan.events == [])
    {
      hide Call;
      match Call(cfg, text, argv[from..])
      case Failed(_) =>
      case Found(ev, _, used) => PlanAdvances(cfg, text, from, ev, used);
    }

    /** All calls up to the end or the first error. */
    method ScanAll() returns (events: seq<Event>, failure: Option<char>)
      requires !initialized && Ready()
      modifies this, argv
      ensures var out := Scan(ConfigOf(old(shortopts), longopts), "", old(argv[1..]));
        && events == out.events && failure == out.failure
        && (failure == None ==> argv[..] == old(argv[..1]) + out.consumed + out.others)
        && (failure == None ==> woptIndex == 1 + |out.consumed|)
    {
      hide Scan;
      ghost var out := Planned();
      events := [];
      ghost var plan := out;
      while true
        invariant Ready() && plan == Planned() && argv[..1] == old(argv[..1])
        invariant out == plan.(events := events + plan.events)
        decreases |plan.events|
      {
        var a, index := NextOpt();
        match a {
          case Done =>
            failure := None;
            WholeArray(argv, woptIndex);
            assert events + [] == events;
            return;
          case Error(c) =>
            failure := Some(c);
            assert events + [] == events;
            return;
          case Opt(c) =>
            var ev := Event(c, woptarg, index);
            OneMore(events, ev, Plan());
            plan := Plan();
            events := events + [ev];
        }
      }
    }
  }

  /** Scanning an array without error and then scanning what it has become: the second scan finds the same
      options with the same arguments, leaves the array as it is, and stops at the same place. */
  method ScanTwice(shortopts: string, longopts: seq<WOption>, argv: array<string>)
    returns (first: seq<Event>, failure: Option<char>, stop: nat,
             second: seq<Event>, failure': Option<char>, stop': nat)
    requires argv.Length > 0
    modifies argv
    ensures failure == None ==> failure' == None && second == first && stop' == stop
    ensures failure == None ==> var out := Scan(ConfigOf(shortopts, longopts), "", old(argv[1..]));
      argv[..] == old(argv[..1]) + out.consumed + out.others
  {
    hide Scan;
    var w := new WGetopter(shortopts, longopts, argv);
    ghost var cfg := ConfigOf(shortopts, longopts);
    ghost var out := Scan(cfg, "", argv[1..]);
    first, failure := w.ScanAll();
    stop, second, failure', stop' := w.woptIndex, [], None, 0;
    if failure == None {
      ScanIsStable(cfg, old(argv[1..]));
      assert argv[1..] == out.consumed + out.others;
      var w' := new WGetopter(shortopts, longopts, argv);
      second, failure' := w'.ScanAll();
      stop' := w'.woptIndex;
    }
  }
}
