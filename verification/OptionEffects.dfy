/** What each way of giving an option does to a whole command line: what it stores, and when it is refused. */
module OptionEffects {
  import opened Wrappers
  import opened LongOption
  import opened OptionRun
  import opened OptionSpellings
  import B = StrBuf
  import S = StrList

  // The arguments in front are read through, so x is read as an option
  ghost predicate Reached(c: Config, pre: seq<string>, x: seq<string>, post: seq<string>) {
    && WellFormed(c.table) && !c.flags.oneShot && ReadThrough(Run(c, false, 0, None, pre))
    && x != [] && (x[0] == "-h" ==> |pre + x + post| > 1)
  }

  // Between pre and post, x gives back nothing and stores exactly ws
  ghost predicate Adds(c: Config, pre: seq<string>, x: seq<string>, post: seq<string>, ws: seq<Write>) {
    var r, p, q := ParseRun(c, pre + x + post), Run(c, false, 0, None, pre), Run(c, false, 0, None, post);
    match q
    case Exited(why) => r == Exited(why)
    case Returned(_, output, writes) =>
      p.Returned? && r.Returned? && r.output == p.output + output && r.writes == p.writes + ws + writes
  }

  ghost predicate Ends(c: Config, pre: seq<string>, x: seq<string>, post: seq<string>, why: Why) {
    ParseRun(c, pre + x + post) == Exited(why)
  }

  // One store, and with realpath only if the stored path names a regular file
  ghost predicate Stores(c: Config, pre: seq<string>, x: seq<string>, post: seq<string>, o: Opt, w: Write) {
    if o.realpath && !c.regular(w) then Ends(c, pre, x, post, BadOption) else Adds(c, pre, x, post, [w])
  }

  /* ---------- from one step to the run ---------- */

  lemma RunFromStep(c: Config, pre: seq<string>, x: seq<string>, post: seq<string>)
    requires Reached(c, pre, x, post)
    ensures ParseRun(c, pre + x + post) ==
      Joined(Run(c, false, 0, None, pre), Run(c, false, 0, None, [x[0]] + (x[1..] + post)))
  {
    hide Run, Joined;
    assert pre + x + post == pre + ([x[0]] + (x[1..] + post));
    RunAppend(c, 0, 0, pre, [x[0]] + (x[1..] + post));
    if |pre + x + post| == 1 {
      assert (pre + x + post)[0] == x[0];
      AloneIsIrrelevant(c, pre + x + post);
    }
  }

  lemma AddsByStep(c: Config, pre: seq<string>, x: seq<string>, post: seq<string>, ws: seq<Write>)
    requires Reached(c, pre, x, post)
    requires StepOf(c, false, 0, None, x[0], Head(x[1..] + post)) == Next(false, ws, None, |x| - 1)
    ensures Adds(c, pre, x, post, ws)
  {
    hide Run, StepOf;
    RunFromStep(c, pre, x, post);
    RunNext(c, 0, x[0], x[1..] + post);
    assert (x[1..] + post)[|x| - 1..] == post;
    ReadThroughReturns(Run(c, false, 0, None, pre));
    WritesInOrder(Run(c, false, 0, None, pre), ws, |x| - 1, [x[0]] + (x[1..] + post), Run(c, false, 0, None, post));
  }

  lemma ReadThroughReturns(r: Outcome)
    requires ReadThrough(r)
    ensures r.Returned?
  {
  }

  lemma WritesInOrder(p: Outcome, ws: seq<Write>, used: nat, args: seq<string>, q: Outcome)
    requires p.Returned? && args != []
    ensures var r := Joined(p, After(false, ws, used, args, q));
      if q.Exited? then r == q
      else r.Returned? && r.output == p.output + q.output && r.writes == p.writes + ws + q.writes
  {
    if q.Returned? {
      assert [] + q.output == q.output;
      assert p.writes + (ws + q.writes) == p.writes + ws + q.writes;
    }
  }

  lemma EndsByStep(c: Config, pre: seq<string>, x: seq<string>, post: seq<string>, why: Why)
    requires Reached(c, pre, x, post)
    requires StepOf(c, false, 0, None, x[0], Head(x[1..] + post)) == Stop(why)
    ensures Ends(c, pre, x, post, why)
  {
    hide Run, StepOf;
    RunFromStep(c, pre, x, post);
    RunNext(c, 0, x[0], x[1..] + post);
    ReadThroughReturns(Run(c, false, 0, None, pre));
  }

  /* ---------- one argument ---------- */

  // The k-th option of the table is the one that the switch means
  predicate MeansSwitch(table: seq<Opt>, a: char, k: nat) {
    k < |table| && table[k].alias == a && forall i :: 0 <= i < k ==> table[i].alias != a
  }

  // Under one name or abbreviation the table has this option, in the given category
  predicate MeansName(table: seq<Opt>, name: string, o: Opt, unset: bool) {
    IsLongName(name) && Resolve(table, name) == Found(o, unset, None)
  }

  function ArgStep(c: Config, o: Opt, short: bool, unset: bool, optstr: Option<string>, next: Option<string>): Step {
    var t := GetArg(c, o, short, unset, optstr, next);
    if t.Failed? then Stop(BadOption) else Checked(c, o, [], t)
  }

  lemma LongStep(c: Config, name: string, o: Opt, unset: bool, next: Option<string>)
    requires !c.flags.oneShot && MeansName(c.table, name, o, unset)
    ensures StepOf(c, false, 0, None, "--" + name, next) == ArgStep(c, o, false, unset, None, next)
  {
    hide Resolve, GetArg;
    LongSteps(c, name, "", next);
  }

  lemma LongStepWithValue(c: Config, name: string, val: string, o: Opt, unset: bool, next: Option<string>)
    requires !c.flags.oneShot && IsLongName(name) && Resolve(c.table, name + "=" + val) == Found(o, unset, Some(val))
    ensures StepOf(c, false, 0, None, "--" + name + "=" + val, next) == ArgStep(c, o, false, unset, Some(val), next)
  {
    hide Resolve, GetArg;
    LongSteps(c, name, val, next);
  }

  // A switch with the rest of its cluster, which it must take up
  lemma ShortStep(c: Config, a: char, rest: string, k: nat, next: Option<string>)
    requires !c.flags.oneShot && a != '-' && MeansSwitch(c.table, a, k)
    requires var t := GetArg(c, c.table[k], true, false, if rest == "" then None else Some(rest), next);
      t.Took? ==> t.optstr == None
    ensures StepOf(c, false, 0, None, "-" + [a] + rest, next) ==
      ArgStep(c, c.table[k], true, false, if rest == "" then None else Some(rest), next)
  {
    hide FindAlias, GetArg;
    assert "-" + [a] + rest == "-" + ([a] + rest) && ([a] + rest)[1..] == rest;
    assert FindAlias(c.table, a) == k;
    ClusterStep(c, [a] + rest, next);
  }

  /* ---------- an option without a value ---------- */

  // x is the switch or the name of o, and nothing else
  ghost predicate IsBare(c: Config, x: string, o: Opt) {
    || (exists a, k: nat :: a != '-' && MeansSwitch(c.table, a, k) && c.table[k] == o && x == "-" + [a])
    || (exists name :: MeansName(c.table, name, o, false) && x == "--" + name)
  }

  lemma BareStep(c: Config, x: string, o: Opt, next: Option<string>) returns (short: bool)
    requires !c.flags.oneShot && IsBare(c, x, o)
    ensures StepOf(c, false, 0, None, x, next) == ArgStep(c, o, short, false, None, next)
  {
    hide StepOf, ArgStep, Resolve;
    if a, k: nat :| a != '-' && MeansSwitch(c.table, a, k) && c.table[k] == o && x == "-" + [a] {
      short := true;
      assert "-" + [a] + "" == "-" + [a];
      NothingLeftOver(c, o, next);
      ShortStep(c, a, "", k, next);
    } else {
      short := false;
      var name :| MeansName(c.table, name, o, false) && x == "--" + name;
      LongStep(c, name, o, false, next);
    }
  }

  lemma NothingLeftOver(c: Config, o: Opt, next: Option<string>)
    ensures var t := GetArg(c, o, true, false, None, next); t.Took? ==> t.optstr == None
  {
  }

  // "-a" and "--name": a switch stores its default, a count goes up by one, and an optional string gets its default
  lemma BareOption(c: Config, pre: seq<string>, x: string, post: seq<string>, o: Opt)
    requires Reached(c, pre, [x], post) && IsBare(c, x, o)
    ensures o.kind.Integer? && !o.unsigned ==> Stores(c, pre, [x], post, o, SetInt(o.slot, o.defInt))
    ensures o.kind.CountUp? ==> Stores(c, pre, [x], post, o, CountOne(o.slot))
    ensures o.kind.Str? && o.optarg ==> Stores(c, pre, [x], post, o, SetStr(o.slot, o.defStr))
  {
    hide StepOf, Adds, Ends, Run, IsBare, ReadThrough;
    var short := BareStep(c, x, o, Head([x][1..] + post));
    if o.kind.Integer? && !o.unsigned {
      StoresByStep(c, pre, [x], post, o, SetInt(o.slot, o.defInt));
    } else if o.kind.CountUp? {
      StoresByStep(c, pre, [x], post, o, CountOne(o.slot));
    } else if o.kind.Str? && o.optarg {
      StoresByStep(c, pre, [x], post, o, SetStr(o.slot, o.defStr));
    }
  }

  lemma StoresByStep(c: Config, pre: seq<string>, x: seq<string>, post: seq<string>, o: Opt, w: Write)
    requires Reached(c, pre, x, post)
    requires StepOf(c, false, 0, None, x[0], Head(x[1..] + post)) ==
      if o.realpath && !c.regular(w) then Stop(BadOption) else Next(false, [w], None, |x| - 1)
    ensures Stores(c, pre, x, post, o, w)
  {
    hide StepOf, Adds, Ends, Run, ReadThrough;
    if o.realpath && !c.regular(w) {
      EndsByStep(c, pre, x, post, BadOption);
    } else {
      AddsByStep(c, pre, x, post, [w]);
    }
  }

  // The negated name: a switch stores 0, a string is taken away, and a count still goes up
  lemma NegatedOption(c: Config, pre: seq<string>, name: string, post: seq<string>, o: Opt)
    requires Reached(c, pre, ["--" + name], post) && MeansName(c.table, name, o, true) && o.alloneg
    ensures o.kind.Integer? && !o.unsigned ==> Stores(c, pre, ["--" + name], post, o, SetInt(o.slot, 0))
    ensures o.kind.Str? ==> Stores(c, pre, ["--" + name], post, o, SetStr(o.slot, None))
    ensures o.kind.CountUp? ==> Stores(c, pre, ["--" + name], post, o, CountOne(o.slot))
  {
    hide StepOf, Adds, Ends, Run, Resolve, ReadThrough;
    var x := ["--" + name];
    LongStep(c, name, o, true, Head(x[1..] + post));
    if o.kind.Integer? && !o.unsigned {
      StoresByStep(c, pre, x, post, o, SetInt(o.slot, 0));
    } else if o.kind.Str? {
      StoresByStep(c, pre, x, post, o, SetStr(o.slot, None));
    } else if o.kind.CountUp? {
      StoresByStep(c, pre, x, post, o, CountOne(o.slot));
    }
  }

  /* ---------- an option with a value ---------- */

  // x gives o the value val, attached to the switch or the name
  ghost predicate Attaches(c: Config, x: seq<string>, o: Opt, val: string) {
    || (exists a, k: nat :: a != '-' && MeansSwitch(c.table, a, k) && c.table[k] == o
          && val != "" && x == ["-" + [a] + val])
    || (exists name :: IsLongName(name) && Resolve(c.table, name + "=" + val) == Found(o, false, Some(val))
          && !o.noarg && x == ["--" + name + "=" + val])
  }

  // or as the argument after it
  ghost predicate Precedes(c: Config, x: seq<string>, o: Opt, val: string) {
    exists y :: IsBare(c, y, o) && x == [y, val]
  }

  lemma AttachedStep(c: Config, x: seq<string>, o: Opt, val: string, next: Option<string>) returns (short: bool)
    requires !c.flags.oneShot && Attaches(c, x, o, val) && (o.kind.Str? || o.kind.Filename? || IsUnsigned(o))
    ensures |x| == 1 && (short || !o.noarg)
    ensures StepOf(c, false, 0, None, x[0], next) == ArgStep(c, o, short, false, Some(val), next)
  {
    hide StepOf, ArgStep, Resolve;
    if a, k: nat :| a != '-' && MeansSwitch(c.table, a, k) && c.table[k] == o && val != "" && x == ["-" + [a] + val] {
      short := true;
      ValueIsTaken(c, o, val, next);
      ShortStep(c, a, val, k, next);
    } else {
      short := false;
      var name :| IsLongName(name) && Resolve(c.table, name + "=" + val) == Found(o, false, Some(val))
          && !o.noarg && x == ["--" + name + "=" + val];
      LongStepWithValue(c, name, val, o, false, next);
    }
  }

  lemma AttachedIsOne(c: Config, x: seq<string>, o: Opt, val: string)
    requires Attaches(c, x, o, val)
    ensures |x| == 1
  {
  }

  predicate IsUnsigned(o: Opt) {
    o.kind.Integer? && o.unsigned
  }

  lemma ValueIsTaken(c: Config, o: Opt, val: string, next: Option<string>)
    requires o.kind.Str? || o.kind.Filename? || IsUnsigned(o)
    ensures var t := GetArg(c, o, true, false, Some(val), next); t.Took? ==> t.optstr == None
  {
  }

  // "-aVAL", "-a VAL", "--name=VAL" and "--name VAL": a string and a path store VAL. An optional string takes it only
  // when it is attached. What should be a number is refused if it is one, and stored if it is none in no case.
  lemma ValuedOption(c: Config, pre: seq<string>, x: seq<string>, post: seq<string>, o: Opt, val: string)
    requires Reached(c, pre, x, post) && (Attaches(c, x, o, val) || (Precedes(c, x, o, val) && !o.optarg))
    ensures o.kind.Str? ==> Stores(c, pre, x, post, o, SetStr(o.slot, Some(val)))
    ensures o.kind.Filename? ==> Stores(c, pre, x, post, o, SetPath(o.slot, val))
    ensures IsUnsigned(o) && !o.realpath && B.Strtou(val).None? ==> Adds(c, pre, x, post, [])
    ensures IsUnsigned(o) && B.Strtou(val).Some? ==> Ends(c, pre, x, post, BadOption)
  {
    hide StepOf, Adds, Ends, Run, Attaches, Precedes, IsBare, ReadThrough, B.Strtou;
    if o.kind.Str? || o.kind.Filename? || IsUnsigned(o) {
      ValuedStep(c, x, post, o, val);
      if o.kind.Str? {
        StoresByStep(c, pre, x, post, o, SetStr(o.slot, Some(val)));
      } else if o.kind.Filename? {
        StoresByStep(c, pre, x, post, o, SetPath(o.slot, val));
      } else if B.Strtou(val).Some? {
        EndsByStep(c, pre, x, post, BadOption);
      } else if !o.realpath {
        AddsByStep(c, pre, x, post, []);
      }
    }
  }

  lemma ValuedStep(c: Config, x: seq<string>, post: seq<string>, o: Opt, val: string)
    requires !c.flags.oneShot && (Attaches(c, x, o, val) || (Precedes(c, x, o, val) && !o.optarg))
    requires o.kind.Str? || o.kind.Filename? || IsUnsigned(o)
    ensures x != []
    ensures StepOf(c, false, 0, None, x[0], Head(x[1..] + post)) ==
      if IsUnsigned(o) then
        if B.Strtou(val).Some? || o.realpath then Stop(BadOption) else Next(false, [], None, |x| - 1)
      else
        var w := if o.kind.Str? then SetStr(o.slot, Some(val)) else SetPath(o.slot, val);
        if o.realpath && !c.regular(w) then Stop(BadOption) else Next(false, [w], None, |x| - 1)
  {
    hide StepOf, Attaches, IsBare, B.Strtou;
    if Attaches(c, x, o, val) {
      AttachedIsOne(c, x, o, val);
      var short := AttachedStep(c, x, o, val, Head(x[1..] + post));
    } else {
      var y :| IsBare(c, y, o) && x == [y, val];
      assert x[1..] + post == [val] + post;
      var short := BareStep(c, y, o, Some(val));
    }
  }

  /* ---------- what ends a run ---------- */

  // A value where there may be none, and none where there must be one
  lemma RefusedOption(c: Config, pre: seq<string>, name: string, val: string, post: seq<string>, o: Opt, unset: bool)
    requires IsLongName(name) && Resolve(c.table, name + "=" + val) == Found(o, unset, Some(val)) && (unset || o.noarg)
    requires Reached(c, pre, ["--" + name + "=" + val], post)
    ensures Ends(c, pre, ["--" + name + "=" + val], post, BadOption)
  {
    hide StepOf, Ends, Run, Resolve, ReadThrough;
    var x := ["--" + name + "=" + val];
    LongStepWithValue(c, name, val, o, unset, Head(x[1..] + post));
    EndsByStep(c, pre, x, post, BadOption);
  }

  lemma MissingValue(c: Config, pre: seq<string>, x: string, o: Opt)
    requires Reached(c, pre, [x], []) && IsBare(c, x, o) && NeedsValue(o)
    ensures Ends(c, pre, [x], [], BadOption)
  {
    hide StepOf, Ends, Run, IsBare, ReadThrough;
    var short := BareStep(c, x, o, None);
    assert [x][1..] + [] == [];
    EndsByStep(c, pre, [x], [], BadOption);
  }

  // An unknown option is an error, an ambiguous one asks for help
  lemma UnresolvedOption(c: Config, pre: seq<string>, name: string, post: seq<string>)
    requires Reached(c, pre, ["--" + name], post) && IsLongName(name)
    ensures (forall i :: 0 <= i < |c.table| ==> Classify(c.table[i], name).NoHit?) ==>
      Ends(c, pre, ["--" + name], post, UnknownOption)
    ensures !SomeSpells(c.table, name) && TwoPass(c.table, AbbreviatedBy(name)) ==>
      Ends(c, pre, ["--" + name], post, WantsHelp)
  {
    hide StepOf, Ends, Run, Resolve, ReadThrough, Classify;
    var x := ["--" + name];
    ResolutionMeans(c.table, name);
    LongSteps(c, name, "", Head(x[1..] + post));
    if Resolve(c.table, name).Unknown? {
      EndsByStep(c, pre, x, post, UnknownOption);
    } else if Resolve(c.table, name).Ambiguous? {
      EndsByStep(c, pre, x, post, WantsHelp);
    }
  }

  // A switch that no option has is an error, but 'h' asks for help unless that is turned off
  lemma UnknownSwitch(c: Config, pre: seq<string>, a: char, rest: string, post: seq<string>)
    requires Reached(c, pre, ["-" + [a] + rest], post) && a != '-'
    requires forall i :: 0 <= i < |c.table| ==> c.table[i].alias != a
    ensures a == 'h' && !c.flags.noShortHelp ==> Ends(c, pre, ["-" + [a] + rest], post, WantsHelp)
    ensures a != 'h' || c.flags.noShortHelp ==> Ends(c, pre, ["-" + [a] + rest], post, UnknownOption)
  {
    hide StepOf, Ends, Run, ReadThrough, FindAlias;
    var x := ["-" + [a] + rest];
    assert x[0] == "-" + ([a] + rest);
    assert FindAlias(c.table, a) == |c.table|;
    ClusterStep(c, [a] + rest, Head(x[1..] + post));
    EndsByStep(c, pre, x, post, if a == 'h' && !c.flags.noShortHelp then WantsHelp else UnknownOption);
  }

  // "--help" asks for help anywhere, and "-h" alone even if an option has that switch
  lemma HelpIsWanted(c: Config, pre: seq<string>, post: seq<string>)
    ensures Reached(c, pre, ["--help"], post) ==> Ends(c, pre, ["--help"], post, WantsHelp)
    ensures !c.flags.oneShot && !c.flags.noShortHelp ==> ParseRun(c, ["-h"]) == Exited(WantsHelp)
  {
    hide Ends, ReadThrough;
    if Reached(c, pre, ["--help"], post) {
      hide Run;
      EndsByStep(c, pre, ["--help"], post, WantsHelp);
    }
  }

  // Behind "--" everything is given back and nothing is stored
  lemma MarkerEndsOptions(c: Config, pre: seq<string>, post: seq<string>)
    requires Reached(c, pre, ["--"], post)
    ensures var r, p := ParseRun(c, pre + ["--"] + post), Run(c, false, 0, None, pre);
      p.Returned? && r.Returned? && r.output == p.output + post && r.writes == p.writes
  {
    hide ReadThrough;
    RunFromStep(c, pre, ["--"], post);
    ReadThroughReturns(Run(c, false, 0, None, pre));
    assert [] + post == post && (["--"] + post)[1..] == post && ["--"][1..] + post == post;
    assert StepOf(c, false, 0, None, "--", Head(post)) == Finish(true);
    assert Run(c, false, 0, None, ["--"] + post) == Finished(true, ["--"] + post);
  }

  // An operand is kept, or ends the options, or is an error, as the flags say
  lemma OperandIsKept(c: Config, pre: seq<string>, arg: string, post: seq<string>)
    requires Reached(c, pre, [arg], post) && !IsDash(arg)
    ensures c.flags.abortNonOption ==> Ends(c, pre, [arg], post, NonOption)
    ensures !c.flags.abortNonOption ==>
      var r, p, q := ParseRun(c, pre + [arg] + post), Run(c, false, 0, None, pre), Run(c, false, 0, None, post);
      && p.Returned?
      && (c.flags.untilNonOption ==> r.Returned? && r.output == p.output + [arg] + post && r.writes == p.writes)
      && (!c.flags.untilNonOption && q.Exited? ==> r == q)
      && (!c.flags.untilNonOption && q.Returned? ==>
            r.Returned? && r.output == p.output + [arg] + q.output && r.writes == p.writes + q.writes)
  {
    hide Run, ReadThrough, Ends, StepOf, Joined, After, Finished;
    OperandStep(c, arg, Head(post));
    RunFromStep(c, pre, [arg], post);
    ReadThroughReturns(Run(c, false, 0, None, pre));
    assert [arg][1..] + post == post && post[0..] == post;
    if c.flags.abortNonOption {
      EndsByStep(c, pre, [arg], post, NonOption);
    } else if c.flags.untilNonOption {
      OperandFinishes(c, Run(c, false, 0, None, pre), arg, post);
    } else {
      RunNext(c, 0, arg, post);
      OperandInOrder(Run(c, false, 0, None, pre), arg, post, Run(c, false, 0, None, post));
    }
  }

  lemma OperandInOrder(p: Outcome, arg: string, post: seq<string>, q: Outcome)
    requires p.Returned?
    ensures var r := Joined(p, After(true, [], 0, [arg] + post, q));
      if q.Exited? then r == q
      else r.Returned? && r.output == p.output + [arg] + q.output && r.writes == p.writes + q.writes
  {
    if q.Returned? {
      assert p.output + ([arg] + q.output) == p.output + [arg] + q.output && [] + q.writes == q.writes;
    }
  }

  lemma OperandStep(c: Config, arg: string, next: Option<string>)
    requires !c.flags.oneShot && !IsDash(arg)
    ensures StepOf(c, false, 0, None, arg, next) ==
      if c.flags.abortNonOption then Stop(NonOption)
      else if c.flags.untilNonOption then Finish(false)
      else Next(true, [], None, 0)
  {
  }

  lemma OperandFinishes(c: Config, p: Outcome, arg: string, post: seq<string>)
    requires !IsDash(arg) && c.flags.untilNonOption && !c.flags.abortNonOption && !c.flags.oneShot && p.Returned?
    ensures var r := Joined(p, Run(c, false, 0, None, [arg] + post));
      r.Returned? && r.output == p.output + [arg] + post && r.writes == p.writes
  {
    assert p.output + ([arg] + post) == p.output + [arg] + post && p.writes + [] == p.writes;
  }

  // In one-shot mode the first argument is read as if it stood alone, and all behind it are given back
  lemma OneShotReadsOne(c: Config, x: string, post: seq<string>)
    requires c.flags.oneShot && post != [] && x != "-h"
    ensures var p, r := ParseRun(c, [x]), ParseRun(c, [x] + post);
      p.Returned? ==> r.Returned? && r.output == p.output + post && r.writes == p.writes
  {
    hide StepOf;
    var args := [x] + post;
    assert args[0] == x && args[1..] == post && args[1 + 0..] == post && [x][1..] == [];
    FirstAlike(c, x, None);
    FirstAlike(c, x, Head(post));
    var s := StepOf(c, false, 0, None, x, None);
    if s.Next? {
      StepFits(c, false, 0, None, [x]);
      StepIgnoresNext(c, false, 0, None, x, Head(post));
      SecondIsFinish(c, s.optstr, post);
      assert Run(c, true, 1, s.optstr, []) == Returned([], [], []);
      assert ParseRun(c, [x]) == After(s.kept, s.writes, 0, [x], Returned([], [], []));
      assert (if s.kept then [x] else []) + [] == if s.kept then [x] else [];
    } else if s.Finish? {
      FinishIgnoresNext(c, x, Head(post));
      assert [x] + post == args && [] + post == post;
    }
  }

  lemma FirstAlike(c: Config, x: string, next: Option<string>)
    requires x != "-h"
    ensures StepOf(c, true, 0, None, x, next) == StepOf(c, false, 0, None, x, next)
  {
    hide Switches, Long;
  }

  lemma FinishIgnoresNext(c: Config, x: string, next: Option<string>)
    requires StepOf(c, false, 0, None, x, None).Finish?
    ensures StepOf(c, false, 0, None, x, next) == StepOf(c, false, 0, None, x, None)
  {
    hide Switches, Long;
  }

  lemma SecondIsFinish(c: Config, optstr: Option<string>, post: seq<string>)
    requires c.flags.oneShot && post != []
    ensures Run(c, false, 1, optstr, post) == Returned(Repeat(Rest, |post|), post, [])
  {
    hide Switches, Long;
  }

  /* ---------- full names ---------- */

  // The name of an option, and the name behind "no-", each alone and with a value, when no option before it has them
  lemma FullNames(table: seq<Opt>, k: nat, val: string)
    requires AllWithoutEquals(table) && k < |table| && table[k].name != ""
    ensures var o := table[k];
      && (IsFirstSpelling(table, o.name, k) ==>
            Resolve(table, o.name) == Found(o, false, None)
            && Resolve(table, o.name + "=" + val) == Found(o, false, Some(val)))
      && (o.alloneg && IsFirstSpelling(table, NO + o.name, k) ==>
            Resolve(table, NO + o.name) == Found(o, true, None)
            && Resolve(table, NO + o.name + "=" + val) == Found(o, true, Some(val)))
  {
    hide Classify, Resolve;
    var o := table[k];
    FullName(table, k, o.name, val);
    FullName(table, k, NO + o.name, val);
  }

  lemma FullName(table: seq<Opt>, k: nat, name: string, val: string)
    requires AllWithoutEquals(table) && NoEquals(name) && name != ""
    ensures IsFirstSpelling(table, name, k) ==>
      var o := table[k];
      && Resolve(table, name) == Found(o, !AsNamed(o, name), None)
      && Resolve(table, name + "=" + val) == Found(o, !AsNamed(o, name), Some(val))
  {
    if IsFirstSpelling(table, name, k) {
      hide Classify, Resolve;
      assert FirstSpelling(table, name) == k;
      ResolveWithValue(table, name, val);
      EqualsParts(name, val);
      SpellsUnset(table[k], name);
    }
  }

  lemma SpellsUnset(o: Opt, name: string)
    requires NoEquals(o.name) && NoEquals(name) && Classify(o, name).Spells?
    ensures UnsetOf(Classify(o, name)) == !AsNamed(o, name)
  {
    EqualsParts(name, "");
    SpellsExactly(o, name);
  }
}
