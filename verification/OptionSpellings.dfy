/** Different spellings of the same options have the same effect over whole runs. */
module OptionSpellings {
  import opened Wrappers
  import opened LongOption
  import opened OptionRun
  import S = StrList

  // The runs differ at most in how many arguments the options took up
  ghost predicate SameEffect(r: Outcome, r': Outcome) {
    match r
    case Exited(why) => r' == Exited(why)
    case Returned(_, output, writes) => r'.Returned? && r'.output == output && r'.writes == writes
  }

  // Every option that takes no argument says so; the option macros of parse-option.h see to it
  ghost predicate WellFormed(table: seq<Opt>) {
    forall i :: 0 <= i < |table| && ((table[i].kind.Integer? && !table[i].unsigned) || table[i].kind.CountUp?) ==>
      table[i].noarg
  }

  // No argument ever leaves a value behind for the next
  lemma {:induction false} SwitchesLeaveNothing(c: Config, cluster: string, next: Option<string>, writes: seq<Write>)
    ensures var r := Switches(c, cluster, next, writes); r.Next? ==> r.optstr == None
    decreases |cluster|
  {
    hide FindAlias, GetArg;
    if cluster != "" && FindAlias(c.table, cluster[0]) < |c.table| {
      SwitchesLeaveNothing(c, cluster[1..], next,
        writes + GetArgWrites(c, c.table[FindAlias(c.table, cluster[0])], cluster, next));
    }
  }

  // The writes of the first switch of a cluster
  function GetArgWrites(c: Config, o: Opt, cluster: string, next: Option<string>): seq<Write>
    requires cluster != ""
  {
    var t := GetArg(c, o, true, false, if |cluster| > 1 then Some(cluster[1..]) else None, next);
    if t.Took? then t.writes else []
  }

  lemma StepLeavesNothing(c: Config, lone: bool, pos: nat, arg: string, next: Option<string>)
    requires WellFormed(c.table)
    ensures var r := StepOf(c, lone, pos, None, arg, next); r.Next? ==> r.optstr == None
  {
    hide Resolve, Switches;
    if |arg| > 1 {
      SwitchesLeaveNothing(c, arg[1..], next, []);
    }
    if |arg| > 2 {
      FoundInTable(c.table, arg[2..]);
    }
    if |arg| == 1 {
      SwitchesLeaveNothing(c, arg[1..], next, []);
    }
  }

  // An argument that was satisfied without a successor does not look at one
  lemma {:induction false} SwitchesIgnoreNext(c: Config, cluster: string, next: Option<string>, writes: seq<Write>)
    requires Switches(c, cluster, None, writes).Next?
    ensures Switches(c, cluster, next, writes) == Switches(c, cluster, None, writes)
    decreases |cluster|
  {
    hide FindAlias;
    var k := FindAlias(c.table, cluster[0]);
    var optstr := if |cluster| > 1 then Some(cluster[1..]) else None;
    var t := GetArg(c, c.table[k], true, false, optstr, None);
    if t.Took? && t.optstr.Some? {
      SwitchesIgnoreNext(c, cluster[1..], next, writes + t.writes);
    }
  }

  lemma StepIgnoresNext(c: Config, lone: bool, pos: nat, optstr: Option<string>, arg: string, next: Option<string>)
    requires StepOf(c, lone, pos, optstr, arg, None).Next?
    ensures StepOf(c, lone, pos, optstr, arg, next) == StepOf(c, lone, pos, optstr, arg, None)
  {
    hide Resolve, Switches;
    if IsDash(arg) && Switches(c, arg[1..], None, []).Next? {
      SwitchesIgnoreNext(c, arg[1..], next, []);
    }
  }

  /* ---------- a run may be cut in two ---------- */

  // The arguments are read through: no end marker, no early end, no missing value
  ghost predicate ReadThrough(r: Outcome) {
    r.Returned? && forall i :: 0 <= i < |r.roles| ==> !r.roles[i].Marker? && !r.roles[i].Rest?
  }

  function Joined(r: Outcome, rest: Outcome): Outcome
    requires r.Returned?
  {
    if rest.Exited? then rest
    else Returned(r.roles + rest.roles, r.output + rest.output, r.writes + rest.writes)
  }

  lemma {:induction false} RunAppend(c: Config, pos: nat, pos': nat, pre: seq<string>, q: seq<string>)
    requires WellFormed(c.table) && !c.flags.oneShot
    requires ReadThrough(Run(c, false, pos, None, pre))
    ensures Run(c, false, pos, None, pre + q) == Joined(Run(c, false, pos, None, pre), Run(c, false, pos', None, q))
    decreases |pre|
  {
    hide StepOf, After, Joined, ReadThrough;
    if pre == [] {
      assert pre + q == q;
      PositionIsIrrelevant(c, pos, pos', None, q);
      NothingJoined(Run(c, false, pos', None, q));
    } else {
      var step := StepOf(c, false, pos, None, pre[0], Head(pre[1..]));
      StepInFront(c, pos, pre, q);
      var used := step.used;
      assert (pre + q)[1 + used..] == pre[1 + used..] + q;
      var rest := Run(c, false, pos + 1 + used, None, pre[1 + used..]);
      assert Run(c, false, pos, None, pre) == After(step.kept, step.writes, used, pre, rest);
      RestReadThrough(step.kept, step.writes, used, pre, rest);
      RunAppend(c, pos + 1 + used, pos', pre[1 + used..], q);
      AfterJoined(step.kept, step.writes, used, pre, q, rest, Run(c, false, pos', None, q));
    }
  }

  lemma NothingJoined(r: Outcome)
    ensures Joined(Returned([], [], []), r) == r
  {
    if r.Returned? {
      assert [] + r.roles == r.roles && [] + r.output == r.output && [] + r.writes == r.writes;
    }
  }

  lemma RestReadThrough(kept: bool, writes: seq<Write>, used: nat, args: seq<string>, rest: Outcome)
    requires args != [] && ReadThrough(After(kept, writes, used, args, rest))
    ensures ReadThrough(rest) && rest.Returned?
  {
    var r := After(kept, writes, used, args, rest);
    forall i | 0 <= i < |rest.roles|
      ensures rest.roles[i] == r.roles[1 + used + i]
    {
    }
  }

  lemma AfterJoined(kept: bool, writes: seq<Write>, used: nat, pre: seq<string>, q: seq<string>,
                    rest: Outcome, end: Outcome)
    requires pre != [] && rest.Returned?
    ensures After(kept, writes, used, pre + q, Joined(rest, end)) == Joined(After(kept, writes, used, pre, rest), end)
  {
    if end.Returned? {
      var out := if kept then [pre[0]] else [];
      assert out + (rest.output + end.output) == out + rest.output + end.output;
      assert writes + (rest.writes + end.writes) == writes + rest.writes + end.writes;
      var roles := [if kept then Operand else OptionWord] + Repeat(OptionValue, used);
      assert roles + (rest.roles + end.roles) == roles + rest.roles + end.roles;
    }
  }

  lemma FinishedIsNotThrough(marker: bool, args: seq<string>)
    requires args != []
    ensures !ReadThrough(Finished(marker, args))
  {
    assert Finished(marker, args).roles[0] == if marker then Marker else Rest;
  }

  // The first argument is read alike, whatever stands after pre
  lemma StepInFront(c: Config, pos: nat, pre: seq<string>, q: seq<string>)
    requires WellFormed(c.table) && pre != [] && ReadThrough(Run(c, false, pos, None, pre))
    ensures var step := StepOf(c, false, pos, None, pre[0], Head(pre[1..]));
      && step.Next? && step.optstr == None && 1 + step.used <= |pre|
      && step == StepOf(c, false, pos, None, (pre + q)[0], Head((pre + q)[1..]))
  {
    hide StepOf;
    var step := StepOf(c, false, pos, None, pre[0], Head(pre[1..]));
    FinishedIsNotThrough(true, pre);
    FinishedIsNotThrough(false, pre);
    StepLeavesNothing(c, false, pos, pre[0], Head(pre[1..]));
    StepFits(c, false, pos, None, pre);
    if |pre| == 1 {
      StepIgnoresNext(c, false, pos, None, pre[0], Head((pre + q)[1..]));
    } else {
      assert (pre + q)[1] == pre[1];
    }
  }

  // Neither the position nor being alone counts for an argument other than "-h" without one-shot mode
  lemma StepAlike(c: Config, lone: bool, pos: nat, pos': nat, optstr: Option<string>, arg: string, next: Option<string>)
    requires !c.flags.oneShot && (lone ==> arg != "-h")
    ensures StepOf(c, lone, pos, optstr, arg, next) == StepOf(c, false, pos', optstr, arg, next)
  {
    hide Switches, Long;
  }

  lemma {:induction false} PositionIsIrrelevant(c: Config, pos: nat, pos': nat, optstr: Option<string>,
                                                args: seq<string>)
    requires !c.flags.oneShot
    ensures Run(c, false, pos, optstr, args) == Run(c, false, pos', optstr, args)
    decreases |args|
  {
    hide StepOf, After, Finished, Head;
    if args != [] {
      var step := StepOf(c, false, pos, optstr, args[0], Head(args[1..]));
      StepAlike(c, false, pos, pos', optstr, args[0], Head(args[1..]));
      if step.Next? {
        StepFits(c, false, pos, optstr, args);
        PositionIsIrrelevant(c, pos + 1 + step.used, pos' + 1 + step.used, step.optstr, args[1 + step.used..]);
      }
    }
  }

  lemma AloneIsIrrelevant(c: Config, args: seq<string>)
    requires !c.flags.oneShot && args != [] && args[0] != "-h"
    ensures ParseRun(c, args) == Run(c, false, 0, None, args)
  {
    hide StepOf;
    if |args| == 1 {
      var step := StepOf(c, true, 0, None, args[0], Head(args[1..]));
      StepAlike(c, true, 0, 0, None, args[0], Head(args[1..]));
      if step.Next? {
        StepFits(c, true, 0, None, args);
        assert args[1 + step.used..] == [];
        assert Run(c, true, 1 + step.used, step.optstr, []) == Run(c, false, 1 + step.used, step.optstr, []);
      }
    }
  }

  // Replacing one spelling by another in the middle of a command line
  lemma InContext(c: Config, pre: seq<string>, x: seq<string>, y: seq<string>, post: seq<string>)
    requires WellFormed(c.table) && !c.flags.oneShot && ReadThrough(Run(c, false, 0, None, pre))
    requires x != [] && y != [] && x[0] != "-h" && (y[0] != "-h" || |y| > 1)
    requires SameEffect(Run(c, false, 0, None, x + post), Run(c, false, 0, None, y + post))
    ensures SameEffect(ParseRun(c, pre + x + post), ParseRun(c, pre + y + post))
  {
    hide Run;
    assert pre + x + post == pre + (x + post) && pre + y + post == pre + (y + post);
    RunAppend(c, 0, 0, pre, x + post);
    RunAppend(c, 0, 0, pre, y + post);
    NotAlone(c, pre, x, post);
    NotAlone(c, pre, y, post);
  }

  lemma NotAlone(c: Config, pre: seq<string>, x: seq<string>, post: seq<string>)
    requires !c.flags.oneShot && x != [] && (x[0] != "-h" || |x| > 1)
    ensures ParseRun(c, pre + x + post) == Run(c, false, 0, None, pre + x + post)
  {
    hide Run;
    var args := pre + x + post;
    if |args| == 1 {
      assert args[0] == x[0];
      AloneIsIrrelevant(c, args);
    }
  }

  /* ---------- clusters ---------- */

  // An option that takes no argument in a cluster
  predicate TakesNone(o: Opt) {
    ((o.kind.Integer? && !o.unsigned) || o.kind.CountUp?) && !o.realpath
  }

  lemma {:induction false} EarlierWrites(c: Config, cluster: string, next: Option<string>, w: seq<Write>, x: seq<Write>)
    ensures var r, r' := Switches(c, cluster, next, w + x), Switches(c, cluster, next, x);
      r == if r'.Next? then r'.(writes := w + r'.writes) else r'
    decreases |cluster|
  {
    hide FindAlias, GetArg;
    if cluster != "" && FindAlias(c.table, cluster[0]) < |c.table| {
      var o := c.table[FindAlias(c.table, cluster[0])];
      var t := GetArg(c, o, true, false, if |cluster| > 1 then Some(cluster[1..]) else None, next);
      if t.Took? {
        assert w + x + t.writes == w + (x + t.writes);
        EarlierWrites(c, cluster[1..], next, w, x + t.writes);
      }
    }
  }

  // How the run goes on after its first argument
  lemma RunNext(c: Config, pos: nat, arg: string, post: seq<string>)
    requires !c.flags.oneShot
    ensures var step := StepOf(c, false, 0, None, arg, Head(post));
      && (step.Stop? ==> Run(c, false, pos, None, [arg] + post) == Exited(step.why))
      && (step.Next? ==> (step.used <= |post| && Run(c, false, pos, None, [arg] + post) ==
            After(step.kept, step.writes, step.used, [arg] + post, Run(c, false, 0, step.optstr, post[step.used..]))))
  {
    hide StepOf;
    var args := [arg] + post;
    assert args[0] == arg && args[1..] == post;
    StepAlike(c, false, pos, 0, None, arg, Head(post));
    var step := StepOf(c, false, 0, None, arg, Head(post));
    if step.Next? {
      StepFits(c, false, 0, None, args);
      assert args[1 + step.used..] == post[step.used..];
      PositionIsIrrelevant(c, pos + 1 + step.used, 0, step.optstr, post[step.used..]);
    }
  }

  // An argument that begins with one hyphen is a cluster
  lemma ClusterStep(c: Config, cluster: string, next: Option<string>)
    requires !c.flags.oneShot && cluster != "" && cluster[0] != '-'
    ensures StepOf(c, false, 0, None, "-" + cluster, next) == Switches(c, cluster, next, [])
  {
    hide Switches;
    assert ("-" + cluster)[1..] == cluster;
  }

  // A plain switch takes nothing, and the cluster goes on after it
  lemma PlainSwitchFirst(c: Config, a: char, rest: string, next: Option<string>) returns (w: seq<Write>)
    requires IsPlainSwitch(c, a)
    ensures rest != "" ==> Switches(c, [a] + rest, next, []) == Switches(c, rest, next, w + [])
    ensures forall n :: Switches(c, [a], n, []) == Next(false, w, None, 0)
  {
    hide FindAlias;
    w := GetArg(c, c.table[FindAlias(c.table, a)], true, false, None, None).writes;
    assert ([a] + rest)[1..] == rest && [] + w == w && w + [] == w;
  }

  // One switch may be split off a cluster
  lemma ClusterSteps(c: Config, a: char, rest: string, next: Option<string>)
    requires IsPlainSwitch(c, a) && rest != "" && rest[0] != '-' && !c.flags.oneShot
    ensures var joined := StepOf(c, false, 0, None, "-" + [a] + rest, next);
      var first := StepOf(c, false, 0, None, "-" + [a], Some("-" + rest));
      var second := StepOf(c, false, 0, None, "-" + rest, next);
      && first.Next? && !first.kept && first.optstr == None && first.used == 0
      && first == StepOf(c, false, 0, None, "-" + [a], None)
      && joined == (if second.Next? then second.(writes := first.writes + second.writes) else second)
      && (second.Next? ==> !second.kept) && !second.Finish?
  {
    hide Switches, StepOf, FindAlias;
    assert "-" + [a] + rest == "-" + ([a] + rest);
    ClusterStep(c, [a] + rest, next);
    ClusterStep(c, [a], Some("-" + rest));
    ClusterStep(c, [a], None);
    ClusterStep(c, rest, next);
    var w := PlainSwitchFirst(c, a, rest, next);
    EarlierWrites(c, rest, next, w, []);
  }

  lemma SplitSwitch(c: Config, a: char, rest: string, post: seq<string>)
    requires IsPlainSwitch(c, a) && rest != "" && rest[0] != '-' && !c.flags.oneShot
    ensures SameEffect(Run(c, false, 0, None, ["-" + [a] + rest] + post),
                       Run(c, false, 0, None, ["-" + [a], "-" + rest] + post))
  {
    hide StepOf, Run, FindAlias;
    var joined, first, second := "-" + [a] + rest, "-" + [a], "-" + rest;
    ClusterSteps(c, a, rest, Head(post));
    RunNext(c, 0, joined, post);
    RunNext(c, 0, first, [second] + post);
    RunNext(c, 0, second, post);
    assert [first, second] + post == [first] + ([second] + post);
    assert ([second] + post)[0..] == [second] + post && Head([second] + post) == Some(second);
    var s1, s2 := StepOf(c, false, 0, None, first, Some(second)), StepOf(c, false, 0, None, second, Head(post));
    if s2.Next? {
      var end := Run(c, false, 0, s2.optstr, post[s2.used..]);
      SameWrites(s1.writes, s2.writes, s2.used, joined, first, second, post, end);
    }
  }

  lemma SameWrites(w1: seq<Write>, w2: seq<Write>, used: nat, joined: string, first: string, second: string,
                   post: seq<string>, end: Outcome)
    ensures SameEffect(After(false, w1 + w2, used, [joined] + post, end),
                       After(false, w1, 0, [first] + ([second] + post), After(false, w2, used, [second] + post, end)))
  {
    if end.Returned? {
      assert w1 + (w2 + end.writes) == w1 + w2 + end.writes;
    }
  }

  predicate IsPlainSwitch(c: Config, a: char) {
    var k := FindAlias(c.table, a);
    a != '-' && k < |c.table| && TakesNone(c.table[k])
  }

  // A whole cluster of switches without arguments equals the separate switches
  function Separate(cluster: string): seq<string> {
    if cluster == "" then [] else ["-" + [cluster[0]]] + Separate(cluster[1..])
  }

  lemma {:induction false} ClusterIsSeparate(c: Config, cluster: string, post: seq<string>)
    requires cluster != "" && !c.flags.oneShot
    requires forall i :: 0 <= i < |cluster| ==> IsPlainSwitch(c, cluster[i])
    ensures SameEffect(Run(c, false, 0, None, ["-" + cluster] + post), Run(c, false, 0, None, Separate(cluster) + post))
    decreases |cluster|
  {
    hide Run, FindAlias, StepOf, TakesNone;
    if |cluster| == 1 {
      assert cluster == [cluster[0]] && Separate(cluster) == ["-" + cluster] + Separate(cluster[1..]);
      assert Separate(cluster[1..]) == [] && Separate(cluster) == ["-" + cluster];
    } else {
      var a, rest := cluster[0], cluster[1..];
      var first := "-" + [a];
      assert "-" + cluster == "-" + [a] + rest;
      SplitSwitch(c, a, rest, post);
      ClusterIsSeparate(c, rest, post);
      assert [first, "-" + rest] + post == [first] + (["-" + rest] + post);
      assert Separate(cluster) + post == [first] + (Separate(rest) + post);
      ClusterSteps(c, a, rest, Head(post));
      assert Separate(rest)[0] == "-" + [rest[0]];
      SameInFront(c, first, ["-" + rest] + post, Separate(rest) + post);
    }
  }

  // An argument that takes no other argument may stand before two command lines of the same effect
  lemma SameInFront(c: Config, arg: string, q: seq<string>, q': seq<string>)
    requires !c.flags.oneShot
    requires StepOf(c, false, 0, None, arg, None).Next? && StepOf(c, false, 0, None, arg, None).optstr == None
    requires SameEffect(Run(c, false, 0, None, q), Run(c, false, 0, None, q'))
    ensures SameEffect(Run(c, false, 0, None, [arg] + q), Run(c, false, 0, None, [arg] + q'))
  {
    hide Run, StepOf;
    StepIgnoresNext(c, false, 0, None, arg, Head(q));
    StepIgnoresNext(c, false, 0, None, arg, Head(q'));
    RunNext(c, 0, arg, q);
    RunNext(c, 0, arg, q');
    StepFits(c, false, 0, None, [arg]);
    assert [arg][1..] == [] && q[0..] == q && q'[0..] == q';
  }

  lemma ClusterAnywhere(c: Config, pre: seq<string>, cluster: string, post: seq<string>)
    requires WellFormed(c.table) && !c.flags.oneShot && ReadThrough(Run(c, false, 0, None, pre))
    requires |cluster| > 1 && forall i :: 0 <= i < |cluster| ==> IsPlainSwitch(c, cluster[i])
    ensures SameEffect(ParseRun(c, pre + ["-" + cluster] + post), ParseRun(c, pre + Separate(cluster) + post))
  {
    hide Run, IsPlainSwitch;
    ClusterIsSeparate(c, cluster, post);
    var x, y := ["-" + cluster], Separate(cluster);
    assert |x[0]| > 2 && |y| == 1 + |Separate(cluster[1..])| && |Separate(cluster[1..])| > 0;
    InContext(c, pre, x, y, post);
  }

  /* ---------- attached and separate values ---------- */

  // An option that needs a string, a file name or what should be a number
  predicate NeedsValue(o: Opt) {
    (o.kind.Str? && !o.optarg) || o.kind.Filename? || (o.kind.Integer? && o.unsigned)
  }

  // Both spellings are read in one step, with the same writes; the second one takes one more argument
  lemma OneStepEach(c: Config, joined: string, first: string, val: string, post: seq<string>)
    requires !c.flags.oneShot
    requires var s, s' := StepOf(c, false, 0, None, joined, Head(post)), StepOf(c, false, 0, None, first, Some(val));
      && !s.Finish? && (s.Stop? ==> s' == s)
      && (s.Next? ==> !s.kept && s.used == 0 && s' == s.(used := 1))
    ensures SameEffect(Run(c, false, 0, None, [joined] + post), Run(c, false, 0, None, [first, val] + post))
  {
    hide StepOf, Run;
    assert [first, val] + post == [first] + ([val] + post) && ([val] + post)[1..] == post;
    assert Head([val] + post) == Some(val) && post[0..] == post;
    RunNext(c, 0, joined, post);
    RunNext(c, 0, first, [val] + post);
  }

  // "-oVAL" and "-o VAL", for a value that is not empty
  lemma AttachedToSwitch(c: Config, pre: seq<string>, o: char, val: string, post: seq<string>)
    requires WellFormed(c.table) && !c.flags.oneShot && ReadThrough(Run(c, false, 0, None, pre))
    requires o != '-' && val != ""
    requires FindAlias(c.table, o) < |c.table| && NeedsValue(c.table[FindAlias(c.table, o)])
    ensures SameEffect(ParseRun(c, pre + ["-" + [o] + val] + post), ParseRun(c, pre + ["-" + [o], val] + post))
  {
    hide Run, FindAlias, ReadThrough, StepOf, NeedsValue;
    var joined, first := "-" + [o] + val, "-" + [o];
    assert joined == "-" + ([o] + val) && |joined| > 2 && [o] + "" == [o];
    ClusterStep(c, [o] + val, Head(post));
    ClusterStep(c, [o], Some(val));
    SwitchTakesValue(c, o, val, Head(post));
    OneStepEach(c, joined, first, val, post);
    InContext(c, pre, [joined], [first, val], post);
  }

  // A switch that needs a value takes the rest of the cluster, or else the next argument
  lemma SwitchTakesValue(c: Config, o: char, val: string, next: Option<string>)
    requires val != "" && FindAlias(c.table, o) < |c.table| && NeedsValue(c.table[FindAlias(c.table, o)])
    ensures var s, s' := Switches(c, [o] + val, next, []), Switches(c, [o], Some(val), []);
      && !s.Finish? && (s.Stop? ==> s' == s)
      && (s.Next? ==> !s.kept && s.used == 0 && s' == s.(used := 1))
  {
    hide FindAlias;
    assert ([o] + val)[1..] == val;
  }

  lemma {:induction false} FirstSpellingByStem(table: seq<Opt>, arg: string, arg': string)
    requires (forall i :: 0 <= i < |table| ==> NoEquals(table[i].name)) && Stem(arg) == Stem(arg')
    ensures FirstSpelling(table, arg) == FirstSpelling(table, arg')
  {
    hide Classify;
    if table != [] {
      SpelledByStem(table[0], arg, arg');
      FirstSpellingByStem(table[1..], arg, arg');
    }
  }

  lemma SpelledByStem(o: Opt, arg: string, arg': string)
    requires NoEquals(o.name) && Stem(arg) == Stem(arg')
    ensures Classify(o, arg).Spells? == Classify(o, arg').Spells?
    ensures Classify(o, arg).Spells? ==> Classify(o, arg).unset == Classify(o, arg').unset
  {
    if !o.kind.Group? && !o.noemdash {
      SpellsExactly(o, arg);
      SpellsExactly(o, arg');
      hide Classify;
    }
  }

  lemma EqualsParts(name: string, val: string)
    requires NoEquals(name)
    ensures Stem(name) == name && Attached(name) == None
    ensures Stem(name + "=" + val) == name && Attached(name + "=" + val) == Some(val)
  {
    var arg := name + "=" + val;
    assert name[..|name|] == name && arg[..|name|] == name && arg[|name| + 1..] == val;
    S.IndexOfUnique(name, '=', |name|);
    S.IndexOfUnique(arg, '=', |name|);
  }

  // The full name resolves alike with and without a value
  lemma ResolveWithValue(table: seq<Opt>, name: string, val: string)
    requires (forall i :: 0 <= i < |table| ==> NoEquals(table[i].name)) && NoEquals(name)
    requires FirstSpelling(table, name) < |table|
    ensures var o := table[FirstSpelling(table, name)];
      && Resolve(table, name) == Found(o, UnsetOf(Classify(o, name)), None)
      && Resolve(table, name + "=" + val) == Found(o, UnsetOf(Classify(o, name)), Some(val))
  {
    hide Classify;
    var arg := name + "=" + val;
    EqualsParts(name, val);
    FirstSpellingByStem(table, name, arg);
    ValueIsAttached(table, name);
    ValueIsAttached(table, arg);
    SpelledByStem(table[FirstSpelling(table, name)], name, arg);
  }

  // How one option fits the name with and without a value: a plain abbreviation takes the value, a negated one no
  // longer fits
  lemma HitWithValue(o: Opt, name: string, val: string)
    requires NoEquals(o.name) && NoEquals(name) && name != ""
    ensures var hit, hit' := Classify(o, name), Classify(o, name + "=" + val);
      match hit
      case NoHit => hit' == NoHit
      case Spells(unset, value) => value == None && hit' == Spells(unset, Some(val))
      case Abbreviates(unset, attaches) =>
        !attaches && hit' == if AbbreviatesNegation(o, name) then NoHit else Abbreviates(unset, true)
  {
    var arg := name + "=" + val;
    if !o.kind.Group? && !o.noemdash {
      EqualsParts(name, val);
      assert '=' in arg;
      SameBeginning(name, val);
      WholeStem(arg);
      assert NoEquals(NO + EffectiveName(o, arg));
      AbbreviatesExactly(o, name);
      AbbreviatesExactly(o, arg);
      SpellsExactly(o, name);
      SpellsExactly(o, arg);
      hide Classify;
    }
  }

  lemma SameBeginning(name: string, val: string)
    requires name != ""
    ensures NO <= name <==> NO <= name + "=" + val
  {
    assert (name + "=" + val)[|name|] == '=';
  }

  function NegatedBy(name: string): Opt -> bool {
    (o: Opt) => Classify(o, name).Abbreviates? && AbbreviatesNegation(o, name)
  }

  function PlainBy(name: string): Opt -> bool {
    (o: Opt) => Classify(o, name).Abbreviates? && !AbbreviatesNegation(o, name)
  }

  ghost predicate SomeNegated(table: seq<Opt>, name: string) {
    exists i :: 0 <= i < |table| && NegatedBy(name)(table[i])
  }

  // The name is spelled in full, or no negation is abbreviated, or two options are abbreviated plainly
  ghost predicate ReadsAlike(table: seq<Opt>, name: string) {
    SomeSpells(table, name) || !SomeNegated(table, name) || TwoPass(table, PlainBy(name))
  }

  ghost predicate AllWithoutEquals(table: seq<Opt>) {
    forall i :: 0 <= i < |table| ==> NoEquals(table[i].name)
  }

  ghost predicate SameUpToValue(r: Resolution, r': Resolution, val: string) {
    match r
    case Found(o, unset, value) => value == None && r' == Found(o, unset, Some(val))
    case Ambiguous => r' == Ambiguous
    case Unknown => r' == Unknown
  }

  lemma {:induction false} KeptAlike<T>(a: seq<T>, pass: T -> bool, pass': T -> bool)
    requires forall i :: 0 <= i < |a| ==> pass(a[i]) == pass'(a[i])
    ensures S.Kept(a, pass) == S.Kept(a, pass')
  {
    if a != [] {
      KeptAlike(a[..|a| - 1], pass, pass');
    }
  }

  // With a value attached the table offers the plain abbreviations alone
  lemma HitsWithValue(table: seq<Opt>, name: string, val: string)
    requires AllWithoutEquals(table) && NoEquals(name) && name != ""
    ensures var arg := name + "=" + val;
      && (forall i :: 0 <= i < |table| ==> (Classify(table[i], arg).Spells? <==> Classify(table[i], name).Spells?))
      && (forall i :: 0 <= i < |table| ==> (AbbreviatedBy(arg)(table[i]) <==> PlainBy(name)(table[i])))
      && (SomeSpells(table, arg) <==> SomeSpells(table, name))
      && (TwoPass(table, AbbreviatedBy(arg)) <==> TwoPass(table, PlainBy(name)))
      && S.Kept(table, AbbreviatedBy(arg)) == S.Kept(table, PlainBy(name))
  {
    hide Classify, AbbreviatesNegation, S.Kept;
    forall i | 0 <= i < |table|
      ensures var arg := name + "=" + val;
        && (Classify(table[i], arg).Spells? <==> Classify(table[i], name).Spells?)
        && (AbbreviatedBy(arg)(table[i]) <==> PlainBy(name)(table[i]))
    {
      HitWithValue(table[i], name, val);
    }
    KeptAlike(table, AbbreviatedBy(name + "=" + val), PlainBy(name));
  }

  lemma NoSpelling(table: seq<Opt>, arg: string)
    ensures FirstSpelling(table, arg) < |table| <==> SomeSpells(table, arg)
  {
    hide Classify;
  }

  // Without a full spelling the remembered abbreviations decide
  lemma ResolveByAbbreviation(table: seq<Opt>, arg: string)
    requires !SomeSpells(table, arg)
    ensures var abbrevs := S.Kept(table, AbbreviatedBy(arg));
      Resolve(table, arg) ==
        if |abbrevs| >= 2 then Ambiguous
        else if |abbrevs| == 1 then Found(abbrevs[0], UnsetOf(Classify(abbrevs[0], arg)), LeftBy(table, arg))
        else Unknown
  {
    hide Classify, S.Kept, LeftBy;
    NoSpelling(table, arg);
    KeptMembers(table, AbbreviatedBy(arg));
    var abbrevs := S.Kept(table, AbbreviatedBy(arg));
    assert |abbrevs| == 1 ==> abbrevs[0] in abbrevs;
  }

  // What the abbreviations of a name leave behind: nothing without a value, and the value as soon as there is one
  lemma LeftWithValue(table: seq<Opt>, name: string, val: string)
    requires AllWithoutEquals(table) && NoEquals(name) && name != ""
    ensures LeftBy(table, name) == None
    ensures S.Kept(table, PlainBy(name)) != [] ==> LeftBy(table, name + "=" + val) == Some(val)
  {
    hide Classify, AbbreviatesNegation, S.Kept;
    var arg := name + "=" + val;
    EqualsParts(name, val);
    forall i | 0 <= i < |table|
      ensures Classify(table[i], name).Abbreviates? ==> !Classify(table[i], name).attaches
      ensures PlainBy(name)(table[i]) ==> Classify(table[i], arg).Abbreviates? && Classify(table[i], arg).attaches
    {
      HitWithValue(table[i], name, val);
    }
    KeptMembers(table, PlainBy(name));
    var plain := S.Kept(table, PlainBy(name));
    if plain != [] {
      assert plain[0] in plain;
      var i :| 0 <= i < |table| && table[i] == plain[0];
      assert SomeAttaches(table, arg);
    }
  }

  lemma NoneNegated(table: seq<Opt>, name: string)
    requires !SomeNegated(table, name)
    ensures S.Kept(table, AbbreviatedBy(name)) == S.Kept(table, PlainBy(name))
  {
    hide Classify, AbbreviatesNegation, S.Kept;
    forall i | 0 <= i < |table|
      ensures AbbreviatedBy(name)(table[i]) == PlainBy(name)(table[i])
    {
      assert !NegatedBy(name)(table[i]);
    }
    KeptAlike(table, AbbreviatedBy(name), PlainBy(name));
  }

  // A name resolves alike with and without a value exactly when it reads alike
  lemma ResolveWithValueExactly(table: seq<Opt>, name: string, val: string)
    requires AllWithoutEquals(table) && NoEquals(name) && name != ""
    ensures SameUpToValue(Resolve(table, name), Resolve(table, name + "=" + val), val) <==> ReadsAlike(table, name)
  {
    hide Classify, Resolve, AbbreviatesNegation, S.Kept, LeftBy;
    var arg := name + "=" + val;
    HitsWithValue(table, name, val);
    if SomeSpells(table, name) {
      NoSpelling(table, name);
      ResolveWithValue(table, name, val);
    } else {
      ResolveByAbbreviation(table, name);
      ResolveByAbbreviation(table, arg);
      LeftWithValue(table, name, val);
      if !SomeNegated(table, name) {
        NoneNegated(table, name);
        SameOnlyAbbreviation(table, name, val);
      } else {
        AbbreviationCounts(table, name);
      }
    }
  }

  lemma SameOnlyAbbreviation(table: seq<Opt>, name: string, val: string)
    requires AllWithoutEquals(table) && NoEquals(name) && name != ""
    ensures var plain := S.Kept(table, PlainBy(name));
      |plain| == 1 ==> UnsetOf(Classify(plain[0], name)) == UnsetOf(Classify(plain[0], name + "=" + val))
  {
    hide Classify, AbbreviatesNegation, S.Kept;
    KeptMembers(table, PlainBy(name));
    var plain := S.Kept(table, PlainBy(name));
    if |plain| == 1 {
      assert plain[0] in plain;
      HitWithValue(plain[0], name, val);
    }
  }

  // Where a negation is abbreviated, there is one abbreviation more than the plain ones, at least
  lemma AbbreviationCounts(table: seq<Opt>, name: string)
    requires SomeNegated(table, name)
    ensures |S.Kept(table, AbbreviatedBy(name))| >= 1 + |S.Kept(table, PlainBy(name))|
    ensures |S.Kept(table, PlainBy(name))| >= 2 <==> TwoPass(table, PlainBy(name))
  {
    hide Classify, AbbreviatesNegation, S.Kept;
    KeptTwo(table, PlainBy(name));
    KeptMembers(table, NegatedBy(name));
    var i :| 0 <= i < |table| && NegatedBy(name)(table[i]);
    assert table[i] in S.Kept(table, NegatedBy(name));
    KeptSplit(table, AbbreviatedBy(name), PlainBy(name), NegatedBy(name));
  }

  lemma {:induction false} KeptSplit<T>(a: seq<T>, either: T -> bool, one: T -> bool, other: T -> bool)
    requires forall x :: either(x) <==> one(x) || other(x)
    requires forall x :: !(one(x) && other(x))
    ensures |S.Kept(a, either)| == |S.Kept(a, one)| + |S.Kept(a, other)|
  {
    if a != [] {
      KeptSplit(a[..|a| - 1], either, one, other);
    }
  }

  // Such a name may stand for anything but an option without a value, and not for a negation
  ghost predicate MayTakeValue(table: seq<Opt>, name: string) {
    var r := Resolve(table, name);
    r.Found? ==> NeedsValue(r.opt) && !r.opt.noarg && !r.unset
  }

  predicate IsLongName(name: string) {
    NoEquals(name) && name != "" && name != "help"
  }

  lemma LongSteps(c: Config, name: string, val: string, next: Option<string>)
    requires !c.flags.oneShot && IsLongName(name)
    ensures StepOf(c, false, 0, None, "--" + name + "=" + val, next) == Long(c, name + "=" + val, None, next)
    ensures StepOf(c, false, 0, None, "--" + name, next) == Long(c, name, None, next)
  {
    hide Long;
    var joined, first := "--" + name + "=" + val, "--" + name;
    assert joined[2..] == name + "=" + val && first[2..] == name;
    assert '=' in joined && '=' !in "--help" && "--help"[2..] == "help";
  }

  ghost predicate ValueMayBeSeparate(c: Config, pre: seq<string>, name: string, val: string, post: seq<string>) {
    SameEffect(ParseRun(c, pre + ["--" + name + "=" + val] + post), ParseRun(c, pre + ["--" + name, val] + post))
  }

  // "--name=VAL" and "--name VAL", spelled in full or abbreviated, for an option that needs a value, whatever VAL is
  lemma AttachedToName(c: Config, pre: seq<string>, name: string, val: string, post: seq<string>)
    requires WellFormed(c.table) && !c.flags.oneShot && ReadThrough(Run(c, false, 0, None, pre))
    requires AllWithoutEquals(c.table) && IsLongName(name)
    requires ReadsAlike(c.table, name) && MayTakeValue(c.table, name)
    ensures ValueMayBeSeparate(c, pre, name, val, post)
  {
    hide Run, Classify, Resolve, ReadThrough, ReadsAlike, StepOf;
    var joined, first := "--" + name + "=" + val, "--" + name;
    ResolveWithValueExactly(c.table, name, val);
    LongSteps(c, name, val, Head(post));
    LongSteps(c, name, val, Some(val));
    OneStepEach(c, joined, first, val, post);
    assert |joined| > 2 && |first| > 2;
    InContext(c, pre, [joined], [first, val], post);
  }

  // The tails of two command lines that begin alike have the same effect if the command lines have
  lemma SameTails(c: Config, pre: seq<string>, x: seq<string>, y: seq<string>)
    requires WellFormed(c.table) && !c.flags.oneShot && ReadThrough(Run(c, false, 0, None, pre))
    requires x != [] && y != [] && x[0] != "-h" && y[0] != "-h"
    requires SameEffect(ParseRun(c, pre + x + []), ParseRun(c, pre + y + []))
    ensures var r, r' := Run(c, false, 0, None, x), Run(c, false, 0, None, y);
      (r.Exited? ==> r' == r) && (r'.Exited? ==> r == r')
  {
    hide Run;
    assert pre + x + [] == pre + x && pre + y + [] == pre + y;
    RunAppend(c, 0, 0, pre, x);
    RunAppend(c, 0, 0, pre, y);
    NotAlone(c, pre, x, []);
    NotAlone(c, pre, y, []);
  }

  // A long option at the end of the command line: the run stops at it, or returns
  lemma LastLong(c: Config, arg: string, r: Resolution)
    requires !c.flags.oneShot && |arg| >= 2
    requires StepOf(c, false, 0, None, arg, None) == Long(c, arg[2..], None, None)
    requires r == Resolve(c.table, arg[2..])
    ensures var run := Run(c, false, 0, None, [arg]);
      && (r.Unknown? ==> run == Exited(UnknownOption))
      && (r.Ambiguous? ==> run == Exited(WantsHelp))
      && (r.Found? && run.Exited? ==> run.why == BadOption)
  {
    hide StepOf, Run, Resolve;
    assert [arg] + [] == [arg];
    RunNext(c, 0, arg, []);
    RunOfNothing(c);
  }

  lemma RunOfNothing(c: Config)
    ensures forall pos, optstr :: Run(c, false, pos, optstr, []) == Returned([], [], [])
  {
  }

  lemma NoValueWithoutEquals(table: seq<Opt>, name: string)
    requires AllWithoutEquals(table) && NoEquals(name) && name != ""
    ensures Resolve(table, name).Found? ==> Resolve(table, name).value == None
  {
    hide Classify, Resolve, S.Kept, LeftBy;
    NoSpelling(table, name);
    if SomeSpells(table, name) {
      ResolveWithValue(table, name, "");
    } else {
      ResolveByAbbreviation(table, name);
      LeftWithValue(table, name, "");
    }
  }

  // An option that needs a value takes the one argument behind it
  lemma LastLongWithValue(c: Config, name: string, val: string)
    requires !c.flags.oneShot && AllWithoutEquals(c.table) && IsLongName(name) && MayTakeValue(c.table, name)
    ensures var r, run := Resolve(c.table, name), Run(c, false, 0, None, ["--" + name, val]);
      && (r.Unknown? ==> run == Exited(UnknownOption))
      && (r.Ambiguous? ==> run == Exited(WantsHelp))
      && (r.Found? && run.Exited? ==> run.why == BadOption)
  {
    hide StepOf, Run, Resolve;
    var first := "--" + name;
    LongSteps(c, name, val, Some(val));
    NoValueWithoutEquals(c.table, name);
    assert [first] + [val] == [first, val] && [val][1..] == [];
    RunNext(c, 0, first, [val]);
    var step := StepOf(c, false, 0, None, first, Some(val));
    assert step.Next? ==> step.used == 1;
    RunOfNothing(c);
  }

  // For a name that may take a value, the two spellings agree on every value and every rest of the command line
  // exactly when the name is spelled in full, abbreviates no negation, or abbreviates two options plainly
  lemma SpellingsAgreeExactly(c: Config, pre: seq<string>, name: string)
    requires WellFormed(c.table) && !c.flags.oneShot && ReadThrough(Run(c, false, 0, None, pre))
    requires AllWithoutEquals(c.table) && IsLongName(name) && MayTakeValue(c.table, name)
    ensures (forall val, post :: ValueMayBeSeparate(c, pre, name, val, post)) <==> ReadsAlike(c.table, name)
  {
    hide Run, StepOf, Classify, Resolve, ReadThrough, ReadsAlike, WellFormed, MayTakeValue;
    if ReadsAlike(c.table, name) {
      forall val, post
        ensures ValueMayBeSeparate(c, pre, name, val, post)
      {
        AttachedToName(c, pre, name, val, post);
      }
    } else if ValueMayBeSeparate(c, pre, name, "", []) {
      var joined, first := "--" + name + "=" + "", "--" + name;
      ResolveWithValueExactly(c.table, name, "");
      LongSteps(c, name, "", None);
      assert joined[2..] == name + "=" + "" && |joined| > 2 && |first| > 2;
      LastLong(c, joined, Resolve(c.table, name + "=" + ""));
      LastLongWithValue(c, name, "");
      SameTails(c, pre, [joined], [first, ""]);
      OnlyFoundIsSplit(c.table, name, "");
    }
  }

  // If the resolutions differ, an error is on one side and not on the other
  lemma OnlyFoundIsSplit(table: seq<Opt>, name: string, val: string)
    requires AllWithoutEquals(table) && NoEquals(name) && name != "" && !ReadsAlike(table, name)
    ensures Resolve(table, name).Ambiguous? ==> !Resolve(table, name + "=" + val).Ambiguous?
    ensures Resolve(table, name).Found? ==> Resolve(table, name + "=" + val).Unknown?
    ensures !Resolve(table, name).Unknown?
  {
    hide Classify, Resolve, AbbreviatesNegation, S.Kept, LeftBy;
    HitsWithValue(table, name, val);
    ResolveByAbbreviation(table, name);
    ResolveByAbbreviation(table, name + "=" + val);
    AbbreviationCounts(table, name);
  }

  // An instance of what ReadsAlike shuts out: "--n=V" means the one option that begins with "n", while "--n" alone also
  // abbreviates the negation of every negatable option
  lemma AbbreviationDiffers(name: Opt, flag: Opt)
    requires name.kind.Str? && name.name == "name" && !name.noemdash && !name.alloneg
    requires flag.kind.Integer? && flag.name == "x" && !flag.noemdash && flag.alloneg
    ensures Resolve([name, flag], "n=V") == Found(name, false, Some("V"))
    ensures Resolve([name, flag], "n") == Ambiguous
  {
    hide Resolve;
    EqualsParts("n", "V");
    assert "n" + "=" + "V" == "n=V";
    assert Classify(name, "n=V") == Abbreviates(false, true) && Classify(flag, "n=V") == NoHit;
    assert Classify(name, "n") == Abbreviates(false, false) && Classify(flag, "n") == Abbreviates(true, false);
    hide Classify;
    var table := [name, flag];
    assert table[0] == name && table[1] == flag;
    ResolutionMeans(table, "n=V");
    ResolutionMeans(table, "n");
    assert AbbreviatedBy("n")(table[0]) && AbbreviatedBy("n")(table[1]);
    assert !SomeSpells(table, "n") && TwoPass(table, AbbreviatedBy("n"));
    assert IsOnlyAbbreviation(table, "n=V", 0);
    ValueLeft(table);
  }

  lemma ValueLeft(table: seq<Opt>)
    requires |table| == 2 && Classify(table[0], "n=V") == Abbreviates(false, true) && Classify(table[1], "n=V") == NoHit
    requires Attached("n=V") == Some("V") && Resolve(table, "n=V").Found?
    ensures Resolve(table, "n=V").value == Some("V")
  {
    hide Classify, S.Kept;
    assert SomeAttaches(table, "n=V");
    var k := FirstSpelling(table, "n=V");
    assert k < 2 ==> k == 0 || k == 1;
  }
}
