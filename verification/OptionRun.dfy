/** What a run of parse_options (src/parse-option.c) does, as a function of the arguments:
    the outcome, the writes through the option table, and the role of every argument. */
module OptionRun {
  import opened Wrappers
  import opened LongOption
  import B = StrBuf
  import S = StrList

  // One write through the value pointer of an option
  datatype Write = SetInt(slot: nat, i: int) | CountOne(slot: nat)
                 | SetStr(slot: nat, s: Option<string>) | SetPath(slot: nat, path: string)

  // enum command_parser_flag
  datatype Flags = Flags(abortNonOption: bool, oneShot: bool, untilNonOption: bool, noShortHelp: bool)

  // The table, the flags, and an answer of the outside world: does the stored path name a regular file (stat)
  datatype Config = Config(table: seq<Opt>, flags: Flags, regular: Write -> bool)

  // Why a run ends in exit() instead of returning; Undefined is a read past the end of a string
  datatype Why = WantsHelp | BadOption | UnknownOption | NonOption | Undefined

  /* ---------- the argument of one option ---------- */

  // used counts the following arguments that are consumed; optstr is what is left in the parser
  datatype Taken = Failed | Took(writes: seq<Write>, optstr: Option<string>, used: nat)

  // get_arg_str: the attached string, or else the next argument
  function ArgString(optstr: Option<string>, next: Option<string>): Option<string> {
    Or(optstr, next)
  }

  function Used(optstr: Option<string>): nat {
    if optstr.Some? then 0 else 1
  }

  // The switch of get_arg_routine. The unsigned case fails on exactly the strings that are numbers: the test in the
  // source is inverted. strtou stores nothing when it finds no number. A group has no case: the source ends in bug().
  function ByKind(c: Config, o: Opt, unset: bool, optstr: Option<string>, next: Option<string>): (t: Taken)
    ensures t.Took? && t.used > 0 ==> t.used == 1 && next.Some? && optstr.None?
  {
    var arg := ArgString(optstr, next);
    match o.kind
    case Group => Failed
    case Integer =>
      if !o.unsigned then Took([SetInt(o.slot, if unset then 0 else o.defInt)], optstr, 0)
      else if arg.None? || B.Strtou(arg.value).Some? then Failed
      else Took([], None, Used(optstr))
    case CountUp => Took([CountOne(o.slot)], optstr, 0)
    case Str =>
      if unset then Took([SetStr(o.slot, None)], optstr, 0)
      else if o.optarg && optstr.None? then Took([SetStr(o.slot, o.defStr)], None, 0)
      else if arg.None? then Failed
      else Took([SetStr(o.slot, arg)], None, Used(optstr))
    case Filename =>
      if arg.None? then Failed else Took([SetPath(o.slot, arg.value)], None, Used(optstr))
  }

  // get_arg_routine
  function GetArg(c: Config, o: Opt, short: bool, unset: bool, optstr: Option<string>, next: Option<string>): (t: Taken)
    ensures t.Took? && t.used > 0 ==> t.used == 1 && next.Some? && optstr.None?
  {
    if unset && optstr.Some? then Failed
    else if unset && !o.alloneg then Failed
    else if !short && optstr.Some? && o.noarg then Failed
    else ByKind(c, o, unset, optstr, next)
  }

  // Attached to a long option or to a switch, or as the next argument: an unsigned option takes a value exactly when
  // strtou finds no number in it, and it never stores one
  lemma UnsignedTakesNoNumber(c: Config, o: Opt, short: bool, optstr: Option<string>, next: Option<string>)
    requires o.kind.Integer? && o.unsigned && !o.noarg
    ensures var t, arg := GetArg(c, o, short, false, optstr, next), ArgString(optstr, next);
      && (t.Took? <==> arg.Some? && B.Strtou(arg.value).None?)
      && (t.Took? ==> t.writes == [])
  {
  }

  // validate_parsed_value, on the path that the option itself has just stored
  predicate Validates(c: Config, o: Opt, own: seq<Write>) {
    o.realpath ==> own != [] && c.regular(own[|own| - 1])
  }

  /* ---------- one argument ---------- */

  datatype Step =
    | Next(kept: bool, writes: seq<Write>, optstr: Option<string>, used: nat)
    | Finish(marker: bool)
    | Stop(why: Why)

  // earlier holds the writes of the switches before o in the same cluster; only the last one is validated
  function Checked(c: Config, o: Opt, earlier: seq<Write>, t: Taken): Step
    requires t.Took?
  {
    if Validates(c, o, t.writes) then Next(false, earlier + t.writes, t.optstr, t.used) else Stop(BadOption)
  }

  // The first option with this alias, or |table|
  function FindAlias(table: seq<Opt>, alias: char): (k: nat)
    ensures k <= |table|
    ensures forall i :: 0 <= i < k ==> table[i].alias != alias
    ensures k < |table| ==> table[k].alias == alias
  {
    if table == [] || table[0].alias == alias then 0
    else
      var k := FindAlias(table[1..], alias);
      assert forall i :: 0 < i <= k ==> table[i] == table[1..][i - 1];
      1 + k
  }

  // A cluster of short switches; writes are those of the switches before
  function Switches(c: Config, cluster: string, next: Option<string>, writes: seq<Write>): (r: Step)
    ensures !r.Finish? && (r.Next? ==> !r.kept && (r.used > 0 ==> r.used == 1 && next.Some?))
    decreases |cluster|
  {
    if cluster == "" then
      // a lone hyphen: the terminator matches an option without alias, and the byte after it is read
      Stop(if FindAlias(c.table, '\0') < |c.table| then Undefined else UnknownOption)
    else
      var k := FindAlias(c.table, cluster[0]);
      if k == |c.table| then
        Stop(if cluster[0] == 'h' && !c.flags.noShortHelp then WantsHelp else UnknownOption)
      else
        var optstr := if |cluster| > 1 then Some(cluster[1..]) else None;
        var t := GetArg(c, c.table[k], true, false, optstr, next);
        if t.Failed? then Stop(BadOption)
        else if t.optstr.Some? then Switches(c, cluster[1..], next, writes + t.writes)
        else Checked(c, c.table[k], writes, t)
  }

  function Long(c: Config, arg: string, optstr: Option<string>, next: Option<string>): (r: Step)
    ensures !r.Finish? && (r.Next? ==> !r.kept && (r.used > 0 ==> r.used == 1 && next.Some?))
  {
    var r := Resolve(c.table, arg);
    match r
    case Unknown => Stop(UnknownOption)
    case Ambiguous => Stop(WantsHelp)
    case Found(o, unset, value) =>
      var t := GetArg(c, o, false, unset, Or(value, optstr), next);
      if t.Failed? then Stop(BadOption) else Checked(c, o, [], t)
  }

  predicate IsDash(arg: string) {
    arg != "" && arg[0] == '-'
  }

  function Head(args: seq<string>): Option<string> {
    if args == [] then None else Some(args[0])
  }

  // parse_option_next. lone: the command line has one argument; pos: how many have been consumed so far;
  // optstr: what an earlier argument left in the parser
  function StepOf(c: Config, lone: bool, pos: nat, optstr: Option<string>, arg: string, next: Option<string>): (r: Step)
    ensures r.Next? && r.used > 0 ==> r.used == 1 && next.Some? && IsDash(arg)
    ensures r.Next? && r.kept ==> r.used == 0
  {
    if c.flags.oneShot && pos == 1 then Finish(false)
    else if !IsDash(arg) then
      if c.flags.abortNonOption then Stop(NonOption)
      else if c.flags.untilNonOption then Finish(false)
      else Next(true, [], optstr, 0)
    else if lone && arg == "-h" && !c.flags.noShortHelp then Stop(WantsHelp)
    else if |arg| == 1 || arg[1] != '-' then Switches(c, arg[1..], next, [])
    else if arg == "--" then Finish(true)
    else if arg == "--help" then Stop(WantsHelp)
    else Long(c, arg[2..], optstr, next)
  }

  /* ---------- a whole run ---------- */

  datatype Role = Operand | OptionWord | OptionValue | Marker | Rest

  datatype Outcome =
    | Returned(roles: seq<Role>, output: seq<string>, writes: seq<Write>)
    | Exited(why: Why)

  function Repeat(role: Role, n: nat): (r: seq<Role>)
    ensures |r| == n && forall i :: 0 <= i < n ==> r[i] == role
  {
    seq(n, i => role)
  }

  function Run(c: Config, lone: bool, pos: nat, optstr: Option<string>, args: seq<string>): Outcome
    decreases |args|
  {
    if args == [] then Returned([], [], [])
    else
      match StepOf(c, lone, pos, optstr, args[0], Head(args[1..]))
      case Stop(why) => Exited(why)
      case Finish(marker) => Finished(marker, args)
      case Next(kept, writes, optstr', used) =>
        After(kept, writes, used, args, Run(c, lone, pos + 1 + used, optstr', args[1 + used..]))
  }

  function Finished(marker: bool, args: seq<string>): Outcome
    requires args != []
  {
    if marker then Returned([Marker] + Repeat(Rest, |args| - 1), args[1..], [])
    else Returned(Repeat(Rest, |args|), args, [])
  }

  function After(kept: bool, writes: seq<Write>, used: nat, args: seq<string>, rest: Outcome): Outcome
    requires args != []
  {
    if rest.Exited? then rest
    else Returned([if kept then Operand else OptionWord] + Repeat(OptionValue, used) + rest.roles,
                  (if kept then [args[0]] else []) + rest.output, writes + rest.writes)
  }

  // parse_options on a whole command line
  function ParseRun(c: Config, args: seq<string>): Outcome {
    Run(c, |args| == 1, 0, None, args)
  }

  /* ---------- conservation ---------- */

  // The arguments that are given back, in their order
  function Surviving(args: seq<string>, roles: seq<Role>): seq<string>
    requires |args| == |roles|
  {
    if args == [] then []
    else (if roles[0].Operand? || roles[0].Rest? then [args[0]] else []) + Surviving(args[1..], roles[1..])
  }

  // What the roles say about the arguments, when before is the role of the argument in front of them
  ghost predicate RolesFit(c: Config, args: seq<string>, roles: seq<Role>, before: Role)
    requires |args| == |roles|
  {
    args != [] ==>
      && (match roles[0]
          case Operand => !IsDash(args[0]) && !c.flags.abortNonOption && !c.flags.untilNonOption
          case OptionWord => IsDash(args[0]) && args[0] != "--" && args[0] != "--help"
          case OptionValue => before.OptionWord?
          case Marker => args[0] == "--"
          case Rest => before.Marker? || before.Rest? || c.flags.oneShot || c.flags.untilNonOption)
      && (before.Marker? || before.Rest? ==> roles[0].Rest?)
      && RolesFit(c, args[1..], roles[1..], roles[0])
  }

  lemma {:induction false} RestFits(c: Config, args: seq<string>, before: Role)
    requires before.Marker? || before.Rest?
    ensures RolesFit(c, args, Repeat(Rest, |args|), before)
    ensures Surviving(args, Repeat(Rest, |args|)) == args
  {
    if args != [] {
      RestFits(c, args[1..], Rest);
      assert Repeat(Rest, |args|)[1..] == Repeat(Rest, |args| - 1);
      assert args == [args[0]] + args[1..];
    }
  }

  // Every argument of a returning run has exactly one role, and the output is what the roles let survive
  ghost predicate Conserves(c: Config, args: seq<string>, r: Outcome, before: Role) {
    r.Returned? ==> |r.roles| == |args| && RolesFit(c, args, r.roles, before) && r.output == Surviving(args, r.roles)
  }

  lemma {:induction false} RunConserves(c: Config, lone: bool, pos: nat, optstr: Option<string>, args: seq<string>,
                                        before: Role)
    requires before.Operand? || before.OptionWord? || before.OptionValue?
    ensures Conserves(c, args, Run(c, lone, pos, optstr, args), before)
    decreases |args|
  {
    hide StepOf, Conserves, Finished, After;
    if args == [] {
      NothingConserved(c, before);
    } else {
      match StepOf(c, lone, pos, optstr, args[0], Head(args[1..]))
      case Finish(marker) =>
        FinishFits(c, lone, pos, optstr, args, before);
      case Next(kept, writes, optstr', used) =>
        StepFits(c, lone, pos, optstr, args);
        var rest := Run(c, lone, pos + 1 + used, optstr', args[1 + used..]);
        var role := if kept then Operand else OptionWord;
        RunConserves(c, lone, pos + 1 + used, optstr', args[1 + used..], if used == 0 then role else OptionValue);
        AfterFits(c, args, kept, writes, used, rest, before);
      case Stop(why) =>
        ExitConserves(c, args, why, before);
    }
  }

  lemma NothingConserved(c: Config, before: Role)
    ensures Conserves(c, [], Returned([], [], []), before)
  {
  }

  lemma ExitConserves(c: Config, args: seq<string>, why: Why, before: Role)
    ensures Conserves(c, args, Exited(why), before)
  {
  }

  lemma AfterFits(c: Config, args: seq<string>, kept: bool, writes: seq<Write>, used: nat, rest: Outcome, before: Role)
    requires before.Operand? || before.OptionWord? || before.OptionValue?
    requires 1 + used <= |args| && used <= 1
    requires if kept then !IsDash(args[0]) && !c.flags.abortNonOption && !c.flags.untilNonOption && used == 0
      else IsDash(args[0]) && args[0] != "--" && args[0] != "--help"
    requires var role := if kept then Operand else OptionWord;
      Conserves(c, args[1 + used..], rest, if used == 0 then role else OptionValue)
    ensures Conserves(c, args, After(kept, writes, used, args, rest), before)
  {
    hide RolesFit, Surviving;
    if rest.Returned? {
      NextFits(c, args, if kept then Operand else OptionWord, used, rest.roles, before);
    }
  }

  lemma FinishMeans(c: Config, lone: bool, pos: nat, optstr: Option<string>, arg: string, next: Option<string>)
    requires StepOf(c, lone, pos, optstr, arg, next).Finish?
    ensures if StepOf(c, lone, pos, optstr, arg, next).marker then arg == "--"
      else c.flags.oneShot || c.flags.untilNonOption
  {
    hide Switches, Long;
  }

  lemma FinishFits(c: Config, lone: bool, pos: nat, optstr: Option<string>, args: seq<string>, before: Role)
    requires before.Operand? || before.OptionWord? || before.OptionValue?
    requires args != [] && StepOf(c, lone, pos, optstr, args[0], Head(args[1..])).Finish?
    ensures Conserves(c, args, Finished(StepOf(c, lone, pos, optstr, args[0], Head(args[1..])).marker, args), before)
  {
    hide StepOf;
    FinishMeans(c, lone, pos, optstr, args[0], Head(args[1..]));
    var marker := StepOf(c, lone, pos, optstr, args[0], Head(args[1..])).marker;
    var role := if marker then Marker else Rest;
    var roles := [role] + Repeat(Rest, |args| - 1);
    assert roles[1..] == Repeat(Rest, |args| - 1);
    RestFits(c, args[1..], role);
    assert !marker ==> roles == Repeat(Rest, |args|);
    assert [args[0]] + args[1..] == args;
  }

  lemma StepFits(c: Config, lone: bool, pos: nat, optstr: Option<string>, args: seq<string>)
    requires args != [] && StepOf(c, lone, pos, optstr, args[0], Head(args[1..])).Next?
    ensures var r := StepOf(c, lone, pos, optstr, args[0], Head(args[1..]));
      if r.kept then !IsDash(args[0]) && !c.flags.abortNonOption && !c.flags.untilNonOption && r.used == 0
      else IsDash(args[0]) && args[0] != "--" && args[0] != "--help" && 1 + r.used <= |args| && r.used <= 1
  {
    hide Switches, Long;
  }

  // An operand, or an option word with its value, in front of the other arguments
  lemma NextFits(c: Config, args: seq<string>, role: Role, used: nat, roles: seq<Role>, before: Role)
    requires before.Operand? || before.OptionWord? || before.OptionValue?
    requires 1 + used <= |args| && |roles| == |args| - 1 - used
    requires role.Operand? || role.OptionWord?
    requires if role.Operand? then !IsDash(args[0]) && !c.flags.abortNonOption && !c.flags.untilNonOption && used == 0
      else IsDash(args[0]) && args[0] != "--" && args[0] != "--help" && used <= 1
    requires RolesFit(c, args[1 + used..], roles, if used == 0 then role else OptionValue)
    ensures var all := [role] + Repeat(OptionValue, used) + roles;
      && RolesFit(c, args, all, before)
      && Surviving(args, all) == (if role.Operand? then [args[0]] else []) + Surviving(args[1 + used..], roles)
  {
    hide RolesFit, Surviving;
    if used == 0 {
      assert [role] + Repeat(OptionValue, used) + roles == [role] + roles;
      FrontFits(c, args, role, roles, before);
    } else {
      assert [role] + Repeat(OptionValue, used) + roles == [role] + ([OptionValue] + roles);
      assert args[1..][1..] == args[2..];
      FrontFits(c, args[1..], OptionValue, roles, role);
      FrontFits(c, args, role, [OptionValue] + roles, before);
    }
  }

  // One argument in front of the others
  lemma FrontFits(c: Config, args: seq<string>, role: Role, roles: seq<Role>, before: Role)
    requires before.Operand? || before.OptionWord? || before.OptionValue?
    requires args != [] && |roles| == |args| - 1 && RolesFit(c, args[1..], roles, role)
    requires match role
      case Operand => !IsDash(args[0]) && !c.flags.abortNonOption && !c.flags.untilNonOption
      case OptionWord => IsDash(args[0]) && args[0] != "--" && args[0] != "--help"
      case OptionValue => before.OptionWord?
      case _ => false
    ensures RolesFit(c, args, [role] + roles, before)
    ensures Surviving(args, [role] + roles) == (if role.Operand? then [args[0]] else []) + Surviving(args[1..], roles)
  {
    assert ([role] + roles)[1..] == roles;
  }

  lemma ParseConserves(c: Config, args: seq<string>)
    ensures var r := ParseRun(c, args);
      r.Returned? ==> |r.roles| == |args| && RolesFit(c, args, r.roles, Operand) && r.output == Surviving(args, r.roles)
  {
    RunConserves(c, |args| == 1, 0, None, args, Operand);
  }

  /* ---------- unsigned options ---------- */

  function SlotOf(w: Write): nat {
    match w
    case SetInt(slot, _) => slot
    case CountOne(slot) => slot
    case SetStr(slot, _) => slot
    case SetPath(slot, _) => slot
  }

  // Only unsigned options point to this variable
  ghost predicate IsUnsignedSlot(c: Config, slot: nat) {
    forall i :: 0 <= i < |c.table| && c.table[i].slot == slot ==> c.table[i].kind.Integer? && c.table[i].unsigned
  }

  ghost predicate Spares(writes: seq<Write>, slot: nat) {
    forall w :: w in writes ==> SlotOf(w) != slot
  }

  lemma GetArgSpares(c: Config, o: Opt, short: bool, unset: bool, optstr: Option<string>, next: Option<string>,
                     slot: nat)
    requires IsUnsignedSlot(c, slot) && o in c.table
    ensures var t := GetArg(c, o, short, unset, optstr, next); t.Took? ==> Spares(t.writes, slot)
  {
  }

  lemma {:induction false} SwitchesSpare(c: Config, cluster: string, next: Option<string>, writes: seq<Write>,
                                         slot: nat)
    requires IsUnsignedSlot(c, slot) && Spares(writes, slot)
    ensures var s := Switches(c, cluster, next, writes); s.Next? ==> Spares(s.writes, slot)
    decreases |cluster|
  {
    hide FindAlias, GetArg, IsUnsignedSlot;
    if cluster != "" && FindAlias(c.table, cluster[0]) < |c.table| {
      var o := c.table[FindAlias(c.table, cluster[0])];
      var optstr := if |cluster| > 1 then Some(cluster[1..]) else None;
      var t := GetArg(c, o, true, false, optstr, next);
      GetArgSpares(c, o, true, false, optstr, next, slot);
      if t.Took? && t.optstr.Some? {
        SwitchesSpare(c, cluster[1..], next, writes + t.writes, slot);
      }
    }
  }

  lemma FoundInTable(table: seq<Opt>, arg: string)
    ensures Resolve(table, arg).Found? ==> Resolve(table, arg).opt in table
  {
    hide Classify, S.Kept;
    ResolutionMeans(table, arg);
  }

  lemma StepSpares(c: Config, lone: bool, pos: nat, optstr: Option<string>, arg: string, next: Option<string>,
                   slot: nat)
    requires IsUnsignedSlot(c, slot)
    ensures var s := StepOf(c, lone, pos, optstr, arg, next); s.Next? ==> Spares(s.writes, slot)
  {
    hide Switches, Resolve, GetArg, IsUnsignedSlot;
    if |arg| > 0 {
      SwitchesSpare(c, arg[1..], next, [], slot);
    }
    if |arg| > 1 {
      FoundInTable(c.table, arg[2..]);
      var r := Resolve(c.table, arg[2..]);
      if r.Found? {
        GetArgSpares(c, r.opt, false, r.unset, Or(r.value, optstr), next, slot);
      }
    }
  }

  // Over whole runs the variable of an unsigned option keeps the value it had
  lemma {:induction false} UnsignedIsNeverStored(c: Config, lone: bool, pos: nat, optstr: Option<string>,
                                                 args: seq<string>, slot: nat)
    requires IsUnsignedSlot(c, slot)
    ensures var r := Run(c, lone, pos, optstr, args); r.Returned? ==> Spares(r.writes, slot)
    decreases |args|
  {
    hide StepOf, IsUnsignedSlot;
    if args != [] {
      var step := StepOf(c, lone, pos, optstr, args[0], Head(args[1..]));
      StepSpares(c, lone, pos, optstr, args[0], Head(args[1..]), slot);
      if step.Next? {
        StepFits(c, lone, pos, optstr, args);
        UnsignedIsNeverStored(c, lone, pos + 1 + step.used, step.optstr, args[1 + step.used..], slot);
      }
    }
  }
}
