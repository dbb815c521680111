/** The option parser of src/parse-option.c: a context that walks over argv and compacts it in place. */
module ParseOptions {
  import opened Wrappers
  import opened LongOption
  import opened OptionRun
  import S = StrList
  import B = StrBuf

  // enum parse_result
  datatype ParseResult = Done | Complete | Failure(why: Why)

  datatype ParseEnd = Remain(argc: nat) | Quit(why: Why)

  class ParserContext {
    const c: Config
    // the array that argv and out point into
    const vec: array<string>
    const argc0: nat
    var argc: nat
    var argv: nat
    var idx: nat
    var optstr: Option<string>
    // the writes made through the option table so far, and those of the last option alone
    var writes: seq<Write>
    var own: seq<Write>

    // The write index may be one ahead of the argument that has just been kept, never of the one to be read
    ghost predicate Cursors(ahead: nat)
      reads this
    {
      argc0 == vec.Length && argv + argc == argc0 && idx <= argv + ahead
    }

    ghost predicate Valid()
      reads this
    {
      Cursors(0)
    }

    // The argument after the current one
    function NextArg(): Option<string>
      requires Valid() && argc > 0
      reads this, vec
    {
      if argc > 1 then Some(vec[argv + 1]) else None
    }

    constructor (c: Config, args: array<string>)
      ensures Valid() && this.c == c && vec == args && argc0 == argc == args.Length
      ensures argv == idx == 0 && optstr == None && writes == []
    {
      this.c := c;
      vec := args;
      argc0, argc := args.Length, args.Length;
      argv, idx := 0, 0;
      optstr := None;
      writes, own := [], [];
    }

    method GetArgStr() returns (out: Option<string>)
      requires Valid() && argc > 0
      modifies this`argc, this`argv, this`optstr
      ensures Valid() && out == ArgString(old(optstr), old(NextArg()))
      ensures out.Some? ==> optstr == None && argv == old(argv) + Used(old(optstr)) && argc > 0
      ensures out.None? ==> optstr == old(optstr) && argv == old(argv) && argc == old(argc)
    {
      if optstr.Some? {
        out := optstr;
        optstr := None;
      } else if argc > 1 {
        argc := argc - 1;
        argv := argv + 1;
        out := Some(vec[argv]);
      } else {
        out := None;
      }
    }

    // The state after an option has taken its argument
    ghost predicate HasTaken(t: Taken, argv0: nat, writes0: seq<Write>)
      reads this
    {
      && t.Took? && Valid() && argc > 0 && own == t.writes && writes == writes0 + t.writes
      && optstr == t.optstr && argv == argv0 + t.used
    }

    method GetArg(o: Opt, short: bool, unset: bool) returns (ok: bool)
      requires Valid() && argc > 0
      modifies this`argc, this`argv, this`optstr, this`writes, this`own
      ensures Valid() && argc > 0
      ensures var t := OptionRun.GetArg(c, o, short, unset, old(optstr), old(NextArg()));
        ok == t.Took? && (ok ==> HasTaken(t, old(argv), old(writes)))
    {
      if unset && optstr.Some? {
        return false;
      }
      if unset && !o.alloneg {
        return false;
      }
      if !short && optstr.Some? && o.noarg {
        return false;
      }
      ok := StoreByKind(o, unset);
    }

    // The switch of get_arg_routine
    method StoreByKind(o: Opt, unset: bool) returns (ok: bool)
      requires Valid() && argc > 0
      modifies this`argc, this`argv, this`optstr, this`writes, this`own
      ensures Valid() && argc > 0
      ensures var t := ByKind(c, o, unset, old(optstr), old(NextArg()));
        ok == t.Took? && (ok ==> HasTaken(t, old(argv), old(writes)))
    {
      own := [];
      match o.kind {
        case Group =>
          return false;
        case Integer =>
          if o.unsigned {
            var arg := GetArgStr();
            if arg.None? {
              return false;
            }
            if B.Strtou(arg.value).Some? {
              return false;
            }
          } else {
            own := [SetInt(o.slot, if unset then 0 else o.defInt)];
          }
        case CountUp =>
          own := [CountOne(o.slot)];
        case Str =>
          if unset {
            own := [SetStr(o.slot, None)];
          } else if o.optarg && optstr.None? {
            own := [SetStr(o.slot, o.defStr)];
          } else {
            var arg := GetArgStr();
            if arg.None? {
              return false;
            }
            own := [SetStr(o.slot, arg)];
          }
        case Filename =>
          var arg := GetArgStr();
          if arg.None? {
            return false;
          }
          own := [SetPath(o.slot, arg.value)];
      }
      writes := writes + own;
      return true;
    }

    // The state after the step s of parse_option_next, as far as an option made it
    ghost predicate HasStepped(res: ParseResult, s: Step, argv0: nat, writes0: seq<Write>)
      reads this
    {
      match s
      case Next(kept, ws, rest, used) =>
        && res.Done? && Cursors(if kept then 1 else 0) && argc > 0
        && writes == writes0 + ws && optstr == rest && argv == argv0 + used
      case Finish(_) => res.Complete? && Valid() && writes == writes0
      case Stop(why) => res == Failure(why)
    }

    method Validate(o: Opt, ghost earlier: seq<Write>, ghost t: Taken, ghost argv0: nat, ghost writes0: seq<Write>)
      returns (res: ParseResult)
      requires HasTaken(t, argv0, writes0 + earlier)
      ensures HasStepped(res, Checked(c, o, earlier, t), argv0, writes0)
    {
      assert writes0 + earlier + t.writes == writes0 + (earlier + t.writes);
      if Validates(c, o, own) {
        return Done;
      } else {
        return Failure(BadOption);
      }
    }

    // The loop over the table: the first full spelling ends it; abbreviations are remembered, the last of them in full
    method FindLong(argstr: string) returns (r: Resolution)
      modifies this`optstr
      ensures r == Resolve(c.table, argstr)
      ensures r.Found? ==> optstr == Or(r.value, old(optstr))
    {
      hide Classify, Resolve, ScannedTo, LeftBy;
      ghost var optstr0 := optstr;
      var abbrev, abbrevUnset, ambiguous := None, false, false;
      ScanStarts(argstr, optstr0);
      var i := 0;
      assert c.table[..0] == [];
      while i < |c.table|
        invariant i <= |c.table|
        invariant ScannedTo(c.table[..i], argstr, abbrev, abbrevUnset, ambiguous, optstr, optstr0)
      {
        var opt := c.table[i];
        var hit := Classify(opt, argstr);
        assert c.table[..i + 1] == c.table[..i] + [opt];
        ScanOne(c.table[..i], opt, argstr, abbrev, abbrevUnset, ambiguous, optstr, optstr0);
        if hit.Spells? {
          ScanFinds(c.table, i, argstr, abbrev, abbrevUnset, ambiguous, optstr, optstr0);
          if hit.value.Some? {
            optstr := hit.value;
          }
          return Found(opt, hit.unset, Or(hit.value, LeftBy(c.table[..i], argstr)));
        }
        if hit.Abbreviates? {
          ambiguous := abbrev.Some?;
          if hit.attaches {
            optstr := Attached(argstr);
          }
          abbrev, abbrevUnset := Some(opt), hit.unset;
        }
        i := i + 1;
      }
      assert c.table[..i] == c.table;
      ScanEnds(c.table, argstr, abbrev, abbrevUnset, ambiguous, optstr, optstr0);
      if ambiguous {
        return Ambiguous;
      }
      if abbrev.Some? {
        return Found(abbrev.value, abbrevUnset, LeftBy(c.table, argstr));
      }
      return Unknown;
    }

    method ParseLongOption(argstr: string) returns (res: ParseResult)
      requires Valid() && argc > 0
      modifies this`argc, this`argv, this`optstr, this`writes, this`own
      ensures HasStepped(res, Long(c, argstr, old(optstr), old(NextArg())), old(argv), old(writes))
    {
      hide Resolve;
      var r := FindLong(argstr);
      match r {
        case Unknown =>
          return Failure(UnknownOption);
        case Ambiguous =>
          return Failure(WantsHelp);
        case Found(o, unset, _) =>
          ghost var t := OptionRun.GetArg(c, o, false, unset, optstr, NextArg());
          var ok := GetArg(o, false, unset);
          if !ok {
            return Failure(BadOption);
          }
          assert old(writes) + [] == old(writes);
          res := Validate(o, [], t, old(argv), old(writes));
      }
    }

    // parse_short_option: the search for the alias
    method FindShort(alias: char) returns (o: Option<Opt>)
      ensures var k := FindAlias(c.table, alias); o == if k < |c.table| then Some(c.table[k]) else None
    {
      var i := 0;
      while i < |c.table|
        invariant i <= |c.table| && forall k :: 0 <= k < i ==> c.table[k].alias != alias
      {
        if c.table[i].alias == alias {
          return Some(c.table[i]);
        }
        i := i + 1;
      }
      return None;
    }

    // The loop over a cluster; optstr points at the switch to be read
    method ParseCluster(cluster: string) returns (res: ParseResult)
      requires Valid() && argc > 0
      modifies this`argc, this`argv, this`optstr, this`writes, this`own
      ensures HasStepped(res, Switches(c, cluster, old(NextArg()), []), old(argv), old(writes))
    {
      hide FindAlias;
      var rest := cluster;
      ghost var earlier: seq<Write> := [];
      ghost var next := NextArg();
      while true
        invariant Valid() && argc > 0 && argv == old(argv) && argc == old(argc)
        invariant writes == old(writes) + earlier
        invariant Switches(c, cluster, next, []) == Switches(c, rest, next, earlier)
        decreases |rest|
      {
        if rest == "" {
          var o := FindShort('\0');
          return Failure(if o.Some? then Undefined else UnknownOption);
        }
        var o := FindShort(rest[0]);
        if o.None? {
          return Failure(if rest[0] == 'h' && !c.flags.noShortHelp then WantsHelp else UnknownOption);
        }
        optstr := if |rest| > 1 then Some(rest[1..]) else None;
        ghost var t := OptionRun.GetArg(c, o.value, true, false, optstr, next);
        var ok := GetArg(o.value, true, false);
        if !ok {
          return Failure(BadOption);
        }
        if optstr.None? {
          res := Validate(o.value, earlier, t, old(argv), old(writes));
          return;
        }
        earlier := earlier + t.writes;
        rest := rest[1..];
      }
    }

    // On Complete an end marker has been stepped over
    method ParseOptionNext() returns (res: ParseResult)
      requires Valid() && argc > 0
      modifies this, vec
      ensures var s := StepOf(c, argc0 == 1, old(argv), old(optstr), old(vec[argv]), old(NextArg()));
        && HasStepped(res, s, old(argv), old(writes))
        && (s.Finish? ==> argv == old(argv) + (if s.marker then 1 else 0))
        && (s.Next? ==> idx == old(idx) + (if s.kept then 1 else 0))
        && (s.Finish? ==> idx == old(idx))
        && vec[..] == (if s.Next? && s.kept then old(vec[..])[old(idx) := old(vec[argv])] else old(vec[..]))
    {
      hide Switches, Long;
      var argstr := vec[argv];
      var allowShortHelp := !c.flags.noShortHelp;
      if c.flags.oneShot && argc0 - argc == 1 {
        return Complete;
      }
      if !IsDash(argstr) {
        if c.flags.abortNonOption {
          return Failure(NonOption);
        }
        if c.flags.untilNonOption {
          return Complete;
        }
        vec[idx] := argstr;
        idx := idx + 1;
        assert writes + [] == writes;
        return Done;
      }
      if argc0 == 1 && argstr == "-h" && allowShortHelp {
        return Failure(WantsHelp);
      }
      if |argstr| == 1 || argstr[1] != '-' {
        res := ParseCluster(argstr[1..]);
        return;
      }
      if |argstr| == 2 {
        argc := argc - 1;
        argv := argv + 1;
        return Complete;
      }
      if argstr[2..] == "help" {
        return Failure(WantsHelp);
      }
      res := ParseLongOption(argstr[2..]);
    }
  }

  /* ---------- the loop over the table ---------- */

  // The local variables of parse_long_option after a part of the table has been looked at in vain
  ghost predicate ScannedTo(part: seq<Opt>, arg: string, abbrev: Option<Opt>, abbrevUnset: bool, ambiguous: bool,
                            optstr: Option<string>, optstr0: Option<string>)
  {
    var seen := S.Kept(part, AbbreviatedBy(arg));
    && (forall k :: 0 <= k < |part| ==> !Classify(part[k], arg).Spells?)
    && (abbrev.None? <==> seen == [])
    && (abbrev.Some? ==>
          abbrev.value == seen[|seen| - 1] && Classify(abbrev.value, arg).Abbreviates? &&
          abbrevUnset == Classify(abbrev.value, arg).unset)
    && (ambiguous <==> |seen| >= 2)
    && optstr == Or(LeftBy(part, arg), optstr0)
  }

  lemma ScanStarts(arg: string, optstr0: Option<string>)
    ensures ScannedTo([], arg, None, false, false, optstr0, optstr0)
  {
    hide Classify;
    EmptyKept(AbbreviatedBy(arg));
    assert !SomeAttaches([], arg);
  }

  lemma ScanOne(part: seq<Opt>, o: Opt, arg: string, abbrev: Option<Opt>, abbrevUnset: bool, ambiguous: bool,
                optstr: Option<string>, optstr0: Option<string>)
    requires ScannedTo(part, arg, abbrev, abbrevUnset, ambiguous, optstr, optstr0)
    ensures Classify(o, arg).NoHit? ==> ScannedTo(part + [o], arg, abbrev, abbrevUnset, ambiguous, optstr, optstr0)
    ensures Classify(o, arg).Abbreviates? ==>
      ScannedTo(part + [o], arg, Some(o), Classify(o, arg).unset, abbrev.Some?,
        if Classify(o, arg).attaches then Attached(arg) else optstr, optstr0)
  {
    hide Classify, S.Kept, SomeAttaches;
    S.Snoc(part, o, AbbreviatedBy(arg));
    AttachesMore(part, o, arg);
    if Classify(o, arg).Abbreviates? && Classify(o, arg).attaches {
      AttachesMeansValue(o, arg);
    }
  }

  lemma ScanFinds(table: seq<Opt>, i: nat, arg: string, abbrev: Option<Opt>, abbrevUnset: bool, ambiguous: bool,
                  optstr: Option<string>, optstr0: Option<string>)
    requires i < |table| && Classify(table[i], arg).Spells?
    requires ScannedTo(table[..i], arg, abbrev, abbrevUnset, ambiguous, optstr, optstr0)
    ensures var hit := Classify(table[i], arg);
      && Resolve(table, arg) == Found(table[i], hit.unset, Or(hit.value, LeftBy(table[..i], arg)))
      && optstr == Or(LeftBy(table[..i], arg), optstr0)
  {
    hide Classify, S.Kept, LeftBy;
    var k := FirstSpelling(table, arg);
    assert forall j :: 0 <= j < i ==> table[j] == table[..i][j];
    assert k == i;
  }

  lemma ScanEnds(table: seq<Opt>, arg: string, abbrev: Option<Opt>, abbrevUnset: bool, ambiguous: bool,
                 optstr: Option<string>, optstr0: Option<string>)
    requires ScannedTo(table, arg, abbrev, abbrevUnset, ambiguous, optstr, optstr0)
    ensures Resolve(table, arg) ==
      if ambiguous then Ambiguous
      else if abbrev.Some? then Found(abbrev.value, abbrevUnset, LeftBy(table, arg))
      else Unknown
    ensures optstr == Or(LeftBy(table, arg), optstr0)
  {
    hide Classify, S.Kept, LeftBy;
    assert FirstSpelling(table, arg) == |table|;
  }

  lemma AttachesMore(part: seq<Opt>, o: Opt, arg: string)
    ensures SomeAttaches(part + [o], arg) <==>
      SomeAttaches(part, arg) || (Classify(o, arg).Abbreviates? && Classify(o, arg).attaches)
  {
    hide Classify;
    var both := part + [o];
    assert both[|part|] == o;
    if SomeAttaches(part, arg) {
      var i :| 0 <= i < |part| && Classify(part[i], arg).Abbreviates? && Classify(part[i], arg).attaches;
      assert both[i] == part[i];
    }
  }

  lemma AttachesMeansValue(o: Opt, arg: string)
    requires Classify(o, arg).Abbreviates? && Classify(o, arg).attaches
    ensures Attached(arg).Some?
  {
  }

  /* ---------- the whole command line ---------- */

  // The run as a whole is what has been done so far, followed by the run over what remains
  ghost predicate Continues(whole: Outcome, output: seq<string>, writes: seq<Write>, rest: Outcome) {
    match rest
    case Exited(why) => whole == rest
    case Returned(_, out, ws) => whole.Returned? && whole.output == output + out && whole.writes == writes + ws
  }

  // One turn of the loop of parse_options
  lemma RunTurn(c: Config, lone: bool, pos: nat, optstr: Option<string>, all: seq<string>,
                whole: Outcome, output: seq<string>, writes: seq<Write>)
    requires pos < |all| && Continues(whole, output, writes, Run(c, lone, pos, optstr, all[pos..]))
    ensures var s := StepOf(c, lone, pos, optstr, all[pos], Head(all[pos + 1..]));
      match s
      case Stop(why) => whole == Exited(why)
      case Finish(marker) =>
        && whole.Returned? && whole.output == output + all[if marker then pos + 1 else pos..] && whole.writes == writes
      case Next(kept, ws, optstr', used) =>
        && pos + 1 + used <= |all|
        && Continues(whole, output + (if kept then [all[pos]] else []), writes + ws,
                     Run(c, lone, pos + 1 + used, optstr', all[pos + 1 + used..]))
  {
    hide StepOf, Continues, After;
    var args := all[pos..];
    assert args[0] == all[pos] && args[1..] == all[pos + 1..];
    var s := StepOf(c, lone, pos, optstr, all[pos], Head(all[pos + 1..]));
    match s
    case Stop(why) =>
      ContinueExit(whole, output, writes, why);
    case Finish(marker) =>
      ContinueFinish(whole, output, writes, marker, args);
      assert marker ==> args[1..] == all[pos + 1..];
    case Next(kept, ws, optstr', used) =>
      StepFits(c, lone, pos, optstr, args);
      assert args[1 + used..] == all[pos + 1 + used..];
      var rest := Run(c, lone, pos + 1 + used, optstr', all[pos + 1 + used..]);
      ContinueNext(whole, output, writes, kept, ws, used, args, rest);
  }

  lemma ContinueExit(whole: Outcome, output: seq<string>, writes: seq<Write>, why: Why)
    requires Continues(whole, output, writes, Exited(why))
    ensures whole == Exited(why)
  {
  }

  lemma ContinueFinish(whole: Outcome, output: seq<string>, writes: seq<Write>, marker: bool, args: seq<string>)
    requires args != [] && Continues(whole, output, writes, Finished(marker, args))
    ensures whole.Returned? && whole.output == output + (if marker then args[1..] else args) && whole.writes == writes
  {
    assert writes + [] == writes;
  }

  lemma ContinueNext(whole: Outcome, output: seq<string>, writes: seq<Write>,
                     kept: bool, ws: seq<Write>, used: nat, args: seq<string>, rest: Outcome)
    requires args != [] && Continues(whole, output, writes, After(kept, ws, used, args, rest))
    ensures Continues(whole, output + (if kept then [args[0]] else []), writes + ws, rest)
  {
    if rest.Returned? {
      var k := if kept then [args[0]] else [];
      assert output + (k + rest.output) == output + k + rest.output;
      assert writes + (ws + rest.writes) == writes + ws + rest.writes;
    }
  }

  lemma RunStarts(whole: Outcome)
    ensures Continues(whole, [], [], whole)
  {
    assert whole.Returned? ==> [] + whole.output == whole.output && [] + whole.writes == whole.writes;
  }

  lemma SameTail(b: seq<string>, all: seq<string>, p: nat, q: nat)
    requires p <= q <= |all| == |b| && b[p..] == all[p..]
    ensures b[q..] == all[q..] && (q < |all| ==> b[q] == all[q])
  {
    assert b[q..] == b[p..][q - p..] && all[q..] == all[p..][q - p..];
  }

  // Writing at or before the argument that is being read disturbs nothing that is still to be read
  lemma KeptInPlace(b: seq<string>, idx: nat, all: seq<string>, p: nat)
    requires idx <= p < |all| == |b| && b[p..] == all[p..]
    ensures var b' := b[idx := b[p]];
      b'[..idx + 1] == b[..idx] + [all[p]] && b'[p + 1..] == all[p + 1..]
  {
    SameTail(b, all, p, p + 1);
  }

  method MoveArray(args: array<string>, to: nat, from: nat, n: nat)
    requires to <= from && from + n == args.Length
    modifies args
    ensures args[..to + n] == old(args[..])[..to] + old(args[..])[from..]
  {
    forall i | 0 <= i < n {
      args[to + i] := args[from + i];
    }
  }

  // Between two turns of the loop
  ghost predicate Underway(ctx: ParserContext, all: seq<string>, whole: Outcome)
    reads ctx, ctx.vec
  {
    && ctx.Valid() && ctx.argc0 == |all| && ctx.vec[ctx.argv..] == all[ctx.argv..]
    && Continues(whole, ctx.vec[..ctx.idx], ctx.writes, Run(ctx.c, |all| == 1, ctx.argv, ctx.optstr, all[ctx.argv..]))
  }

  // When the loop is over: the output so far, and what remains to be moved up behind it
  ghost predicate Over(ctx: ParserContext, all: seq<string>, whole: Outcome)
    reads ctx, ctx.vec
  {
    && ctx.Valid() && ctx.argc0 == |all|
    && whole.Returned? && whole.output == ctx.vec[..ctx.idx] + ctx.vec[ctx.argv..] && whole.writes == ctx.writes
  }

  // One turn as the array sees it: b holds the output so far up to idx, and what is still to be read from p on
  lemma TurnInPlace(c: Config, lone: bool, b: seq<string>, p: nat, idx: nat, optstr: Option<string>, all: seq<string>,
                    whole: Outcome, writes: seq<Write>)
    requires idx <= p < |all| == |b| && b[p..] == all[p..]
    requires Continues(whole, b[..idx], writes, Run(c, lone, p, optstr, all[p..]))
    ensures match StepOf(c, lone, p, optstr, b[p], Head(b[p + 1..]))
      case Stop(why) => whole == Exited(why)
      case Finish(marker) =>
        whole.Returned? && whole.output == b[..idx] + b[if marker then p + 1 else p..] && whole.writes == writes
      case Next(kept, ws, optstr', used) =>
        var b', idx' := if kept then b[idx := b[p]] else b, if kept then idx + 1 else idx;
        && p + 1 + used <= |all| && b'[p + 1 + used..] == all[p + 1 + used..]
        && Continues(whole, b'[..idx'], writes + ws, Run(c, lone, p + 1 + used, optstr', all[p + 1 + used..]))
  {
    hide StepOf, Run, Continues;
    SameTail(b, all, p, p);
    SameTail(b, all, p, p + 1);
    RunTurn(c, lone, p, optstr, all, whole, b[..idx], writes);
    var s := StepOf(c, lone, p, optstr, b[p], Head(b[p + 1..]));
    if s.Next? {
      KeptInPlace(b, idx, all, p);
      SameTail(if s.kept then b[idx := b[p]] else b, all, p + 1, p + 1 + s.used);
      assert b[..idx] + [] == b[..idx];
    }
  }

  // The body of the loop of parse_options
  method Turn(ctx: ParserContext, ghost all: seq<string>, ghost whole: Outcome) returns (res: ParseResult)
    requires Underway(ctx, all, whole) && ctx.argc > 0
    modifies ctx, ctx.vec
    ensures match res
      case Done => Underway(ctx, all, whole) && ctx.argc < old(ctx.argc)
      case Complete => Over(ctx, all, whole)
      case Failure(why) => whole == Exited(why)
  {
    hide StepOf, Run, Continues;
    TurnInPlace(ctx.c, |all| == 1, ctx.vec[..], ctx.argv, ctx.idx, ctx.optstr, all, whole, ctx.writes);
    assert ctx.NextArg() == Head(ctx.vec[..][ctx.argv + 1..]);
    res := ctx.ParseOptionNext();
    if res.Done? {
      ctx.argc := ctx.argc - 1;
      ctx.argv := ctx.argv + 1;
    }
  }

  method ParseOptions(args: array<string>, c: Config) returns (r: ParseEnd, writes: seq<Write>)
    modifies args
    ensures match ParseRun(c, old(args[..]))
      case Exited(why) => r == Quit(why)
      case Returned(_, output, ws) =>
        r == Remain(|output|) && |output| <= args.Length && args[..|output|] == output && writes == ws
  {
    hide StepOf, Run, Continues;
    ghost var all := args[..];
    ghost var whole := ParseRun(c, all);
    var ctx := new ParserContext(c, args);
    assert all[0..] == all && args[..0] == [];
    RunStarts(whole);
    var res := Done;
    while ctx.argc > 0 && res.Done?
      invariant ctx.vec == args && ctx.c == c && fresh(ctx)
      invariant if res.Done? then Underway(ctx, all, whole) else res.Complete? && Over(ctx, all, whole)
      decreases res.Done?, ctx.argc
    {
      res := Turn(ctx, all, whole);
      if res.Failure? {
        return Quit(res.why), [];
      }
    }
    if res.Done? {
      assert all[ctx.argv..] == [] && ctx.vec[ctx.argv..] == [];
      NothingLeft(c, |all| == 1, ctx.argv, ctx.optstr, whole, args[..ctx.idx], ctx.writes);
    }
    writes := ctx.writes;
    r := Remain(ctx.idx + ctx.argc);
    MoveArray(args, ctx.idx, ctx.argv, ctx.argc);
  }

  lemma NothingLeft(c: Config, lone: bool, pos: nat, optstr: Option<string>,
                    whole: Outcome, output: seq<string>, writes: seq<Write>)
    requires Continues(whole, output, writes, Run(c, lone, pos, optstr, []))
    ensures whole.Returned? && whole.output == output + [] && whole.writes == writes
  {
    assert writes + [] == writes;
  }
}
