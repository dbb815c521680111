/** The command suggestion of src/command.c: score every command name, sort the names
    stably by score, keep the best ones. */
module Suggestion {
  import opened Wrappers
  import opened EditDistance
  import MergeSort
  import S = StrList
  import B = StrBuf

  // The prices that get_approximate_command passes to levenshtein_w
  const PRICES := Weights(1, 3, 2, 0)

  function Score(cmd: string, name: string): int {
    if cmd <= name then 0 else Distance(PRICES, cmd, name)
  }

  // A command that begins the name scores 0; any other scores the least cost of a script, at 1 for an insertion, 3 for
  // a deletion, 2 for a substitution and 0 for a transposition
  lemma ScoreMeans(cmd: string, name: string)
    ensures cmd <= name ==> Score(cmd, name) == 0
    ensures !(cmd <= name) ==> IsMinimumCost(Weights(1, 3, 2, 0), cmd, name, Score(cmd, name))
  {
    hide Cell, IsMinimumCost;
    DistanceIsMinimumCost(PRICES, cmd, name);
  }

  // What one edit adds to a score
  lemma EditsCost(a: char, b: char)
    requires a != b
    ensures Distance(PRICES, "", [a]) == 1 && Distance(PRICES, [a], "") == 3
    ensures Distance(PRICES, [a], [b]) == 2 && Distance(PRICES, [a, b], [b, a]) == 0
  {
    hide Cell;
    PricesMean(PRICES, a, b);
  }

  // Too far away from every name: nothing that it begins, and no script of cost 5 or less
  ghost predicate IsFar(names: seq<string>, cmd: string) {
    forall i :: 0 <= i < |names| ==>
      !(cmd <= names[i]) && forall sc: Script :: sc.Edits(cmd, names[i]) ==> sc.Cost(Weights(1, 3, 2, 0)) > 5
  }

  lemma NothingSuggestedMeans(names: seq<string>, cmd: string, m: int)
    requires IsLeastScore(names, cmd, m)
    ensures m > 5 <==> IsFar(names, cmd)
  {
    hide Score, IsMinimumCost;
    forall i | 0 <= i < |names|
      ensures Score(cmd, names[i]) > 5 <==>
        !(cmd <= names[i]) && forall sc: Script :: sc.Edits(cmd, names[i]) ==> sc.Cost(Weights(1, 3, 2, 0)) > 5
    {
      FarMeans(cmd, names[i]);
    }
  }

  lemma FarMeans(cmd: string, name: string)
    ensures Score(cmd, name) > 5 <==>
      !(cmd <= name) && forall sc: Script :: sc.Edits(cmd, name) ==> sc.Cost(Weights(1, 3, 2, 0)) > 5
  {
    hide Score;
    ScoreMeans(cmd, name);
  }

  // The int arithmetic of the distance stays in range (it is undefined behaviour otherwise)
  predicate FitsInt(cmd: string, name: string) {
    3 * |cmd| + |name| + 3 <= INT_MAX
  }

  lemma ScoreFits(cmd: string, name: string)
    requires FitsInt(cmd, name)
    ensures 0 <= Score(cmd, name) <= INT_MAX
  {
    hide Cell;
    CellFits(PRICES, cmd, name, |cmd|, |name|);
  }

  lemma ScoresFit(names: seq<string>, cmd: string, a: seq<S.Elem>)
    requires Scored(names, cmd, a) && forall i :: 0 <= i < |names| ==> FitsInt(cmd, names[i])
    ensures InIntRange(a) && |a| == |names|
  {
    hide Score;
    forall i | 0 <= i < |a|
      ensures 0 <= a[i].ext <= INT_MAX
    {
      ScoreFits(cmd, names[i]);
    }
  }

  // The conversion of a 64-bit difference to the int that a comparator returns
  function ToInt(x: int): int {
    (x + 0x8000_0000) % 0x1_0000_0000 - 0x8000_0000
  }

  function CommandDistanceCompar(e1: S.Elem, e2: S.Elem): int {
    ToInt(e1.ext - e2.ext)
  }

  ghost predicate Scored(names: seq<string>, cmd: string, a: seq<S.Elem>) {
    |a| == |names| && forall i :: 0 <= i < |a| ==> a[i] == S.Elem(names[i], Score(cmd, names[i]))
  }

  ghost predicate IsLeastScore(names: seq<string>, cmd: string, m: int) {
    && (exists i :: 0 <= i < |names| && Score(cmd, names[i]) == m)
    && (forall i :: 0 <= i < |names| ==> m <= Score(cmd, names[i]))
  }

  // The names of score m, in table order
  function NamesOfScore(names: seq<string>, cmd: string, m: int): seq<string> {
    S.Kept(names, name => Score(cmd, name) == m)
  }

  predicate AllPerfect(names: seq<string>, cmd: string) {
    forall i :: 0 <= i < |names| ==> Score(cmd, names[i]) == 0
  }

  // The names worth suggesting when the least score is m: all of that score, but no more than 7 if all are perfect
  function Suggested(names: seq<string>, cmd: string, m: int): seq<string> {
    if AllPerfect(names, cmd) then names[..if |names| > 7 then 7 else |names|]
    else NamesOfScore(names, cmd, m)
  }

  // What the source promises to suggest
  ghost predicate IsSuggestion(names: seq<string>, cmd: string, r: Option<seq<string>>) {
    exists m: int :: IsLeastScore(names, cmd, m) && r == if m > 5 then None else Some(Suggested(names, cmd, m))
  }

  /* ---------- the sorted scores ---------- */

  ghost predicate InIntRange(a: seq<S.Elem>) {
    forall i :: 0 <= i < |a| ==> 0 <= a[i].ext <= INT_MAX
  }

  lemma ComparOrders(x: S.Elem, y: S.Elem)
    requires 0 <= x.ext <= INT_MAX && 0 <= y.ext <= INT_MAX
    ensures MergeSort.AtMost(CommandDistanceCompar, x, y) <==> x.ext <= y.ext
  {
  }

  lemma ComparIsTotal(elems: set<S.Elem>)
    requires forall e :: e in elems ==> 0 <= e.ext <= INT_MAX
    ensures MergeSort.TotalPreorder(CommandDistanceCompar, elems)
  {
    hide MergeSort.AtMost;
    forall x, y | x in elems && y in elems
      ensures MergeSort.AtMost(CommandDistanceCompar, x, y) <==> x.ext <= y.ext
    {
      ComparOrders(x, y);
    }
  }

  // The elements of score m in a scored list are the names of score m
  lemma {:induction false} ClassIsNames(names: seq<string>, cmd: string, a: seq<S.Elem>, x: S.Elem)
    requires Scored(names, cmd, a) && InIntRange(a) && 0 <= x.ext <= INT_MAX
    ensures S.Strings(MergeSort.ClassOf(CommandDistanceCompar, x, a)) == NamesOfScore(names, cmd, x.ext)
  {
    hide Score;
    if a != [] {
      ClassIsNames(names[1..], cmd, a[1..], x);
      ComparOrders(x, a[0]);
      ComparOrders(a[0], x);
      S.KeptConcat([names[0]], names[1..], name => Score(cmd, name) == x.ext);
      assert names == [names[0]] + names[1..];
      S.KeptRun([names[0]], name => Score(cmd, name) == x.ext, 0, 0);
      assert [names[0]][..0] == [];
    }
  }

  // In an ordered list the leading run of equals is the whole class of the first element
  lemma {:induction false} LeadingRun(r: seq<S.Elem>, x: S.Elem, i: nat)
    requires InIntRange(r) && 0 <= x.ext <= INT_MAX && i <= |r|
    requires forall k :: 0 <= k < i ==> r[k].ext == x.ext
    requires forall k :: i <= k < |r| ==> x.ext < r[k].ext
    ensures MergeSort.ClassOf(CommandDistanceCompar, x, r) == r[..i]
  {
    hide MergeSort.AtMost;
    if i > 0 {
      ComparOrders(x, r[0]);
      ComparOrders(r[0], x);
      LeadingRun(r[1..], x, i - 1);
      assert r[..i] == [r[0]] + r[1..][..i - 1];
    } else {
      forall y | y in r
        ensures !MergeSort.AtMost(CommandDistanceCompar, y, x)
      {
        ComparOrders(y, x);
      }
      MergeSort.ClassOfAbove(CommandDistanceCompar, x, r);
    }
  }

  ghost predicate Ascending(r: seq<S.Elem>) {
    forall i, j :: 0 <= i < j < |r| ==> r[i].ext <= r[j].ext
  }

  lemma AscendingIsOrdered(r: seq<S.Elem>)
    requires InIntRange(r)
    ensures Ascending(r) <==> MergeSort.Ordered(CommandDistanceCompar, r)
  {
    hide MergeSort.AtMost;
    forall i, j | 0 <= i < j < |r|
      ensures MergeSort.AtMost(CommandDistanceCompar, r[i], r[j]) <==> r[i].ext <= r[j].ext
    {
      ComparOrders(r[i], r[j]);
    }
  }

  function Sorted(a: seq<S.Elem>): (r: seq<S.Elem>)
    ensures |r| == |a|
  {
    MergeSort.MergeSorted(CommandDistanceCompar, a)
  }

  lemma SortedIsStable(a: seq<S.Elem>) returns (elems: set<S.Elem>)
    requires InIntRange(a)
    ensures MergeSort.TotalPreorder(CommandDistanceCompar, elems) && forall e :: e in a <==> e in elems
    ensures MergeSort.IsStableSort(CommandDistanceCompar, elems, a, Sorted(a))
    ensures InIntRange(Sorted(a)) && Ascending(Sorted(a)) && forall e :: e in a <==> e in Sorted(a)
  {
    hide MergeSort.MergeSorted, MergeSort.ClassOf;
    elems := set e | e in a;
    ComparIsTotal(elems);
    MergeSort.MergeSortedIsStable(CommandDistanceCompar, elems, a);
    forall e
      ensures e in a <==> e in Sorted(a)
    {
      assert e in a <==> e in multiset(a);
      assert e in Sorted(a) <==> e in multiset(Sorted(a));
    }
    AscendingIsOrdered(Sorted(a));
  }

  // The head of the sorted list has the least score
  lemma HeadIsLeast(names: seq<string>, cmd: string, a: seq<S.Elem>)
    requires names != [] && Scored(names, cmd, a) && InIntRange(a)
    ensures IsLeastScore(names, cmd, Sorted(a)[0].ext)
  {
    hide Sorted, Score;
    var elems := SortedIsStable(a);
    var r := Sorted(a);
    assert r[0] in a;
    forall i | 0 <= i < |names|
      ensures r[0].ext <= Score(cmd, names[i])
    {
      assert a[i] in r;
    }
  }

  // Only stability makes this true: when all scores are equal the table order is kept
  lemma AllPerfectSorted(names: seq<string>, cmd: string, a: seq<S.Elem>)
    requires Scored(names, cmd, a) && InIntRange(a)
    ensures AllPerfect(names, cmd) <==> forall k :: 0 <= k < |a| ==> Sorted(a)[k].ext == 0
    ensures AllPerfect(names, cmd) ==> Sorted(a) == a
  {
    hide Score, MergeSort.MergeSorted, MergeSort.ClassOf;
    var elems := SortedIsStable(a);
    if AllPerfect(names, cmd) {
      AscendingIsOrdered(a);
      MergeSort.MergeSortedIsTheStableSort(CommandDistanceCompar, elems, a, a);
    } else {
      var i :| 0 <= i < |names| && Score(cmd, names[i]) != 0;
      assert a[i] in Sorted(a);
    }
  }

  // The leading run of the sorted list holds the names of least score, in table order
  lemma LeadingNames(names: seq<string>, cmd: string, a: seq<S.Elem>, i: nat)
    requires names != [] && Scored(names, cmd, a) && InIntRange(a) && i <= |a|
    requires var r := Sorted(a);
      && (forall k :: 0 <= k < i ==> r[k].ext == r[0].ext)
      && (i < |r| ==> r[i].ext != r[0].ext)
    ensures S.Strings(Sorted(a)[..i]) == NamesOfScore(names, cmd, Sorted(a)[0].ext)
  {
    hide Score, MergeSort.MergeSorted, MergeSort.ClassOf;
    var elems := SortedIsStable(a);
    var r := Sorted(a);
    assert r[0] in elems && 0 <= r[0].ext <= INT_MAX;
    LeadingRun(r, r[0], i);
    ClassIsNames(names, cmd, a, r[0]);
  }

  /* ---------- the command ---------- */

  // Every command name with its score, in table order
  method ScoreCommands(names: seq<string>, cmd: string) returns (sl: S.List)
    ensures fresh(sl) && fresh(sl.elvec) && sl.Valid() && Scored(names, cmd, sl.Contents())
  {
    hide Score;
    sl := new S.List(false);
    for i := 0 to |names|
      invariant sl.Valid() && fresh(sl) && fresh(sl.elvec)
      invariant sl.Contents() == S.Plain(names[..i])
    {
      sl.Push(names[i]);
      S.PlainSnoc(names[..i], names[i]);
      assert names[..i + 1] == names[..i] + [names[i]];
    }
    assert names[..|names|] == names;

    for i := 0 to sl.size
      invariant sl.Valid() && fresh(sl) && fresh(sl.elvec) && sl.size == |names|
      invariant forall k :: 0 <= k < i ==> sl.elvec[k] == S.Elem(names[k], Score(cmd, names[k]))
      invariant forall k :: i <= k < sl.size ==> sl.elvec[k] == S.Elem(names[k], 0)
    {
      var ext := ScoreOne(cmd, sl.elvec[i].str);
      sl.elvec[i] := sl.elvec[i].(ext := ext);
    }
  }

  method ScoreOne(cmd: string, name: string) returns (ext: int)
    ensures ext == Score(cmd, name)
    ensures if cmd <= name then ext == 0 else IsMinimumCost(Weights(1, 3, 2, 0), cmd, name, ext)
  {
    hide Cell, IsMinimumCost;
    ScoreMeans(cmd, name);
    var perfect := B.StartsWith(name, cmd);
    if perfect {
      ext := 0;
    } else {
      ext := LevenshteinW(cmd, name, PRICES);
    }
  }

  method GetApproximateCommand(names: seq<string>, cmd: string) returns (r: Option<seq<string>>)
    requires names != [] && forall i :: 0 <= i < |names| ==> FitsInt(cmd, names[i])
    ensures IsSuggestion(names, cmd, r)
    ensures r.None? <==> IsFar(names, cmd)
    ensures r.Some? && AllPerfect(names, cmd) ==> r.value == if |names| > 7 then names[..7] else names
  {
    hide Score, Sorted, Scored, InIntRange, Suggested, IsLeastScore, IsFar;
    var sl := ScoreCommands(names, cmd);
    ghost var a := sl.Contents();
    ScoresFit(names, cmd, a);
    SortCommands(sl);
    HeadIsLeast(names, cmd, a);
    NothingSuggestedMeans(names, cmd, Sorted(a)[0].ext);

    var mostSimilar := sl.elvec[0].ext;
    if mostSimilar > 5 {
      return None;
    }
    CutPerfect(sl);
    var i := LeadingEquals(sl, mostSimilar);
    var buf := sl.ToArray(i);
    r := Some(buf);
    assert sl.Contents()[..i] == Sorted(a)[..i];
    LeadingIsSuggested(names, cmd, a, sl.size, i);
    if AllPerfect(names, cmd) {
      PerfectAreCut(names, cmd, mostSimilar);
    }
  }

  // If every score is 0, no more than seven names are kept
  method CutPerfect(sl: S.List)
    requires sl.Valid()
    modifies sl`size
    ensures sl.Valid()
    ensures var a := old(sl.Contents());
      var perfect := forall k :: 0 <= k < |a| ==> a[k].ext == 0;
      sl.Contents() == if perfect && |a| > 7 then a[..7] else a
  {
    var i := LeadingEquals(sl, 0);
    if i == sl.size {
      if sl.size > 7 {
        sl.size := 7;
      }
    }
  }

  lemma PerfectAreCut(names: seq<string>, cmd: string, m: int)
    requires AllPerfect(names, cmd)
    ensures Suggested(names, cmd, m) == if |names| > 7 then names[..7] else names
  {
    assert names[..|names|] == names;
  }

  // The leading run of the sorted list, cut to size, is what the source promises to suggest
  lemma LeadingIsSuggested(names: seq<string>, cmd: string, a: seq<S.Elem>, size: nat, i: nat)
    requires names != [] && Scored(names, cmd, a) && InIntRange(a)
    requires var perfect := forall k :: 0 <= k < |a| ==> Sorted(a)[k].ext == 0;
      i <= size == if perfect && |a| > 7 then 7 else |a|
    requires var s := Sorted(a);
      (forall k :: 0 <= k < i ==> s[k].ext == s[0].ext) && (i < size ==> s[i].ext != s[0].ext)
    ensures S.Strings(Sorted(a)[..i]) == Suggested(names, cmd, Sorted(a)[0].ext)
  {
    hide Score, Sorted;
    AllPerfectSorted(names, cmd, a);
    if AllPerfect(names, cmd) {
      assert i == size;
      assert S.Strings(a[..i]) == names[..i];
    } else {
      LeadingNames(names, cmd, a, i);
    }
  }

  method SortCommands(sl: S.List)
    requires sl.Valid() && sl.size > 0
    modifies sl.elvec
    ensures sl.Valid() && sl.Contents() == Sorted(old(sl.Contents()))
  {
    assert sl.elvec[..][..sl.size] == sl.Contents();
    MergeSort.Sort(sl.elvec, sl.size, CommandDistanceCompar);
  }

  method LeadingEquals(sl: S.List, ext: int) returns (i: nat)
    requires sl.Valid()
    ensures i <= sl.size
    ensures forall k :: 0 <= k < i ==> sl.elvec[k].ext == ext
    ensures i < sl.size ==> sl.elvec[i].ext != ext
  {
    i := 0;
    while i < sl.size && sl.elvec[i].ext == ext
      invariant i <= sl.size
      invariant forall k :: 0 <= k < i ==> sl.elvec[k].ext == ext
    {
      i := i + 1;
    }
  }

  /* ---------- the real table ---------- */

  const COMMANDS: seq<string> :=
    ["count", "create", "delete", "help", "init", "makekey", "read", "update", "version"]

  // A score of 0 means a prefix, or a rearrangement of the same length
  lemma PerfectScore(cmd: string, name: string)
    requires Score(cmd, name) == 0
    ensures cmd <= name || |cmd| == |name|
  {
    hide Cell;
    CellLowerBound(PRICES, cmd, name, |cmd|, |name|);
  }

  lemma ImperfectFor(cmd: string, i: nat)
    requires cmd != "" && i < |COMMANDS| && cmd[0] != COMMANDS[i][0] && |cmd| != |COMMANDS[i]|
    ensures !AllPerfect(COMMANDS, cmd)
  {
    hide Score;
    if Score(cmd, COMMANDS[i]) == 0 {
      PerfectScore(cmd, COMMANDS[i]);
    }
  }

  // With the commands of the program the list is cut to seven names for the empty command and for no other
  lemma CutOnlyForEmptyCommand(cmd: string)
    ensures AllPerfect(COMMANDS, cmd) <==> cmd == ""
  {
    hide Cell;
    var count, delete, help := 0, 2, 3;
    if cmd == "" {
      assert forall i :: 0 <= i < |COMMANDS| ==> Score(cmd, COMMANDS[i]) == 0;
    } else if cmd[0] == 'c' {
      ImperfectFor(cmd, if |cmd| != |"delete"| then delete else help);
    } else if cmd[0] == 'd' {
      ImperfectFor(cmd, if |cmd| != |"count"| then count else help);
    } else {
      ImperfectFor(cmd, if |cmd| != |"count"| then count else delete);
    }
  }
}
