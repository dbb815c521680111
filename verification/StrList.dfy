/** The string list of src/strlist.c. */
module StrList {
  import opened Wrappers
  import opened Growth

  datatype Elem = Elem(str: string, ext: int)

  function Strings(a: seq<Elem>): (r: seq<string>)
    ensures |r| == |a| && forall i :: 0 <= i < |a| ==> r[i] == a[i].str
  {
    if a == [] then [] else Strings(a[..|a| - 1]) + [a[|a| - 1].str]
  }

  function Plain(a: seq<string>): (r: seq<Elem>)
    ensures |r| == |a| && forall i :: 0 <= i < |a| ==> r[i] == Elem(a[i], 0)
  {
    seq(|a|, i requires 0 <= i < |a| => Elem(a[i], 0))
  }

  /* ---------- splitting and joining strings ---------- */

  // Where c first stands in s, or |s| (strchr)
  function IndexOf(s: string, c: char): (k: nat)
    ensures k <= |s| && c !in s[..k] && (k < |s| ==> s[k] == c)
  {
    if s == [] || s[0] == c then 0
    else
      var k := IndexOf(s[1..], c);
      assert s[..k + 1] == [s[0]] + s[1..][..k];
      k + 1
  }

  // The pieces of s between delimiters; with maxsplit > 0 the last of at most maxsplit pieces takes the rest
  function Pieces(s: string, delim: char, maxsplit: int): seq<string>
    decreases |s|
  {
    var k := IndexOf(s, delim);
    if 0 <= maxsplit <= 1 || k == |s| then [s]
    else [s[..k]] + Pieces(s[k + 1..], delim, if maxsplit < 0 then maxsplit else maxsplit - 1)
  }

  lemma PiecesStep(s: string, delim: char, maxsplit: int)
    ensures var k := IndexOf(s, delim);
      Pieces(s, delim, maxsplit) ==
        if 0 <= maxsplit <= 1 || k == |s| then [s]
        else [s[..k]] + Pieces(s[k + 1..], delim, if maxsplit < 0 then maxsplit else maxsplit - 1)
  {
  }

  // maxsplit 0 means one piece, as 1 does
  function Limit(maxsplit: int): int {
    if maxsplit == 0 then 1 else maxsplit
  }

  function PiecesLeft(maxsplit: int, count: nat): int {
    if maxsplit < 0 then maxsplit else Limit(maxsplit) - count
  }

  // Of all the pieces those in done are found already, and rest is still to be split
  ghost predicate Splitting(all: seq<string>, done: seq<string>, rest: string, delim: char, maxsplit: int) {
    && (maxsplit >= 0 ==> |done| < Limit(maxsplit))
    && all == done + Pieces(rest, delim, PiecesLeft(maxsplit, |done|))
  }

  lemma SplitStarts(s: string, delim: char, maxsplit: int)
    ensures Splitting(Pieces(s, delim, maxsplit), [], s, delim, maxsplit)
  {
    hide Pieces;
    PiecesStep(s, delim, maxsplit);
    PiecesStep(s, delim, PiecesLeft(maxsplit, 0));
    assert forall all: seq<string> :: [] + all == all;
  }

  lemma SplitTurn(all: seq<string>, done: seq<string>, rest: string, delim: char, maxsplit: int)
    requires Splitting(all, done, rest, delim, maxsplit)
    ensures var k := IndexOf(rest, delim);
      if (maxsplit >= 0 && |done| + 1 >= maxsplit) || k == |rest| then all == done + [rest]
      else Splitting(all, done + [rest[..k]], rest[k + 1..], delim, maxsplit)
  {
    hide Pieces, IndexOf;
    var left := PiecesLeft(maxsplit, |done|);
    PiecesStep(rest, delim, left);
    var k := IndexOf(rest, delim);
    if !(0 <= left <= 1 || k == |rest|) {
      var more := Pieces(rest[k + 1..], delim, PiecesLeft(maxsplit, |done| + 1));
      assert done + ([rest[..k]] + more) == done + [rest[..k]] + more;
    }
  }

  lemma PlainSnoc(a: seq<string>, x: string)
    ensures Plain(a + [x]) == Plain(a) + [Elem(x, 0)]
  {
  }

  function JoinWith(parts: seq<string>, sep: string): string {
    if parts == [] then []
    else if |parts| == 1 then parts[0]
    else parts[0] + sep + JoinWith(parts[1..], sep)
  }

  // Joining with the delimiter undoes splitting, for every string and every maxsplit
  lemma {:induction false} JoinUndoesSplit(s: string, delim: char, maxsplit: int)
    ensures JoinWith(Pieces(s, delim, maxsplit), [delim]) == s
    decreases |s|
  {
    var k := IndexOf(s, delim);
    if !(0 <= maxsplit <= 1) && k < |s| {
      var m := if maxsplit < 0 then maxsplit else maxsplit - 1;
      JoinUndoesSplit(s[k + 1..], delim, m);
      var rest := Pieces(s[k + 1..], delim, m);
      assert ([s[..k]] + rest)[1..] == rest;
      assert s == s[..k] + [delim] + s[k + 1..];
    }
  }

  // How often c stands in s
  function Occurrences(s: string, c: char): nat {
    if s == "" then 0 else (if s[0] == c then 1 else 0) + Occurrences(s[1..], c)
  }

  lemma {:induction false} NextOccurrence(s: string, c: char)
    ensures var k := IndexOf(s, c);
      Occurrences(s, c) == if k == |s| then 0 else 1 + Occurrences(s[k + 1..], c)
  {
    if s != "" && s[0] != c {
      NextOccurrence(s[1..], c);
    }
  }

  // There is one piece more than delimiters, but no more pieces than asked for, and only the last may hold delimiters
  lemma {:induction false} PieceCount(s: string, delim: char, maxsplit: int)
    ensures 1 <= |Pieces(s, delim, maxsplit)|
    ensures var n, most := 1 + Occurrences(s, delim), if maxsplit == 0 then 1 else maxsplit;
      |Pieces(s, delim, maxsplit)| == if 0 <= maxsplit && most < n then most else n
    ensures forall i :: 0 <= i < |Pieces(s, delim, maxsplit)| - 1 ==> delim !in Pieces(s, delim, maxsplit)[i]
    ensures maxsplit < 0 ==> forall p :: p in Pieces(s, delim, maxsplit) ==> delim !in p
    decreases |s|
  {
    hide Pieces, Occurrences;
    PiecesStep(s, delim, maxsplit);
    NextOccurrence(s, delim);
    var k := IndexOf(s, delim);
    assert s[..|s|] == s;
    if !(0 <= maxsplit <= 1) && k < |s| {
      PieceCount(s[k + 1..], delim, if maxsplit < 0 then maxsplit else maxsplit - 1);
    }
  }

  lemma InPrefix(s: string, k: nat)
    requires k <= |s|
    ensures forall x :: 0 <= x < k ==> s[x] in s[..k]
  {
    forall x | 0 <= x < k
      ensures s[x] in s[..k]
    {
      assert s[..k][x] == s[x];
    }
  }

  lemma IndexOfUnique(s: string, c: char, k: nat)
    requires k <= |s| && c !in s[..k] && (k < |s| ==> s[k] == c)
    ensures IndexOf(s, c) == k
  {
    InPrefix(s, k);
    InPrefix(s, IndexOf(s, c));
  }

  // Splitting at one more delimiter
  lemma {:induction false} PiecesOfConcat(x: string, delim: char, y: string)
    ensures Pieces(x + [delim] + y, delim, -1) == Pieces(x, delim, -1) + Pieces(y, delim, -1)
    decreases |x|
  {
    var k := IndexOf(x, delim);
    var s := x + [delim] + y;
    assert s[..k] == x[..k];
    IndexOfUnique(s, delim, k);
    if k == |x| {
      assert s[..k] == x && s[k + 1..] == y;
    } else {
      assert s[k + 1..] == x[k + 1..] + [delim] + y;
      PiecesOfConcat(x[k + 1..], delim, y);
    }
  }

  lemma OnePiece(x: string, delim: char)
    requires delim !in x
    ensures Pieces(x, delim, -1) == [x]
  {
    assert x[..|x|] == x;
    IndexOfUnique(x, delim, |x|);
  }

  // An unlimited split undoes joining exactly when no part contains the delimiter
  lemma {:induction false} SplitUndoesJoin(parts: seq<string>, delim: char)
    requires parts != []
    ensures Pieces(JoinWith(parts, [delim]), delim, -1) == parts <==> forall p :: p in parts ==> delim !in p
  {
    if forall p :: p in parts ==> delim !in p {
      OnePiece(parts[0], delim);
      if |parts| > 1 {
        PiecesOfConcat(parts[0], delim, JoinWith(parts[1..], [delim]));
        SplitUndoesJoin(parts[1..], delim);
      }
    } else {
      PieceCount(JoinWith(parts, [delim]), delim, -1);
    }
  }

  // Every part followed by the separator, as strlist_join lays them out before it cuts the last separator off
  function Terminated(parts: seq<string>, sep: string): string {
    if parts == [] then [] else Terminated(parts[..|parts| - 1], sep) + (parts[|parts| - 1] + sep)
  }

  lemma {:induction false} TerminatedCons(parts: seq<string>, sep: string)
    requires parts != []
    ensures Terminated(parts, sep) == parts[0] + sep + Terminated(parts[1..], sep)
  {
    var n := |parts|;
    if n > 1 {
      TerminatedCons(parts[..n - 1], sep);
      assert parts[..n - 1][1..] == parts[1..][..n - 2];
    }
  }

  lemma TerminatedSnoc(parts: seq<string>, x: string, sep: string)
    ensures Terminated([], sep) == ""
    ensures Terminated(parts + [x], sep) == Terminated(parts, sep) + x + sep
  {
    assert (parts + [x])[..|parts|] == parts;
  }

  lemma {:induction false} JoinIsTerminated(parts: seq<string>, sep: string)
    requires parts != []
    ensures Terminated(parts, sep) == JoinWith(parts, sep) + sep
  {
    TerminatedCons(parts, sep);
    if |parts| > 1 {
      JoinIsTerminated(parts[1..], sep);
    }
  }

  // enum strlist_join_ext_pos
  datatype ExtPos = ExtNone | ExtHead | ExtTail

  // The string of each element with its ext string in front of it or behind it; an ext of 0 points to none
  function WithExts(a: seq<Elem>, pos: ExtPos, text: int -> string): (r: seq<string>)
    ensures |r| == |a|
  {
    seq(|a|, i requires 0 <= i < |a| =>
      if pos == ExtNone || a[i].ext == 0 then a[i].str
      else if pos == ExtHead then text(a[i].ext) + a[i].str
      else a[i].str + text(a[i].ext))
  }

  // One element joins to its own string, with its ext string where it was asked for
  lemma OneExt(el: Elem, pos: ExtPos, text: int -> string, sep: string)
    ensures el.ext == 0 ==> JoinWith(WithExts([el], pos, text), sep) == el.str
    ensures el.ext != 0 ==> JoinWith(WithExts([el], ExtHead, text), sep) == text(el.ext) + el.str
    ensures el.ext != 0 ==> JoinWith(WithExts([el], ExtTail, text), sep) == el.str + text(el.ext)
  {
  }

  // Without ext strings these are the plain strings of the list
  lemma PlainExts(a: seq<Elem>, text: int -> string)
    ensures WithExts(a, ExtNone, text) == Strings(a)
  {
  }

  /* ---------- filtering ---------- */

  // The elements of a that pass, in their order: what a filter should leave
  function Kept<T>(a: seq<T>, pass: T -> bool): (r: seq<T>)
    ensures |r| <= |a|
  {
    if a == [] then []
    else Kept(a[..|a| - 1], pass) + if pass(a[|a| - 1]) then [a[|a| - 1]] else []
  }

  // The places of the elements that do not pass, in ascending order
  function Rejected<T>(a: seq<T>, pass: T -> bool): (r: seq<nat>)
    ensures |r| + |Kept(a, pass)| == |a|
    ensures forall k :: 0 <= k < |r| ==> r[k] < |a|
  {
    if a == [] then []
    else Rejected(a[..|a| - 1], pass) + if pass(a[|a| - 1]) then [] else [|a| - 1]
  }

  lemma RejectedStep<T>(a: seq<T>, pass: T -> bool)
    requires a != []
    ensures var n := |a| - 1;
      Rejected(a, pass) == if pass(a[n]) then Rejected(a[..n], pass) else Rejected(a[..n], pass) + [n]
  {
  }

  lemma {:induction false} RejectedPlaces<T>(a: seq<T>, pass: T -> bool)
    ensures var r := Rejected(a, pass);
      && (forall i, j :: 0 <= i < j < |r| ==> r[i] < r[j])
      && (forall x :: 0 <= x < |a| ==> (pass(a[x]) <==> x !in r))
  {
    hide Rejected;
    if a != [] {
      var n := |a| - 1;
      var r, r' := Rejected(a, pass), Rejected(a[..n], pass);
      RejectedPlaces(a[..n], pass);
      RejectedStep(a, pass);
      assert n !in r';
      forall x | 0 <= x < |a|
        ensures pass(a[x]) <==> x !in r
      {
        assert x < n ==> a[..n][x] == a[x];
        assert r == r' || r == r' + [n];
      }
    }
  }

  // A run that passes is appended whole
  lemma {:induction false} KeptRun<T>(a: seq<T>, pass: T -> bool, lo: nat, hi: nat)
    requires lo <= hi <= |a| && forall x :: lo <= x < hi ==> pass(a[x])
    ensures Kept(a[..hi], pass) == Kept(a[..lo], pass) + a[lo..hi]
  {
    if lo < hi {
      KeptRun(a, pass, lo, hi - 1);
      assert a[..hi][..hi - 1] == a[..hi - 1];
      assert a[lo..hi] == a[lo..hi - 1] + [a[hi - 1]];
    }
  }

  lemma KeptDrops<T>(a: seq<T>, pass: T -> bool, x: nat)
    requires x < |a| && !pass(a[x])
    ensures Kept(a[..x + 1], pass) == Kept(a[..x], pass)
  {
    assert a[..x + 1][..x] == a[..x];
  }

  lemma Snoc<T>(a: seq<T>, x: T, pass: T -> bool)
    ensures Kept(a + [x], pass) == Kept(a, pass) + if pass(x) then [x] else []
    ensures Rejected(a + [x], pass) == Rejected(a, pass) + if pass(x) then [] else [|a|]
    ensures Kept<T>([], pass) == [] && Rejected<T>([], pass) == []
  {
    assert (a + [x])[..|a|] == a;
  }

  lemma {:induction false} KeptConcat<T>(a: seq<T>, b: seq<T>, pass: T -> bool)
    ensures Kept(a + b, pass) == Kept(a, pass) + Kept(b, pass)
  {
    if b == [] {
      assert a + b == a;
    } else {
      KeptConcat(a, b[..|b| - 1], pass);
      assert (a + b)[..|a + b| - 1] == a + b[..|b| - 1];
    }
  }

  // From this position on strlist_filter leaves the old occupants where they are. The bound of its last loop is
  // sl->size, which by then has been lowered once for every rejected element but the last.
  function StaleFrom<T>(a: seq<T>, pass: T -> bool): int {
    var n, r := |a|, Rejected(a, pass);
    var k := |r|;
    if k == 0 then n
    else if r[k - 1] + 1 - k >= n - 2 * k + 1 then r[k - 1] + 1 - k
    else n - 2 * k + 1
  }

  // What strlist_filter leaves
  function Filtered<T>(a: seq<T>, pass: T -> bool): (r: seq<T>)
    ensures |r| == |Kept(a, pass)|
  {
    seq(|Kept(a, pass)|, q requires 0 <= q < |Kept(a, pass)| =>
      if StaleFrom(a, pass) <= q then a[q] else Kept(a, pass)[q])
  }

  // How much of a has been dealt with before round i of the outer loop
  function DealtWith<T>(a: seq<T>, pass: T -> bool, i: nat): (upto: int)
    requires i <= |Rejected(a, pass)|
    ensures i < |Rejected(a, pass)| ==> upto == Rejected(a, pass)[i]
    ensures i == |Rejected(a, pass)| ==> upto - i == StaleFrom(a, pass)
  {
    if i < |Rejected(a, pass)| then Rejected(a, pass)[i] else StaleFrom(a, pass) + i
  }

  // The array before round i: what was kept so far, then the old occupants
  ghost predicate Compacted<T>(a: seq<T>, pass: T -> bool, i: nat, before: seq<T>, now: seq<T>) {
    && i <= |Rejected(a, pass)| && |a| <= |before| && before[..|a|] == a
    && var upto := DealtWith(a, pass, i);
    && i <= upto <= |a| && |Kept(a[..upto], pass)| == upto - i
    && now == Kept(a[..upto], pass) + before[upto - i..]
  }

  lemma CompactionStarts<T>(a: seq<T>, pass: T -> bool, before: seq<T>)
    requires |a| <= |before| && before[..|a|] == a
    ensures Compacted(a, pass, 0, before, before)
  {
    hide Kept, Rejected;
    RejectedPlaces(a, pass);
    var upto := DealtWith(a, pass, 0);
    KeptRun(a, pass, 0, upto);
    assert a[..0] == [];
    KeptConcat<T>([], [], pass);
    assert before == a[..upto] + before[upto..];
  }

  lemma SegmentPasses<T>(a: seq<T>, pass: T -> bool, i: nat)
    requires i < |Rejected(a, pass)|
    ensures var r := Rejected(a, pass);
      && i <= r[i] < |a| && !pass(a[r[i]])
      && (i + 1 < |r| ==> r[i] < r[i + 1] && forall x :: r[i] < x < r[i + 1] ==> pass(a[x]))
      && (i + 1 == |r| ==> forall x :: r[i] < x < |a| ==> pass(a[x]))
  {
    RejectedPlaces(a, pass);
    AscendingFrom(Rejected(a, pass), i);
  }

  lemma {:induction false} AscendingFrom(r: seq<nat>, i: nat)
    requires i < |r| && forall x, y :: 0 <= x < y < |r| ==> r[x] < r[y]
    ensures i <= r[i]
  {
    if i > 0 {
      AscendingFrom(r, i - 1);
    }
  }

  // The elements from ii up to stop, moved down by d places
  function Shifted<T>(a: seq<T>, ii: nat, stop: nat, d: nat): (r: seq<T>)
    requires 0 < d <= ii <= stop <= |a|
    ensures |r| == |a|
  {
    seq(|a|, q requires 0 <= q < |a| => if ii - d <= q < stop - d then a[q + d] else a[q])
  }

  lemma ShiftedTail<T>(kept: seq<T>, before: seq<T>, ii: nat, stop: nat, d: nat, e0: seq<T>, e1: seq<T>)
    requires 0 < d <= ii <= stop <= |before| && |kept| == ii - d
    requires e0 == kept + before[ii - d..]
    requires e1 == Shifted(e0, ii, stop, d)
    ensures e1 == (kept + before[ii..stop]) + before[stop - d..]
  {
    assert e0[..ii - d] == kept && e0[ii..stop] == before[ii..stop] && e0[stop - d..] == before[stop - d..];
  }

  // One round of the outer loop
  lemma CompactionRound<T>(a: seq<T>, pass: T -> bool, i: nat, before: seq<T>, e0: seq<T>, e1: seq<T>)
    requires i < |Rejected(a, pass)| && Compacted(a, pass, i, before, e0)
    requires var r := Rejected(a, pass);
      var ii, stop := r[i] + 1, if i < |r| - 1 then r[i + 1] else |a| - i;
      e1 == if ii <= stop then Shifted(e0, ii, stop, i + 1) else e0
    ensures Compacted(a, pass, i + 1, before, e1)
  {
    hide Kept, Rejected, Shifted, DealtWith;
    SegmentPasses(a, pass, i);
    DealtWithNext(a, pass, i);
    var r := Rejected(a, pass);
    var ii, stop := r[i] + 1, if i < |r| - 1 then r[i + 1] else |a| - i;
    KeptDrops(a, pass, r[i]);
    if ii <= stop {
      KeptRun(a, pass, ii, stop);
      SliceOfPrefix(a, before, ii, stop);
      ShiftedTail(Kept(a[..ii], pass), before, ii, stop, i + 1, e0, e1);
    }
  }

  lemma SliceOfPrefix<T>(a: seq<T>, before: seq<T>, lo: nat, hi: nat)
    requires lo <= hi <= |a| <= |before| && before[..|a|] == a
    ensures a[lo..hi] == before[lo..hi]
  {
    assert before[..|a|][lo..hi] == before[lo..hi];
  }

  // The last round ends where sl->size ends it, unless the last rejected element lies behind
  lemma DealtWithNext<T>(a: seq<T>, pass: T -> bool, i: nat)
    requires i < |Rejected(a, pass)|
    ensures var r := Rejected(a, pass);
      var ii, stop := r[i] + 1, if i < |r| - 1 then r[i + 1] else |a| - i;
      DealtWith(a, pass, i) == r[i] && DealtWith(a, pass, i + 1) == if ii <= stop then stop else ii
  {
    hide Rejected;
    SegmentPasses(a, pass, i);
  }

  lemma CompactionEnds<T>(a: seq<T>, pass: T -> bool, before: seq<T>, after: seq<T>)
    requires Compacted(a, pass, |Rejected(a, pass)|, before, after)
    ensures after[..|Kept(a, pass)|] == Filtered(a, pass)
  {
    hide Kept, Rejected;
    var k := |Rejected(a, pass)|;
    var upto := DealtWith(a, pass, k);
    KeptSplits(a, pass, upto);
    var r := Filtered(a, pass);
    forall q | 0 <= q < |Kept(a, pass)|
      ensures after[q] == r[q]
    {
      if q < upto - k {
        assert after[q] == Kept(a[..upto], pass)[q];
      } else {
        assert after[q] == before[q] == a[q];
      }
    }
  }

  lemma KeptSplits<T>(a: seq<T>, pass: T -> bool, upto: nat)
    requires upto <= |a| && upto == DealtWith(a, pass, |Rejected(a, pass)|)
    ensures Kept(a, pass) == Kept(a[..upto], pass) + a[upto..]
  {
    hide Kept, Rejected;
    if |Rejected(a, pass)| > 0 {
      LastRejected(a, pass);
    } else {
      RejectedPlaces(a, pass);
    }
    KeptRun(a, pass, upto, |a|);
    assert a[..|a|] == a;
  }

  // The guard that a caller can check: at most one element goes, or the last one goes
  ghost predicate SafeToFilter<T>(a: seq<T>, pass: T -> bool) {
    |Rejected(a, pass)| <= 1 || !pass(a[|a| - 1])
  }

  // The last rejected element: all after it pass
  lemma LastRejected<T>(a: seq<T>, pass: T -> bool)
    requires |Rejected(a, pass)| > 0
    ensures var k := |Rejected(a, pass)|;
      var t := Rejected(a, pass)[k - 1];
      && k - 1 <= t && !pass(a[t])
      && (forall x :: t < x < |a| ==> pass(a[x]))
      && Kept(a, pass) == Kept(a[..t + 1], pass) + a[t + 1..]
  {
    hide Kept, Rejected;
    var k := |Rejected(a, pass)|;
    SegmentPasses(a, pass, k - 1);
    KeptRun(a, pass, Rejected(a, pass)[k - 1] + 1, |a|);
    assert a[..|a|] == a;
  }

  lemma KeptTail<T>(a: seq<T>, pass: T -> bool, q: nat)
    requires StaleFrom(a, pass) <= q < |Kept(a, pass)|
    ensures var k := |Rejected(a, pass)|;
      k > 0 && q + k < |a| && pass(a[q + k]) && Kept(a, pass)[q] == a[q + k]
  {
    hide Kept;
    hide Rejected;
    LastRejected(a, pass);
  }

  // Exactly when strlist_filter is the filter it is meant to be
  lemma FilterExact<T>(a: seq<T>, pass: T -> bool)
    ensures Filtered(a, pass) == Kept(a, pass) <==>
      forall q: nat :: StaleFrom(a, pass) <= q < |Kept(a, pass)| ==> a[q] == a[q + |Rejected(a, pass)|]
  {
    hide Kept, Rejected, StaleFrom;
    forall q: nat | StaleFrom(a, pass) <= q < |Kept(a, pass)|
      ensures Filtered(a, pass)[q] == a[q] && Kept(a, pass)[q] == a[q + |Rejected(a, pass)|]
    {
      KeptTail(a, pass, q);
    }
    forall q: nat | q < StaleFrom(a, pass) && q < |Kept(a, pass)|
      ensures Filtered(a, pass)[q] == Kept(a, pass)[q]
    {
    }
    if forall q: nat :: StaleFrom(a, pass) <= q < |Kept(a, pass)| ==> a[q] == a[q + |Rejected(a, pass)|] {
      forall q: nat | q < |Kept(a, pass)|
        ensures Filtered(a, pass)[q] == Kept(a, pass)[q]
      {
        if StaleFrom(a, pass) <= q {
          assert a[q] == a[q + |Rejected(a, pass)|];
        }
      }
    }
  }

  lemma SafeFilter<T>(a: seq<T>, pass: T -> bool)
    requires SafeToFilter(a, pass)
    ensures Filtered(a, pass) == Kept(a, pass)
  {
    hide Kept, Rejected;
    if |Rejected(a, pass)| > 0 {
      LastRejected(a, pass);
    }
    assert StaleFrom(a, pass) >= |Kept(a, pass)|;
  }

  ghost predicate Distinct<T>(a: seq<T>) {
    forall i, j :: 0 <= i < j < |a| ==> a[i] != a[j]
  }

  // With no two equal elements (the strings of strlist_split are distinct allocations) the guard is also necessary
  lemma FilterExactForDistinct<T>(a: seq<T>, pass: T -> bool)
    requires Distinct(a)
    ensures Filtered(a, pass) == Kept(a, pass) <==> SafeToFilter(a, pass)
  {
    if SafeToFilter(a, pass) {
      SafeFilter(a, pass);
    } else {
      hide Kept, Rejected;
      LastRejected(a, pass);
      FilterExact(a, pass);
      var q := |Kept(a, pass)| - 1;
      assert StaleFrom(a, pass) <= q && a[q] != a[q + |Rejected(a, pass)|];
    }
  }

  // strlist_erase_at has freed the elements that do not pass, and freeing the list frees every element left in it
  ghost predicate SoundAfterFilter<T>(a: seq<T>, pass: T -> bool) {
    (forall x :: x in Filtered(a, pass) ==> pass(x)) && Distinct(Filtered(a, pass))
  }

  lemma {:induction false} KeptIsDistinct<T>(a: seq<T>, pass: T -> bool)
    requires Distinct(a)
    ensures Distinct(Kept(a, pass)) && forall x :: x in Kept(a, pass) ==> x in a && pass(x)
  {
    hide Kept;
    if a == [] {
      KeptNone(pass);
    } else {
      var b, x := a[..|a| - 1], a[|a| - 1];
      KeptIsDistinct(b, pass);
      assert a == b + [x] && x !in b;
      Snoc(b, x, pass);
    }
  }

  lemma KeptNone<T>(pass: T -> bool)
    ensures Kept<T>([], pass) == []
  {
  }

  // Where the element a[q] goes in the filtered list: no further back than it stands
  lemma KeptPlace<T>(a: seq<T>, pass: T -> bool, q: nat) returns (p: nat)
    requires q < |a| && pass(a[q])
    ensures p <= q && p < |Kept(a, pass)| && Kept(a, pass)[p] == a[q]
  {
    hide Kept;
    var x, y := a[..q], a[q + 1..];
    assert a == x + [a[q]] + y;
    Snoc(x, a[q], pass);
    KeptConcat(x + [a[q]], y, pass);
    p := |Kept(x, pass)|;
  }

  // For distinct allocations: no freed element and no element twice stays in the list exactly when the filter is safe
  lemma FilterSoundExactly<T>(a: seq<T>, pass: T -> bool)
    requires Distinct(a)
    ensures SoundAfterFilter(a, pass) <==> SafeToFilter(a, pass)
  {
    hide Kept, Rejected;
    KeptIsDistinct(a, pass);
    if SafeToFilter(a, pass) {
      SafeFilter(a, pass);
    } else {
      LastRejected(a, pass);
      var q, f := StaleFrom(a, pass), Filtered(a, pass);
      assert 0 <= q < |Kept(a, pass)|;
      KeptTail(a, pass, q);
      assert f[q] == a[q] && f[q] in f;
      if pass(a[q]) {
        var p := KeptPlace(a, pass, q);
        assert p != q;
        assert f[p] == a[q];
      }
    }
  }

  // Two rejected elements in front and nothing rejected at the end: the last element is lost, and a rejected one stays,
  // which has been freed
  lemma RejectedPushOut<T>(r1: T, r2: T, k: T, v: T, pass: T -> bool)
    requires !pass(r1) && !pass(r2) && pass(k) && pass(v)
    ensures !SafeToFilter([r1, r2, k, v], pass)
    ensures Kept([r1, r2, k, v], pass) == [k, v]
    ensures Filtered([r1, r2, k, v], pass) == [k, r2]
    ensures !SoundAfterFilter([r1, r2, k, v], pass)
  {
    hide Kept, Rejected;
    var a1, a2, a3 := [] + [r1], [] + [r1] + [r2], [] + [r1] + [r2] + [k];
    Snoc([], r1, pass);
    Snoc(a1, r2, pass);
    Snoc(a2, k, pass);
    Snoc(a3, v, pass);
    assert a3 + [v] == [r1, r2, k, v];
    assert Kept(a3 + [v], pass) == [k, v] && Rejected(a3 + [v], pass) == [0, 1];
    assert StaleFrom([r1, r2, k, v], pass) == 1;
    var f := Filtered([r1, r2, k, v], pass);
    assert f[0] == k && f[1] == r2 && r2 in f;
  }

  // On lines of a record file
  lemma FilterLosesLastLine()
    ensures var pass := (l: string) => l != "" && l[0] != '#';
      && Filtered(["#a", "#b", "c", "d"], pass) == ["c", "#b"] && Kept(["#a", "#b", "c", "d"], pass) == ["c", "d"]
      && !SoundAfterFilter(["#a", "#b", "c", "d"], pass)
  {
    hide Kept, Rejected, Filtered;
    RejectedPushOut("#a", "#b", "c", "d", (l: string) => l != "" && l[0] != '#');
  }

  /* ---------- the list ---------- */

  method Copy(buf: array<char>, at: nat, s: string)
    requires at + |s| <= buf.Length
    modifies buf
    ensures buf[..at + |s|] == old(buf[..])[..at] + s
  {
    forall k | 0 <= k < |s| {
      buf[at + k] := s[k];
    }
  }

  // One element with its ext string and the separator, from the offset at on
  method PutElem(buf: array<char>, at: nat, str: string, ext: string, separator: string, pos: ExtPos)
    requires at + |str| + |ext| + |separator| <= buf.Length && (pos.ExtNone? ==> ext == "")
    modifies buf
    ensures buf[..at + |str| + |ext| + |separator|] ==
      old(buf[..])[..at] + (if pos.ExtHead? then ext + str else str + ext) + separator
  {
    var next := at;
    if pos == ExtHead {
      Copy(buf, next, ext);
      next := next + |ext|;
    }
    Copy(buf, next, str);
    next := next + |str|;
    if pos == ExtTail {
      Copy(buf, next, ext);
      next := next + |ext|;
    }
    Copy(buf, next, separator);
  }

  class List {
    var elvec: array<Elem>
    var size: nat
    var capacity: nat
    const dupstr: bool
    // for the cost of growth: elements pushed so far, elements moved by reallocation so far
    ghost var pushed: nat
    ghost var moved: nat

    ghost predicate Valid()
      reads this
    {
      && size <= capacity == elvec.Length
      && size <= pushed
      && moved <= 2 * capacity <= 3 * pushed + 45
    }

    function Contents(): (r: seq<Elem>)
      requires Valid()
      reads this, elvec
    {
      elvec[..size]
    }

    constructor (dupstr: bool)
      ensures Valid() && Contents() == [] && this.dupstr == dupstr && pushed == 0 && fresh(elvec)
    {
      elvec := new Elem[0];
      size, capacity := 0, 0;
      this.dupstr := dupstr;
      pushed, moved := 0, 0;
    }

    method CapacityGrow(request: nat)
      requires Valid() && request <= pushed + 1
      modifies this`elvec, this`capacity, this`moved
      ensures size <= capacity == elvec.Length && request <= capacity
      ensures moved <= 2 * capacity <= 3 * (pushed + 1) + 45
      ensures elvec[..size] == old(elvec[..size]) && (elvec == old(elvec) || fresh(elvec))
    {
      if request > capacity {
        capacity := Grown(request, capacity);
        var buf := new Elem[capacity];
        forall k | 0 <= k < size {
          buf[k] := elvec[k];
        }
        moved := moved + size;
        elvec := buf;
      }
    }

    method Push(str: string)
      requires Valid()
      modifies this, elvec
      ensures Valid() && (elvec == old(elvec) || fresh(elvec))
      ensures Contents() == old(Contents()) + [Elem(str, 0)]
      ensures pushed == old(pushed) + 1
    {
      CapacityGrow(size + 1);
      elvec[size] := Elem(str, 0);
      size := size + 1;
      pushed := pushed + 1;
    }

    method Pop() returns (el: Option<Elem>)
      requires Valid()
      modifies this`size
      ensures Valid() && el.None? == (old(Contents()) == [])
      ensures old(Contents()) == Contents() + if el.Some? then [el.value] else []
    {
      if size == 0 {
        return None;
      }
      size := size - 1;
      el := Some(elvec[size]);
    }

    method Split(str: string, delim: char, maxsplit: int) returns (count: nat)
      requires Valid() && dupstr
      modifies this, elvec
      ensures Valid() && (elvec == old(elvec) || fresh(elvec))
      ensures Contents() == old(Contents()) + Plain(Pieces(str, delim, maxsplit))
      ensures count == |Pieces(str, delim, maxsplit)|
    {
      hide Pieces, Plain, Splitting;
      ghost var all := Pieces(str, delim, maxsplit);
      count := 0;
      var rest := str;
      ghost var done: seq<string> := [];
      SplitStarts(str, delim, maxsplit);
      while true
        invariant Valid() && (elvec == old(elvec) || fresh(elvec))
        invariant count == |done| && Contents() == old(Contents()) + Plain(done)
        invariant Splitting(all, done, rest, delim, maxsplit)
        decreases |rest|
      {
        SplitTurn(all, done, rest, delim, maxsplit);
        count := count + 1;
        if maxsplit >= 0 && count >= maxsplit {
          Push(rest);
          PlainSnoc(done, rest);
          return;
        }
        var pos := IndexOf(rest, delim);
        if pos < |rest| {
          Push(rest[..pos]);
          PlainSnoc(done, rest[..pos]);
          done := done + [rest[..pos]];
          rest := rest[pos + 1..];
        } else {
          Push(rest);
          PlainSnoc(done, rest);
          return;
        }
      }
    }

    method Filter(compar: Elem -> bool)
      requires Valid()
      modifies this`size, elvec
      ensures Valid() && Contents() == Filtered(old(Contents()), compar)
    {
      hide Rejected, Kept, Filtered, Compacted, Shifted;
      ghost var a, before := Contents(), elvec[..];
      var track := CollectRejected(compar);
      var tracksz := |track|;
      var iii := 0;
      CompactionStarts(a, compar, before);
      for i := 0 to tracksz
        invariant iii == i && size == |a| - i
        invariant Compacted(a, compar, i, before, elvec[..])
      {
        ghost var e0 := elvec[..];
        SegmentPasses(a, compar, i);
        iii := iii + 1;
        var ii := track[i] + 1;
        var stop := if i < tracksz - 1 then track[i + 1] else size;
        if ii <= stop {
          Shift(ii, stop, iii);
        }
        CompactionRound(a, compar, i, before, e0, elvec[..]);
        size := size - 1;
      }
      CompactionEnds(a, compar, before, elvec[..]);
    }

    // The first loop of strlist_filter
    method CollectRejected(compar: Elem -> bool) returns (track: seq<nat>)
      requires Valid()
      ensures track == Rejected(Contents(), compar)
    {
      track := [];
      for i := 0 to size
        invariant track == Rejected(elvec[..i], compar)
      {
        assert elvec[..i + 1][..i] == elvec[..i];
        if !compar(elvec[i]) {
          track := track + [i];
        }
      }
    }

    // text gives the string that an ext other than 0 points to
    method Join(separator: string, pos: ExtPos, text: int -> string) returns (joined: string)
      requires Valid() && size > 0 && separator != ""
      ensures joined == JoinWith(WithExts(Contents(), pos, text), separator)
    {
      hide JoinWith, Terminated;
      ghost var parts := WithExts(Contents(), pos, text);
      TerminatedSnoc([], "", separator);
      var bufsz, bufcap, sepsz := 0, 0, |separator|;
      var buf0 := new char[0];
      for el := 0 to size
        invariant fresh(buf0) && 0 <= bufsz <= bufcap == buf0.Length
        invariant buf0[..bufsz] == Terminated(parts[..el], separator)
      {
        assert parts[..el + 1] == parts[..el] + [parts[el]];
        TerminatedSnoc(parts[..el], parts[el], separator);
        var prevsz, str := bufsz, elvec[el].str;
        var ext := if pos != ExtNone && elvec[el].ext != 0 then text(elvec[el].ext) else "";
        bufsz := bufsz + |str| + |ext| + sepsz;
        if bufsz > bufcap {
          bufcap := Grown(bufsz, bufcap);
          var buf := new char[bufcap];
          forall k | 0 <= k < prevsz {
            buf[k] := buf0[k];
          }
          buf0 := buf;
        }
        assert buf0[..prevsz] == Terminated(parts[..el], separator);
        PutElem(buf0, prevsz, str, ext, separator, pos);
      }
      assert parts[..size] == parts;
      JoinIsTerminated(parts, separator);
      joined := buf0[..bufsz - sepsz];
    }

    method ToArray(n: nat) returns (buf: seq<string>)
      requires Valid()
      ensures buf == Strings(Contents()[..if n == 0 || n > size then size else n])
    {
      var m := if n == 0 || n > size then size else n;
      buf := [];
      for i := 0 to m
        invariant |buf| == i && forall k :: 0 <= k < i ==> buf[k] == elvec[k].str
      {
        buf := buf + [elvec[i].str];
      }
    }

    // The inner loop of strlist_filter: the elements from ii up to stop move down by iii places
    method Shift(ii0: nat, stop: nat, iii: nat)
      requires 0 < iii <= ii0 <= stop <= elvec.Length
      modifies elvec
      ensures elvec[..] == Shifted(old(elvec[..]), ii0, stop, iii)
    {
      var ii := ii0;
      while ii < stop
        invariant ii0 <= ii <= stop
        invariant forall q :: 0 <= q < elvec.Length ==>
          elvec[q] == if ii0 - iii <= q < ii - iii then old(elvec[q + iii]) else old(elvec[q])
      {
        elvec[ii - iii] := elvec[ii];
        ii := ii + 1;
      }
    }
  }
}
