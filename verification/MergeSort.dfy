/** The merge sort of src/sort.c: in place, with one scratch buffer shared by every
    recursive call, and with a leftover right run that is never copied. */
module MergeSort {

  // A comparator in the manner of qsort: positive when x belongs after y
  type Comparator<!T> = (T, T) -> int

  function Merge<T>(compar: Comparator<T>, l: seq<T>, r: seq<T>): (m: seq<T>)
    ensures |m| == |l| + |r|
  {
    if l == [] then r
    else if r == [] then l
    else if compar(l[0], r[0]) > 0 then [r[0]] + Merge(compar, l, r[1..])
    else [l[0]] + Merge(compar, l[1..], r)
  }

  // What the source's recursion leaves in the array, for any comparator at all
  function MergeSorted<T>(compar: Comparator<T>, a: seq<T>): (r: seq<T>)
    ensures |r| == |a|
    decreases |a|
  {
    if |a| <= 1 then a
    else
      var nl := |a| / 2;
      Merge(compar, MergeSorted(compar, a[..nl]), MergeSorted(compar, a[nl..]))
  }

  /* ---------- the algorithm in place ---------- */

  // memcpy: the two buffers do not overlap
  method MemCpy<T>(dst: array<T>, at: nat, src: array<T>, from: nat, n: nat)
    requires dst != src && at + n <= dst.Length && from + n <= src.Length
    modifies dst
    ensures dst[..] == old(dst[..at]) + src[from..from + n] + old(dst[at + n..])
  {
    forall k | 0 <= k < n {
      dst[at + k] := src[from + k];
    }
  }

  // Done is merged already, and the runs a[al..l9] and a[ar..r9] remain
  ghost predicate Merging<T>(compar: Comparator<T>, a: seq<T>, al: nat, l9: nat, ar: nat, r9: nat,
                             done: seq<T>, merged: seq<T>) {
    al <= l9 <= |a| && ar <= r9 <= |a| && merged == done + Merge(compar, a[al..l9], a[ar..r9])
  }

  lemma MergingStarts<T>(compar: Comparator<T>, a: seq<T>, al: nat, l9: nat, ar: nat, r9: nat)
    requires al <= l9 <= |a| && ar <= r9 <= |a|
    ensures Merging(compar, a, al, l9, ar, r9, [], Merge(compar, a[al..l9], a[ar..r9]))
  {
  }

  lemma MergeTurn<T>(compar: Comparator<T>, a: seq<T>, al: nat, l9: nat, ar: nat, r9: nat, done: seq<T>, merged: seq<T>)
    requires al < l9 && ar < r9 && Merging(compar, a, al, l9, ar, r9, done, merged)
    ensures ar < |a| && al < |a|
    ensures if compar(a[al], a[ar]) > 0 then Merging(compar, a, al, l9, ar + 1, r9, done + [a[ar]], merged)
            else Merging(compar, a, al + 1, l9, ar, r9, done + [a[al]], merged)
  {
    assert a[al..l9][1..] == a[al + 1..l9] && a[ar..r9][1..] == a[ar + 1..r9];
  }

  lemma MergeOver<T>(compar: Comparator<T>, a: seq<T>, al: nat, l9: nat, ar: nat, r9: nat, done: seq<T>, merged: seq<T>)
    requires (al == l9 || ar == r9) && Merging(compar, a, al, l9, ar, r9, done, merged)
    ensures merged == done + (a[al..l9] + a[ar..r9])
  {
  }

  // b is a with the n elements from lo on replaced by run
  ghost predicate Replaced<T>(a: seq<T>, lo: nat, n: nat, run: seq<T>, b: seq<T>) {
    && lo + n <= |a| == |b| && |run| == n
    && b[..lo] == a[..lo] && b[lo..lo + n] == run && b[lo + n..] == a[lo + n..]
  }

  // The body of the loop: the lesser head goes to the buffer, the left one if they are equal
  method TakeOne<T>(array_: array<T>, al: nat, ar: nat, compar: Comparator<T>, buf0: array<T>, buf: nat,
                    ghost done: seq<T>)
      returns (right: bool)
    requires al < array_.Length && ar < array_.Length && array_ != buf0
    requires buf < buf0.Length && buf0[..buf] == done
    modifies buf0
    ensures right == (compar(array_[al], array_[ar]) > 0)
    ensures buf0[..buf + 1] == done + [array_[if right then ar else al]]
  {
    right := compar(array_[al], array_[ar]) > 0;
    if right {
      buf0[buf] := array_[ar];
    } else {
      buf0[buf] := array_[al];
    }
  }

  // The loop: it ends when one of the two runs is used up
  method MergeLoop<T>(array_: array<T>, lo: nat, nl0: nat, nr0: nat, compar: Comparator<T>, buf0: array<T>)
      returns (al: nat, nl: nat, ar: nat, nr: nat, buf: nat)
    requires lo + nl0 + nr0 <= array_.Length && nl0 + nr0 <= buf0.Length && array_ != buf0
    modifies buf0
    ensures (nl == 0 || nr == 0) && al + nl == lo + nl0 && ar + nr == lo + nl0 + nr0 && buf + nl + nr == nl0 + nr0
    ensures var a, l9, r9 := array_[..], lo + nl0, lo + nl0 + nr0;
      Merging(compar, a, al, l9, ar, r9, buf0[..buf], Merge(compar, a[lo..l9], a[l9..r9]))
  {
    hide Merge, Merging;
    ghost var a, l9, r9 := array_[..], lo + nl0, lo + nl0 + nr0;
    ghost var merged, done: seq<T> := Merge(compar, a[lo..l9], a[l9..r9]), [];
    al, nl, ar, nr, buf := lo, nl0, lo + nl0, nr0, 0;
    MergingStarts(compar, a, al, l9, ar, r9);
    while nl > 0 && nr > 0
      invariant al + nl == l9 && ar + nr == r9 && buf + nl + nr == nl0 + nr0
      invariant buf0[..buf] == done && Merging(compar, a, al, l9, ar, r9, done, merged)
    {
      MergeTurn(compar, a, al, l9, ar, r9, done, merged);
      var right := TakeOne(array_, al, ar, compar, buf0, buf, done);
      done := done + [a[if right then ar else al]];
      buf := buf + 1;
      if right {
        ar, nr := ar + 1, nr - 1;
      } else {
        al, nl := al + 1, nl - 1;
      }
    }
  }

  // array_[lo..lo + nl0] and the nr0 elements after it are the two sorted runs
  method MergeRuns<T>(array_: array<T>, lo: nat, nl0: nat, nr0: nat, compar: Comparator<T>, buf0: array<T>)
    requires lo + nl0 + nr0 <= array_.Length && nl0 + nr0 <= buf0.Length && array_ != buf0
    modifies array_, buf0
    ensures Replaced(old(array_[..]), lo, nl0 + nr0,
      Merge(compar, old(array_[..])[lo..lo + nl0], old(array_[..])[lo + nl0..lo + nl0 + nr0]), array_[..])
  {
    hide Merge, Replaced, Merging;
    ghost var a := array_[..];
    ghost var l9, r9 := lo + nl0, lo + nl0 + nr0;
    ghost var merged := Merge(compar, a[lo..l9], a[l9..r9]);
    var al, nl, ar, nr, buf := MergeLoop(array_, lo, nl0, nr0, compar, buf0);
    MergeOver(compar, a, al, l9, ar, r9, buf0[..buf], merged);
    PutBack(array_, lo, nl0 + nr0, al, nl, nr, buf0, buf, merged);
  }

  // The leftover of the left run joins the merged part, which then goes back to the array
  method PutBack<T>(array_: array<T>, lo: nat, nmemb: nat, al: nat, nl: nat, nr: nat, buf0: array<T>, buf: nat,
                    ghost merged: seq<T>)
    requires buf + nl + nr == nmemb && lo + nmemb <= array_.Length && nmemb <= buf0.Length && array_ != buf0
    requires al + nl <= array_.Length
    requires merged == buf0[..buf] + (array_[..][al..al + nl] + array_[..][lo + nmemb - nr..lo + nmemb])
    modifies array_, buf0
    ensures Replaced(old(array_[..]), lo, nmemb, merged, array_[..])
  {
    hide Replaced;
    ghost var a0, done := array_[..], buf0[..buf];
    ghost var l := a0[al..al + nl];
    if nl > 0 {
      MemCpy(buf0, buf, array_, al, nl);
    }
    assert buf0[0..nmemb - nr] == done + l;
    MemCpy(array_, lo, buf0, 0, nmemb - nr);
    LeftoverInPlace(a0, lo, nmemb, nr, done, l, merged, array_[..]);
  }

  // The leftover right run already stands where it belongs
  lemma LeftoverInPlace<T>(a: seq<T>, lo: nat, n: nat, nr: nat, done: seq<T>, l: seq<T>, merged: seq<T>, b: seq<T>)
    requires nr <= n && lo + n <= |a| && |done| + |l| == n - nr
    requires merged == done + (l + a[lo + n - nr..lo + n])
    requires b == a[..lo] + (done + l) + a[lo + n - nr..]
    ensures Replaced(a, lo, n, merged, b)
  {
    forall k | n - nr <= k < n
      ensures b[lo + k] == a[lo + k] == merged[k]
    {
      assert a[lo + n - nr..][k - (n - nr)] == a[lo + k];
    }
  }

  method MergeSortNext<T>(array_: array<T>, lo: nat, nmemb: nat, compar: Comparator<T>, buf0: array<T>)
    requires lo + nmemb <= array_.Length && nmemb <= buf0.Length && array_ != buf0
    modifies array_, buf0
    ensures Replaced(old(array_[..]), lo, nmemb, MergeSorted(compar, old(array_[..])[lo..lo + nmemb]), array_[..])
    decreases nmemb
  {
    hide Merge, Replaced, MergeSorted;
    ghost var a0 := array_[..];
    ghost var a := a0[lo..lo + nmemb];
    if nmemb <= 1 {
      Unsplit(compar, a0, lo, nmemb);
      return;
    }
    var nl := nmemb / 2;
    var nr := nmemb - nl;
    MergeSortNext(array_, lo, nl, compar, buf0);
    ghost var a1 := array_[..];
    MergeSortNext(array_, lo + nl, nr, compar, buf0);
    ghost var a2 := array_[..];
    MergeRuns(array_, lo, nl, nr, compar, buf0);
    HalvesSorted(compar, a0, lo, nl, nr, a1, a2, array_[..]);
  }

  lemma Unsplit<T>(compar: Comparator<T>, a: seq<T>, lo: nat, n: nat)
    requires lo + n <= |a| && n <= 1
    ensures Replaced(a, lo, n, MergeSorted(compar, a[lo..lo + n]), a)
  {
  }

  lemma MergeSortedStep<T>(compar: Comparator<T>, l: seq<T>, r: seq<T>)
    requires |l| + |r| > 1 && |l| == (|l| + |r|) / 2
    ensures MergeSorted(compar, l + r) == Merge(compar, MergeSorted(compar, l), MergeSorted(compar, r))
  {
    assert (l + r)[..|l|] == l && (l + r)[|l|..] == r;
  }

  lemma HalvesSorted<T>(compar: Comparator<T>, a0: seq<T>, lo: nat, nl: nat, nr: nat,
                        a1: seq<T>, a2: seq<T>, a3: seq<T>)
    requires lo + nl + nr <= |a0| && nl + nr > 1 && nl == (nl + nr) / 2
    requires Replaced(a0, lo, nl, MergeSorted(compar, a0[lo..lo + nl]), a1)
    requires Replaced(a1, lo + nl, nr, MergeSorted(compar, a1[lo + nl..lo + nl + nr]), a2)
    requires Replaced(a2, lo, nl + nr, Merge(compar, a2[lo..lo + nl], a2[lo + nl..lo + nl + nr]), a3)
    ensures Replaced(a0, lo, nl + nr, MergeSorted(compar, a0[lo..lo + nl + nr]), a3)
  {
    hide Merge, MergeSorted;
    var l, r := a0[lo..lo + nl], a0[lo + nl..lo + nl + nr];
    assert a0[lo..lo + nl + nr] == l + r;
    MergeSortedStep(compar, l, r);
    SlicesKept(a0, a1, lo + nl, lo + nl + nr);
    FrontKept(a1, a2, lo, lo + nl);
  }

  lemma FrontKept<T>(a: seq<T>, b: seq<T>, lo: nat, mid: nat)
    requires lo <= mid <= |a| == |b| && a[..mid] == b[..mid]
    ensures a[..lo] == b[..lo] && a[lo..mid] == b[lo..mid]
  {
    assert a[..lo] == a[..mid][..lo] && b[..lo] == b[..mid][..lo];
    assert a[lo..mid] == a[..mid][lo..] && b[lo..mid] == b[..mid][lo..];
  }

  lemma SlicesKept<T>(a: seq<T>, b: seq<T>, mid: nat, hi: nat)
    requires mid <= hi <= |a| == |b| && a[mid..] == b[mid..]
    ensures a[mid..hi] == b[mid..hi] && a[hi..] == b[hi..]
  {
    assert a[mid..hi] == a[mid..][..hi - mid] && a[hi..] == a[mid..][hi - mid..];
    assert b[mid..hi] == b[mid..][..hi - mid] && b[hi..] == b[mid..][hi - mid..];
  }

  method Sort<T(0)>(array_: array<T>, nmemb: nat, compar: Comparator<T>)
    requires 0 < nmemb <= array_.Length
    modifies array_
    ensures array_[..nmemb] == MergeSorted(compar, old(array_[..])[..nmemb])
    ensures array_[nmemb..] == old(array_[nmemb..])
  {
    var buf := new T[nmemb];
    MergeSortNext(array_, 0, nmemb, compar, buf);
    assert array_[..nmemb] == array_[..][0..nmemb] && old(array_[..])[0..nmemb] == old(array_[..])[..nmemb];
    assert array_[nmemb..] == array_[..][nmemb..];
  }

  /* ---------- what a stable sort is ---------- */

  predicate AtMost<T>(compar: Comparator<T>, x: T, y: T) {
    compar(x, y) <= 0
  }

  predicate Equivalent<T>(compar: Comparator<T>, x: T, y: T) {
    AtMost(compar, x, y) && AtMost(compar, y, x)
  }

  // The comparator is a total preorder on the elements that are being sorted
  ghost predicate TotalPreorder<T>(compar: Comparator<T>, elems: set<T>) {
    && (forall x, y :: x in elems && y in elems ==> AtMost(compar, x, y) || AtMost(compar, y, x))
    && (forall x, y, z :: x in elems && y in elems && z in elems && AtMost(compar, x, y) && AtMost(compar, y, z)
          ==> AtMost(compar, x, z))
  }

  ghost predicate Over<T>(a: seq<T>, elems: set<T>) {
    forall x :: x in a ==> x in elems
  }

  // The elements of a that rank equal to x, in their order
  function ClassOf<T>(compar: Comparator<T>, x: T, a: seq<T>): seq<T> {
    if a == [] then []
    else (if Equivalent(compar, x, a[0]) then [a[0]] else []) + ClassOf(compar, x, a[1..])
  }

  ghost predicate Ordered<T>(compar: Comparator<T>, a: seq<T>) {
    forall i, j :: 0 <= i < j < |a| ==> AtMost(compar, a[i], a[j])
  }

  // r is a, ordered, with equals in their old order
  ghost predicate IsStableSort<T>(compar: Comparator<T>, elems: set<T>, a: seq<T>, r: seq<T>) {
    && Ordered(compar, r)
    && multiset(r) == multiset(a)
    && forall x :: x in elems ==> ClassOf(compar, x, r) == ClassOf(compar, x, a)
  }

  function Ranked<T>(compar: Comparator<T>, x: T, y: T): seq<T> {
    if Equivalent(compar, x, y) then [y] else []
  }

  lemma ClassOfCons<T>(compar: Comparator<T>, x: T, y: T, a: seq<T>)
    ensures ClassOf(compar, x, [y] + a) == Ranked(compar, x, y) + ClassOf(compar, x, a)
  {
    hide Equivalent;
    assert ([y] + a)[1..] == a;
  }

  lemma ClassOfNone<T>(compar: Comparator<T>, x: T)
    ensures ClassOf(compar, x, []) == []
  {
  }

  lemma {:induction false} ClassOfConcat<T>(compar: Comparator<T>, x: T, a: seq<T>, b: seq<T>)
    ensures ClassOf(compar, x, a + b) == ClassOf(compar, x, a) + ClassOf(compar, x, b)
  {
    hide ClassOf, Ranked;
    if a == [] {
      assert a + b == b;
      ClassOfNone(compar, x);
    } else {
      var y, rest := a[0], a[1..];
      assert a == [y] + rest && a + b == [y] + (rest + b);
      ClassOfConcat(compar, x, rest, b);
      ClassOfCons(compar, x, y, rest);
      ClassOfCons(compar, x, y, rest + b);
    }
  }

  // Nothing ranks equal to x in a run that lies above x
  lemma {:induction false} ClassOfAbove<T>(compar: Comparator<T>, x: T, a: seq<T>)
    requires forall y :: y in a ==> !AtMost(compar, y, x)
    ensures ClassOf(compar, x, a) == []
  {
    if a != [] {
      ClassOfAbove(compar, x, a[1..]);
    }
  }

  // A least element in front stays in front
  lemma StableCons<T>(compar: Comparator<T>, elems: set<T>, x: T, a: seq<T>, r: seq<T>)
    requires IsStableSort(compar, elems, a, r)
    requires forall y :: y in r ==> AtMost(compar, x, y)
    ensures IsStableSort(compar, elems, [x] + a, [x] + r)
  {
    hide ClassOf;
    forall z | z in elems
      ensures ClassOf(compar, z, [x] + r) == ClassOf(compar, z, [x] + a)
    {
      ClassOfConcat(compar, z, [x], a);
      ClassOfConcat(compar, z, [x], r);
    }
  }

  // An element may pass over a run that lies strictly above it
  lemma MoveOver<T>(compar: Comparator<T>, elems: set<T>, l: seq<T>, y: T, r: seq<T>, m: seq<T>)
    requires TotalPreorder(compar, elems) && Over(l, elems) && y in elems
    requires forall z :: z in l ==> !AtMost(compar, z, y)
    requires IsStableSort(compar, elems, [y] + (l + r), m)
    ensures IsStableSort(compar, elems, l + ([y] + r), m)
  {
    hide ClassOf;
    calc {
      multiset([y] + (l + r));
      multiset([y]) + multiset(l + r);
      multiset([y]) + (multiset(l) + multiset(r));
      multiset(l) + multiset([y] + r);
      multiset(l + ([y] + r));
    }
    forall x | x in elems
      ensures ClassOf(compar, x, m) == ClassOf(compar, x, l + ([y] + r))
    {
      MoveOverInClass(compar, elems, x, l, y, r);
    }
  }

  lemma MoveOverInClass<T>(compar: Comparator<T>, elems: set<T>, x: T, l: seq<T>, y: T, r: seq<T>)
    requires TotalPreorder(compar, elems) && Over(l, elems) && y in elems && x in elems
    requires forall z :: z in l ==> !AtMost(compar, z, y)
    ensures ClassOf(compar, x, [y] + (l + r)) == ClassOf(compar, x, l + ([y] + r))
  {
    ClassOfConcat(compar, x, [y], l + r);
    ClassOfConcat(compar, x, l, r);
    ClassOfConcat(compar, x, l, [y] + r);
    ClassOfConcat(compar, x, [y], r);
    if Equivalent(compar, x, y) {
      forall z | z in l
        ensures !AtMost(compar, z, x)
      {
        assert AtMost(compar, z, x) ==> AtMost(compar, z, y);
      }
      ClassOfAbove(compar, x, l);
    } else {
      assert ClassOf(compar, x, [y]) == [];
    }
  }

  // The merge takes the head of the right run: it lies strictly below everything in the left one
  lemma TakeRight<T>(compar: Comparator<T>, elems: set<T>, l: seq<T>, r: seq<T>, m: seq<T>)
    requires TotalPreorder(compar, elems) && Over(l, elems) && Over(r, elems)
    requires Ordered(compar, l) && Ordered(compar, r) && l != [] && r != [] && compar(l[0], r[0]) > 0
    requires IsStableSort(compar, elems, l + r[1..], m)
    ensures IsStableSort(compar, elems, l + r, [r[0]] + m)
  {
    hide IsStableSort;
    var x, y := l[0], r[0];
    assert x in elems && y in elems && AtMost(compar, x, x) && AtMost(compar, y, y);
    SameMultiset(compar, elems, l + r[1..], m);
    AllAbove(compar, y, l, r[1..], m);
    StableCons(compar, elems, y, l + r[1..], m);
    assert r == [y] + r[1..];
    MoveOver(compar, elems, l, y, r[1..], [y] + m);
  }

  lemma TakeLeft<T>(compar: Comparator<T>, elems: set<T>, l: seq<T>, r: seq<T>, m: seq<T>)
    requires TotalPreorder(compar, elems) && Over(l, elems) && Over(r, elems)
    requires Ordered(compar, l) && Ordered(compar, r) && l != [] && r != [] && compar(l[0], r[0]) <= 0
    requires IsStableSort(compar, elems, l[1..] + r, m)
    ensures IsStableSort(compar, elems, l + r, [l[0]] + m)
  {
    hide IsStableSort;
    var x, y := l[0], r[0];
    assert x in elems && y in elems && AtMost(compar, x, y) && AtMost(compar, y, y);
    SameMultiset(compar, elems, l[1..] + r, m);
    AllAbove(compar, x, l[1..], r, m);
    StableCons(compar, elems, x, l[1..] + r, m);
    assert l + r == [x] + (l[1..] + r);
  }

  lemma SameMultiset<T>(compar: Comparator<T>, elems: set<T>, a: seq<T>, r: seq<T>)
    requires IsStableSort(compar, elems, a, r)
    ensures multiset(r) == multiset(a) && Ordered(compar, r)
  {
  }

  lemma OrderedIsStable<T>(compar: Comparator<T>, elems: set<T>, a: seq<T>)
    requires Ordered(compar, a)
    ensures IsStableSort(compar, elems, a, a)
  {
  }

  lemma OrderedTail<T>(compar: Comparator<T>, elems: set<T>, a: seq<T>)
    requires a != [] && Ordered(compar, a) && Over(a, elems)
    ensures Ordered(compar, a[1..]) && Over(a[1..], elems)
  {
  }

  lemma {:induction false} MergeIsStable<T>(compar: Comparator<T>, elems: set<T>, l: seq<T>, r: seq<T>)
    requires TotalPreorder(compar, elems) && Over(l, elems) && Over(r, elems)
    requires Ordered(compar, l) && Ordered(compar, r)
    ensures IsStableSort(compar, elems, l + r, Merge(compar, l, r))
  {
    hide IsStableSort, TotalPreorder, Ordered, Over;
    if l == [] {
      assert l + r == r;
      OrderedIsStable(compar, elems, r);
    } else if r == [] {
      assert l + r == l;
      OrderedIsStable(compar, elems, l);
    } else if compar(l[0], r[0]) > 0 {
      OrderedTail(compar, elems, r);
      MergeIsStable(compar, elems, l, r[1..]);
      TakeRight(compar, elems, l, r, Merge(compar, l, r[1..]));
    } else {
      OrderedTail(compar, elems, l);
      MergeIsStable(compar, elems, l[1..], r);
      TakeLeft(compar, elems, l, r, Merge(compar, l[1..], r));
    }
  }

  lemma AllAbove<T>(compar: Comparator<T>, x: T, l: seq<T>, r: seq<T>, m: seq<T>)
    requires forall y :: y in l ==> AtMost(compar, x, y)
    requires forall y :: y in r ==> AtMost(compar, x, y)
    requires multiset(m) == multiset(l + r)
    ensures forall y :: y in m ==> AtMost(compar, x, y)
  {
    forall y | y in m
      ensures AtMost(compar, x, y)
    {
      assert y in multiset(l + r);
    }
  }

  lemma IsStableSortTrans<T>(compar: Comparator<T>, elems: set<T>, l: seq<T>, l': seq<T>, r: seq<T>, r': seq<T>,
                             m: seq<T>)
    requires IsStableSort(compar, elems, l, l') && IsStableSort(compar, elems, r, r')
    requires IsStableSort(compar, elems, l' + r', m)
    ensures IsStableSort(compar, elems, l + r, m)
  {
    forall x | x in elems
      ensures ClassOf(compar, x, m) == ClassOf(compar, x, l + r)
    {
      ClassOfConcat(compar, x, l, r);
      ClassOfConcat(compar, x, l', r');
    }
  }

  lemma SameElements<T>(a: seq<T>, r: seq<T>, elems: set<T>)
    requires multiset(a) == multiset(r) && Over(a, elems)
    ensures Over(r, elems)
  {
    forall x | x in r
      ensures x in elems
    {
      assert x in multiset(a);
    }
  }

  lemma ShortIsStable<T>(compar: Comparator<T>, elems: set<T>, a: seq<T>)
    requires |a| <= 1
    ensures IsStableSort(compar, elems, a, a)
  {
  }

  lemma StableOver<T>(compar: Comparator<T>, elems: set<T>, a: seq<T>, r: seq<T>)
    requires IsStableSort(compar, elems, a, r) && Over(a, elems)
    ensures Over(r, elems) && Ordered(compar, r)
  {
    SameElements(a, r, elems);
  }

  lemma {:induction false} MergeSortedIsStable<T>(compar: Comparator<T>, elems: set<T>, a: seq<T>)
    requires TotalPreorder(compar, elems) && Over(a, elems)
    ensures IsStableSort(compar, elems, a, MergeSorted(compar, a))
    decreases |a|
  {
    hide ClassOf, Merge, IsStableSort, TotalPreorder, Ordered;
    if |a| <= 1 {
      ShortIsStable(compar, elems, a);
    } else {
      var nl := |a| / 2;
      var l, r := a[..nl], a[nl..];
      var l', r' := MergeSorted(compar, l), MergeSorted(compar, r);
      MergeSortedIsStable(compar, elems, l);
      MergeSortedIsStable(compar, elems, r);
      StableOver(compar, elems, l, l');
      StableOver(compar, elems, r, r');
      MergeIsStable(compar, elems, l', r');
      IsStableSortTrans(compar, elems, l, l', r, r', MergeSorted(compar, a));
      assert a == l + r;
    }
  }

  /* ---------- there is only one stable sort ---------- */

  lemma {:induction false} ClassOfFirst<T>(compar: Comparator<T>, x: T, a: seq<T>)
    requires ClassOf(compar, x, a) != []
    ensures ClassOf(compar, x, a)[0] in a && Equivalent(compar, x, ClassOf(compar, x, a)[0])
  {
    if !Equivalent(compar, x, a[0]) {
      ClassOfFirst(compar, x, a[1..]);
    }
  }

  // The head of an ordered run is the head of its own class, and its class is a least one
  lemma HeadsAgree<T>(compar: Comparator<T>, elems: set<T>, r1: seq<T>, r2: seq<T>)
    requires TotalPreorder(compar, elems) && Over(r1, elems) && Over(r2, elems)
    requires Ordered(compar, r1) && Ordered(compar, r2) && r1 != [] && r2 != []
    requires forall x :: x in elems ==> ClassOf(compar, x, r1) == ClassOf(compar, x, r2)
    ensures r1[0] == r2[0]
  {
    var x, y := r1[0], r2[0];
    assert x in elems && y in elems;
    assert ClassOf(compar, x, r2) == ClassOf(compar, x, r1) != [];
    ClassOfFirst(compar, x, r2);
    assert ClassOf(compar, y, r1) == ClassOf(compar, y, r2) != [];
    ClassOfFirst(compar, y, r1);
    var x', y' := ClassOf(compar, x, r2)[0], ClassOf(compar, y, r1)[0];
    assert AtMost(compar, y, x') && AtMost(compar, x, y');
    assert Equivalent(compar, x, y);
    assert ClassOf(compar, x, r1)[0] == x && ClassOf(compar, x, r2)[0] == y;
  }

  lemma {:induction false} StableSortIsUnique<T>(compar: Comparator<T>, elems: set<T>, r1: seq<T>, r2: seq<T>)
    requires TotalPreorder(compar, elems) && Over(r1, elems) && Over(r2, elems)
    requires Ordered(compar, r1) && Ordered(compar, r2) && |r1| == |r2|
    requires forall x :: x in elems ==> ClassOf(compar, x, r1) == ClassOf(compar, x, r2)
    ensures r1 == r2
  {
    if r1 != [] {
      HeadsAgree(compar, elems, r1, r2);
      forall x | x in elems
        ensures ClassOf(compar, x, r1[1..]) == ClassOf(compar, x, r2[1..])
      {
        var h := if Equivalent(compar, x, r1[0]) then [r1[0]] else [];
        assert ClassOf(compar, x, r1)[|h|..] == ClassOf(compar, x, r1[1..]);
        assert ClassOf(compar, x, r2)[|h|..] == ClassOf(compar, x, r2[1..]);
      }
      StableSortIsUnique(compar, elems, r1[1..], r2[1..]);
      assert r1 == [r1[0]] + r1[1..] && r2 == [r2[0]] + r2[1..];
    }
  }

  // x goes in front of the first element that does not belong before it
  function InsertStably<T>(compar: Comparator<T>, x: T, r: seq<T>): seq<T> {
    if r == [] then [x]
    else if compar(x, r[0]) > 0 then [r[0]] + InsertStably(compar, x, r[1..])
    else [x] + r
  }

  function InsertionSorted<T>(compar: Comparator<T>, a: seq<T>): seq<T> {
    if a == [] then [] else InsertStably(compar, a[0], InsertionSorted(compar, a[1..]))
  }

  lemma {:induction false} InsertIsMerge<T>(compar: Comparator<T>, x: T, r: seq<T>)
    ensures InsertStably(compar, x, r) == Merge(compar, [x], r)
  {
    if r != [] && compar(x, r[0]) > 0 {
      InsertIsMerge(compar, x, r[1..]);
    }
  }

  lemma {:induction false} InsertionSortedIsStable<T>(compar: Comparator<T>, elems: set<T>, a: seq<T>)
    requires TotalPreorder(compar, elems) && Over(a, elems)
    ensures IsStableSort(compar, elems, a, InsertionSorted(compar, a))
  {
    if a != [] {
      var r := InsertionSorted(compar, a[1..]);
      InsertionSortedIsStable(compar, elems, a[1..]);
      SameElements(a[1..], r, elems);
      InsertIsMerge(compar, a[0], r);
      MergeIsStable(compar, elems, [a[0]], r);
      IsStableSortTrans(compar, elems, [a[0]], [a[0]], a[1..], r, InsertionSorted(compar, a));
      assert a == [a[0]] + a[1..];
    }
  }

  // For a total preorder the merge sort is the stable sort: any stable sort of a equals it
  lemma MergeSortedIsTheStableSort<T>(compar: Comparator<T>, elems: set<T>, a: seq<T>, r: seq<T>)
    requires TotalPreorder(compar, elems) && Over(a, elems)
    ensures IsStableSort(compar, elems, a, r) <==> r == MergeSorted(compar, a)
  {
    MergeSortedIsStable(compar, elems, a);
    if IsStableSort(compar, elems, a, r) {
      SameElements(a, r, elems);
      SameElements(a, MergeSorted(compar, a), elems);
      assert |r| == |multiset(r)| == |multiset(a)| == |a|;
      StableSortIsUnique(compar, elems, r, MergeSorted(compar, a));
    }
  }

  lemma MergeSortedIsInsertionSorted<T>(compar: Comparator<T>, elems: set<T>, a: seq<T>)
    requires TotalPreorder(compar, elems) && Over(a, elems)
    ensures MergeSorted(compar, a) == InsertionSorted(compar, a)
  {
    InsertionSortedIsStable(compar, elems, a);
    MergeSortedIsTheStableSort(compar, elems, a, InsertionSorted(compar, a));
  }
}
