/** The weighted edit distance of src/levenshtein.c.

    The loop of the source keeps three rows. It is specified here by the full table
    (`Cell`), and the table is tied to an independent notion, edit scripts: sequences of
    operations that read the first string and write the second. */
module EditDistance {
  import opened Arithmetic

  // iw, dw, sw, tw: the price of an insertion, deletion, substitution and transposition
  datatype Weights = Weights(iw: int, dw: int, sw: int, tw: int)
  {
    ghost predicate NonNegative() {
      0 <= iw && 0 <= dw && 0 <= sw && 0 <= tw
    }
  }

  function Min(x: int, y: int): int {
    if x <= y then x else y
  }

  function Max(x: int, y: int): int {
    if x <= y then y else x
  }

  // The price of standing `b` where `a` stood
  function DiagonalCost(w: Weights, a: char, b: char): int {
    if a == b then 0 else w.sw
  }

  predicate Swapped(s: string, t: string, i: nat, j: nat)
    requires 1 <= i <= |s| && 1 <= j <= |t|
  {
    i > 1 && j > 1 && s[i - 2] == t[j - 1] && s[i - 1] == t[j - 2]
  }

  // The entry of the full table for the first i characters of s and the first j of t
  function Cell(w: Weights, s: string, t: string, i: nat, j: nat): int
    requires i <= |s| && j <= |t|
    decreases i + j
  {
    if i == 0 && j == 0 then 0
    else if i == 0 then Cell(w, s, t, 0, j - 1) + w.iw
    else if j == 0 then Cell(w, s, t, i - 1, 0) + w.dw
    else
      var diagonal := Cell(w, s, t, i - 1, j - 1) + DiagonalCost(w, s[i - 1], t[j - 1]);
      var upper := if Swapped(s, t, i, j) then Min(diagonal, Cell(w, s, t, i - 2, j - 2) + w.tw) else diagonal;
      Min(Min(upper, Cell(w, s, t, i - 1, j) + w.dw), Cell(w, s, t, i, j - 1) + w.iw)
  }

  function Distance(w: Weights, s: string, t: string): int {
    Cell(w, s, t, |s|, |t|)
  }

  /* ---------- edit scripts ---------- */

  datatype Op =
    | Match(c: char)
    | Substitute(a: char, b: char)
    | Insert(c: char)
    | Delete(c: char)
    | Transpose(a: char, b: char)
  {
    // What the operation consumes of the first string
    function Reads(): string {
      match this
      case Match(c) => [c]
      case Substitute(a, _) => [a]
      case Insert(_) => []
      case Delete(c) => [c]
      case Transpose(a, b) => [a, b]
    }

    // What the operation produces of the second string
    function Writes(): string {
      match this
      case Match(c) => [c]
      case Substitute(_, b) => [b]
      case Insert(c) => [c]
      case Delete(_) => []
      case Transpose(a, b) => [b, a]
    }

    function Price(w: Weights): int {
      match this
      case Match(_) => 0
      case Substitute(_, _) => w.sw
      case Insert(_) => w.iw
      case Delete(_) => w.dw
      case Transpose(_, _) => w.tw
    }

    // Equal characters are matched, never substituted
    predicate Legal() {
      Substitute? ==> a != b
    }

    // The operation that takes the second string back to the first
    function Inverse(): Op {
      match this
      case Match(c) => this
      case Substitute(a, b) => Substitute(b, a)
      case Insert(c) => Delete(c)
      case Delete(c) => Insert(c)
      case Transpose(a, b) => Transpose(b, a)
    }

    function Backwards(): Op {
      if Transpose? then Transpose(b, a) else this
    }
  }

  datatype Script = Empty | Then(earlier: Script, last: Op)
  {
    function Source(): string {
      match this
      case Empty => []
      case Then(e, op) => e.Source() + op.Reads()
    }

    function Target(): string {
      match this
      case Empty => []
      case Then(e, op) => e.Target() + op.Writes()
    }

    function Cost(w: Weights): int {
      match this
      case Empty => 0
      case Then(e, op) => e.Cost(w) + op.Price(w)
    }

    predicate Legal() {
      Then? ==> earlier.Legal() && last.Legal()
    }

    ghost predicate Edits(s: string, t: string) {
      Legal() && Source() == s && Target() == t
    }
  }

  // c is the least total weight over all scripts that turn s into t, and one attains it
  ghost predicate IsMinimumCost(w: Weights, s: string, t: string, c: int) {
    && (exists sc: Script :: sc.Edits(s, t) && sc.Cost(w) == c)
    && (forall sc: Script :: sc.Edits(s, t) ==> c <= sc.Cost(w))
  }

  // The cell is the cheapest of its candidates: it beats none of them and is one of them
  lemma CellStep(w: Weights, s: string, t: string, i: nat, j: nat)
    requires i <= |s| && j <= |t|
    ensures i == 0 && j == 0 ==> Cell(w, s, t, i, j) == 0
    ensures i > 0 ==> Cell(w, s, t, i, j) <= Cell(w, s, t, i - 1, j) + w.dw
    ensures j > 0 ==> Cell(w, s, t, i, j) <= Cell(w, s, t, i, j - 1) + w.iw
    ensures i > 0 && j > 0 ==>
      Cell(w, s, t, i, j) <= Cell(w, s, t, i - 1, j - 1) + DiagonalCost(w, s[i - 1], t[j - 1])
    ensures i > 0 && j > 0 && Swapped(s, t, i, j) ==> Cell(w, s, t, i, j) <= Cell(w, s, t, i - 2, j - 2) + w.tw
    ensures
      || (i == 0 && j == 0)
      || (i > 0 && Cell(w, s, t, i, j) == Cell(w, s, t, i - 1, j) + w.dw)
      || (j > 0 && Cell(w, s, t, i, j) == Cell(w, s, t, i, j - 1) + w.iw)
      || (i > 0 && j > 0 &&
         Cell(w, s, t, i, j) == Cell(w, s, t, i - 1, j - 1) + DiagonalCost(w, s[i - 1], t[j - 1]))
      || (i > 0 && j > 0 && Swapped(s, t, i, j) && Cell(w, s, t, i, j) == Cell(w, s, t, i - 2, j - 2) + w.tw)
  {
  }

  // Appending characters to either string leaves the earlier cells alone
  lemma {:induction false} CellOfPrefix(w: Weights, s: string, x: string, t: string, y: string, i: nat, j: nat)
    requires i <= |s| && j <= |t|
    ensures Cell(w, s + x, t + y, i, j) == Cell(w, s, t, i, j)
    decreases i + j
  {
    hide Cell;
    CellStep(w, s, t, i, j);
    CellStep(w, s + x, t + y, i, j);
    if i > 0 {
      CellOfPrefix(w, s, x, t, y, i - 1, j);
    }
    if j > 0 {
      CellOfPrefix(w, s, x, t, y, i, j - 1);
    }
    if i > 0 && j > 0 {
      CellOfPrefix(w, s, x, t, y, i - 1, j - 1);
      if i > 1 && j > 1 {
        CellOfPrefix(w, s, x, t, y, i - 2, j - 2);
      }
    }
  }

  lemma {:induction false} NoScriptIsCheaper(w: Weights, sc: Script)
    requires sc.Legal()
    ensures Distance(w, sc.Source(), sc.Target()) <= sc.Cost(w)
  {
    hide Distance;
    match sc
    case Empty =>
      NothingCosts(w);
    case Then(e, op) =>
      NoScriptIsCheaper(w, e);
      OpIsNoCheaper(w, e.Source(), e.Target(), op);
  }

  lemma NothingCosts(w: Weights)
    ensures Distance(w, [], []) == 0
  {
  }

  lemma OpIsNoCheaper(w: Weights, s: string, t: string, op: Op)
    requires op.Legal()
    ensures Distance(w, s + op.Reads(), t + op.Writes()) <= Distance(w, s, t) + op.Price(w)
  {
    hide Cell;
    var s', t' := s + op.Reads(), t + op.Writes();
    CellOfPrefix(w, s, op.Reads(), t, op.Writes(), |s|, |t|);
    CellStep(w, s', t', |s'|, |t'|);
  }

  lemma Extends(sc: Script, op: Op, s: string, t: string, i: nat, j: nat, i': nat, j': nat)
    requires i <= i' <= |s| && j <= j' <= |t|
    requires sc.Edits(s[..i], t[..j])
    requires op.Legal() && op.Reads() == s[i..i'] && op.Writes() == t[j..j']
    ensures Then(sc, op).Edits(s[..i'], t[..j'])
  {
    assert s[..i'] == s[..i] + s[i..i'] && t[..j'] == t[..j] + t[j..j'];
  }

  lemma {:induction false} SomeScriptAttains(w: Weights, s: string, t: string, i: nat, j: nat) returns (sc: Script)
    requires i <= |s| && j <= |t|
    ensures sc.Edits(s[..i], t[..j]) && sc.Cost(w) == Cell(w, s, t, i, j)
    decreases i + j
  {
    hide Cell;
    CellStep(w, s, t, i, j);
    if i == 0 && j == 0 {
      return Empty;
    }
    var i', j', op := CheapestOp(w, s, t, i, j);
    var e := SomeScriptAttains(w, s, t, i', j');
    Extends(e, op, s, t, i', j', i, j);
    sc := Then(e, op);
  }

  // The operation behind the candidate that a cell takes, and the cell it starts from
  lemma CheapestOp(w: Weights, s: string, t: string, i: nat, j: nat) returns (i': nat, j': nat, op: Op)
    requires i <= |s| && j <= |t| && (i > 0 || j > 0)
    ensures i' <= i && j' <= j && i' + j' < i + j
    ensures op.Legal() && op.Reads() == s[i'..i] && op.Writes() == t[j'..j]
    ensures Cell(w, s, t, i, j) == Cell(w, s, t, i', j') + op.Price(w)
  {
    hide Cell;
    CellStep(w, s, t, i, j);
    ShortSlices(s, i);
    ShortSlices(t, j);
    if i > 0 && Cell(w, s, t, i, j) == Cell(w, s, t, i - 1, j) + w.dw {
      return i - 1, j, Delete(s[i - 1]);
    } else if j > 0 && Cell(w, s, t, i, j) == Cell(w, s, t, i, j - 1) + w.iw {
      return i, j - 1, Insert(t[j - 1]);
    } else if Cell(w, s, t, i, j) == Cell(w, s, t, i - 1, j - 1) + DiagonalCost(w, s[i - 1], t[j - 1]) {
      return i - 1, j - 1, if s[i - 1] == t[j - 1] then Match(s[i - 1]) else Substitute(s[i - 1], t[j - 1]);
    } else {
      return i - 2, j - 2, Transpose(s[i - 2], s[i - 1]);
    }
  }

  lemma ShortSlices(s: string, i: nat)
    requires i <= |s|
    ensures s[i..i] == []
    ensures i > 0 ==> s[i - 1..i] == [s[i - 1]]
    ensures i > 1 ==> s[i - 2..i] == [s[i - 2], s[i - 1]]
  {
  }

  // For all strings and all weights, of either sign, the table holds the minimum
  lemma DistanceIsMinimumCost(w: Weights, s: string, t: string)
    ensures IsMinimumCost(w, s, t, Distance(w, s, t))
  {
    var best := SomeScriptAttains(w, s, t, |s|, |t|);
    assert s[..|s|] == s && t[..|t|] == t;
    assert best.Edits(s, t);
    forall sc: Script | sc.Edits(s, t)
      ensures Distance(w, s, t) <= sc.Cost(w)
    {
      NoScriptIsCheaper(w, sc);
    }
  }

  /* ---------- the three-row loop ---------- */

  ghost predicate HoldsRow(w: Weights, s: string, t: string, i: nat, row: seq<int>)
    requires i <= |s|
  {
    |row| == |t| + 1 && forall k :: 0 <= k <= |t| ==> row[k] == Cell(w, s, t, i, k)
  }

  // The border of the table in closed form, as the source computes it
  lemma {:induction false} Borders(w: Weights, s: string, t: string, k: nat)
    ensures k <= |t| ==> Cell(w, s, t, 0, k) == k * w.iw
    ensures k <= |s| ==> Cell(w, s, t, k, 0) == k * w.dw
  {
    if k > 0 {
      Borders(w, s, t, k - 1);
    }
  }

  // The body of the outer loop: v1 becomes the row below v0, which lies below v9
  method FillRow(s: string, t: string, w: Weights, i: nat, v9: array<int>, v0: array<int>, v1: array<int>)
    requires i < |s| && v1.Length == |t| + 1 && v9 != v1 && v0 != v1
    requires HoldsRow(w, s, t, i, v0[..]) && (i > 0 ==> HoldsRow(w, s, t, i - 1, v9[..]))
    modifies v1
    ensures HoldsRow(w, s, t, i + 1, v1[..])
  {
    hide Cell;
    var n := |t|;
    v1[0] := (i + 1) * w.dw;
    Borders(w, s, t, i + 1);
    for ii := 0 to n
      invariant forall k :: 0 <= k <= ii ==> v1[k] == Cell(w, s, t, i + 1, k)
    {
      // substitution
      if s[i] == t[ii] {
        v1[ii + 1] := v0[ii];
      } else {
        v1[ii + 1] := v0[ii] + w.sw;
      }
      // transposition
      if i > 0 && ii > 0 && s[i - 1] == t[ii] && s[i] == t[ii - 1] && v1[ii + 1] > v9[ii - 1] + w.tw {
        v1[ii + 1] := v9[ii - 1] + w.tw;
      }
      // deletion
      if v1[ii + 1] > v0[ii + 1] + w.dw {
        v1[ii + 1] := v0[ii + 1] + w.dw;
      }
      // insertion
      if v1[ii + 1] > v1[ii] + w.iw {
        v1[ii + 1] := v1[ii] + w.iw;
      }
      CellStep(w, s, t, i + 1, ii + 1);
    }
  }

  method LevenshteinW(s: string, t: string, w: Weights) returns (ret: int)
    ensures ret == Distance(w, s, t)
    ensures IsMinimumCost(w, s, t, ret)
  {
    hide Cell;
    var m, n := |s|, |t|;
    var v9, v0, v1 := new int[n + 1], new int[n + 1], new int[n + 1];

    for i := 0 to n + 1
      invariant forall k :: 0 <= k < i ==> v0[k] == Cell(w, s, t, 0, k)
    {
      v0[i] := i * w.iw;
      Borders(w, s, t, i);
    }

    for i := 0 to m
      invariant v9.Length == v0.Length == v1.Length == n + 1
      invariant fresh(v9) && fresh(v0) && fresh(v1)
      invariant v9 != v0 && v0 != v1 && v1 != v9
      invariant HoldsRow(w, s, t, i, v0[..])
      invariant i > 0 ==> HoldsRow(w, s, t, i - 1, v9[..])
    {
      FillRow(s, t, w, i, v9, v0, v1);
      v9, v0, v1 := v0, v1, v9;
    }
    ret := v0[n];
    DistanceIsMinimumCost(w, s, t);
  }

  // What each weight is the price of
  lemma PricesMean(w: Weights, a: char, b: char)
    requires w.NonNegative()
    ensures Distance(w, "", [a]) == w.iw && Distance(w, [a], "") == w.dw && Distance(w, [a], [a]) == 0
    ensures a != b ==> Distance(w, [a], [b]) == Min(w.sw, w.iw + w.dw)
    ensures a != b ==> Distance(w, [a, b], [b, a]) == Min(w.tw, Min(w.iw + w.dw, 2 * w.sw))
  {
    hide Cell;
    OneByOne(w, a, a);
    OneByOne(w, a, b);
    CellStep(w, "", [a], 0, 0);
    CellStep(w, "", [a], 0, 1);
    CellStep(w, [a], "", 0, 0);
    CellStep(w, [a], "", 1, 0);
    if a != b {
      SwapPrice(w, a, b);
    }
  }

  lemma OneByOne(w: Weights, a: char, b: char)
    requires w.NonNegative()
    ensures Distance(w, [a], [b]) == Min(DiagonalCost(w, a, b), w.iw + w.dw)
  {
    hide Cell;
    var s, t := [a], [b];
    CellStep(w, s, t, 0, 0);
    CellStep(w, s, t, 0, 1);
    CellStep(w, s, t, 1, 0);
    CellStep(w, s, t, 1, 1);
  }

  lemma SwapPrice(w: Weights, a: char, b: char)
    requires w.NonNegative() && a != b
    ensures Distance(w, [a, b], [b, a]) == Min(w.tw, Min(w.iw + w.dw, 2 * w.sw))
  {
    hide Cell;
    var s, t := [a, b], [b, a];
    CellStep(w, s, t, 0, 0);
    CellStep(w, s, t, 0, 1);
    CellStep(w, s, t, 0, 2);
    CellStep(w, s, t, 1, 0);
    CellStep(w, s, t, 2, 0);
    CellStep(w, s, t, 1, 1);
    CellStep(w, s, t, 1, 2);
    CellStep(w, s, t, 2, 1);
    CellStep(w, s, t, 2, 2);
  }

  /* ---------- bounds: the arithmetic fits the source's int ---------- */

  lemma {:induction false} CellUpperBound(w: Weights, s: string, t: string, i: nat, j: nat)
    requires i <= |s| && j <= |t|
    ensures Cell(w, s, t, i, j) <= i * w.dw + j * w.iw
    decreases i + j
  {
    hide Cell;
    CellStep(w, s, t, i, j);
    if i > 0 {
      CellUpperBound(w, s, t, i - 1, j);
      assert (i - 1) * w.dw + w.dw == i * w.dw;
    } else if j > 0 {
      CellUpperBound(w, s, t, i, j - 1);
      assert (j - 1) * w.iw + w.iw == j * w.iw;
    }
  }

  lemma {:induction false} ScriptLowerBound(w: Weights, sc: Script)
    requires w.NonNegative()
    ensures sc.Cost(w) >= 0
    ensures sc.Cost(w) >= (|sc.Target()| - |sc.Source()|) * w.iw
    ensures sc.Cost(w) >= (|sc.Source()| - |sc.Target()|) * w.dw
  {
    if sc.Then? {
      ScriptLowerBound(w, sc.earlier);
      var e, op := sc.earlier, sc.last;
      var grows := |op.Writes()| - |op.Reads()|;
      OpLowerBound(w, op);
      Distributes(|e.Target()| - |e.Source()|, grows, w.iw);
      Distributes(|e.Source()| - |e.Target()|, -grows, w.dw);
    }
  }

  // One operation lengthens or shortens by at most one character, and pays for it
  lemma OpLowerBound(w: Weights, op: Op)
    requires w.NonNegative()
    ensures op.Price(w) >= 0
    ensures op.Price(w) >= (|op.Writes()| - |op.Reads()|) * w.iw
    ensures op.Price(w) >= (|op.Reads()| - |op.Writes()|) * w.dw
  {
    assert |op.Writes()| - |op.Reads()| == if op.Insert? then 1 else if op.Delete? then -1 else 0;
  }

  lemma CellLowerBound(w: Weights, s: string, t: string, i: nat, j: nat)
    requires w.NonNegative() && i <= |s| && j <= |t|
    ensures Cell(w, s, t, i, j) >= Max(0, Max((j - i) * w.iw, (i - j) * w.dw))
  {
    hide Cell;
    var sc := SomeScriptAttains(w, s, t, i, j);
    ScriptLowerBound(w, sc);
  }

  const INT_MAX: int := 0x7fff_ffff

  // Every product and sum that the source forms for cell (i, j): the borders, and the candidates inside
  function Candidates(w: Weights, s: string, t: string, i: nat, j: nat): seq<int>
    requires i <= |s| && j <= |t|
  {
    if i == 0 then [j * w.iw]
    else if j == 0 then [i * w.dw]
    else
      [Cell(w, s, t, i - 1, j - 1), Cell(w, s, t, i - 1, j - 1) + w.sw, Cell(w, s, t, i - 1, j) + w.dw,
       Cell(w, s, t, i, j - 1) + w.iw] +
      if i > 1 && j > 1 then [Cell(w, s, t, i - 2, j - 2) + w.tw] else []
  }

  lemma CellFits(w: Weights, s: string, t: string, i: nat, j: nat)
    requires w.NonNegative() && i <= |s| && j <= |t|
    ensures 0 <= Cell(w, s, t, i, j) <= i * w.dw + j * w.iw <= |s| * w.dw + |t| * w.iw
  {
    hide Cell;
    CellUpperBound(w, s, t, i, j);
    CellLowerBound(w, s, t, i, j);
    Scaled(i, |s|, w.dw);
    Scaled(j, |t|, w.iw);
  }

  // With non-negative weights no number that is formed for any cell leaves the range of int
  lemma NoIntOverflow(w: Weights, s: string, t: string, i: nat, j: nat)
    requires w.NonNegative() && i <= |s| && j <= |t|
    requires |s| * w.dw + |t| * w.iw + Max(Max(w.iw, w.dw), Max(w.sw, w.tw)) <= INT_MAX
    ensures 0 <= Cell(w, s, t, i, j) <= INT_MAX
    ensures forall c :: c in Candidates(w, s, t, i, j) ==> 0 <= c <= INT_MAX
  {
    hide Cell;
    CellFits(w, s, t, i, j);
    Scaled(i, |s|, w.dw);
    Scaled(j, |t|, w.iw);
    Scaled(0, |s|, w.dw);
    Scaled(0, |t|, w.iw);
    if i > 0 && j > 0 {
      CellFits(w, s, t, i - 1, j - 1);
      CellFits(w, s, t, i - 1, j);
      CellFits(w, s, t, i, j - 1);
      if i > 1 && j > 1 {
        CellFits(w, s, t, i - 2, j - 2);
      }
    }
  }

  /* ---------- symmetries ---------- */

  function Mirror(w: Weights): Weights {
    w.(iw := w.dw, dw := w.iw)
  }

  function InvertScript(sc: Script): Script {
    match sc
    case Empty => Empty
    case Then(e, op) => Then(InvertScript(e), op.Inverse())
  }

  lemma {:induction false} InvertScriptEffect(w: Weights, sc: Script)
    ensures InvertScript(sc).Source() == sc.Target() && InvertScript(sc).Target() == sc.Source()
    ensures InvertScript(sc).Cost(Mirror(w)) == sc.Cost(w)
    ensures sc.Legal() ==> InvertScript(sc).Legal()
  {
    if sc.Then? {
      InvertScriptEffect(w, sc.earlier);
    }
  }

  lemma SwappingIsNoDearer(w: Weights, s: string, t: string)
    ensures Distance(Mirror(w), t, s) <= Distance(w, s, t)
  {
    hide Cell;
    DistanceIsMinimumCost(w, s, t);
    var sc: Script :| sc.Edits(s, t) && sc.Cost(w) == Distance(w, s, t);
    InvertScriptEffect(w, sc);
    NoScriptIsCheaper(Mirror(w), InvertScript(sc));
  }

  // Swapping the strings is swapping the prices of insertion and deletion
  lemma SwappingStrings(w: Weights, s: string, t: string)
    ensures Distance(w, s, t) == Distance(Mirror(w), t, s)
  {
    hide Cell;
    SwappingIsNoDearer(w, s, t);
    SwappingIsNoDearer(Mirror(w), t, s);
  }

  function Reverse(s: string): (r: string)
    ensures |r| == |s|
  {
    if s == [] then [] else Reverse(s[1..]) + [s[0]]
  }

  lemma {:induction false} ReverseConcat(x: string, y: string)
    ensures Reverse(x + y) == Reverse(y) + Reverse(x)
  {
    if x == [] {
      assert x + y == y;
    } else {
      assert (x + y)[1..] == x[1..] + y;
      ReverseConcat(x[1..], y);
    }
  }

  lemma {:induction false} ReverseTwice(s: string)
    ensures Reverse(Reverse(s)) == s
  {
    if s != [] {
      ReverseTwice(s[1..]);
      ReverseConcat(Reverse(s[1..]), [s[0]]);
    }
  }

  // The script that performs op first and then sc
  function Before(op: Op, sc: Script): Script {
    match sc
    case Empty => Then(Empty, op)
    case Then(e, last) => Then(Before(op, e), last)
  }

  lemma {:induction false} BeforeEffect(w: Weights, op: Op, sc: Script)
    ensures Before(op, sc).Source() == op.Reads() + sc.Source()
    ensures Before(op, sc).Target() == op.Writes() + sc.Target()
    ensures Before(op, sc).Cost(w) == op.Price(w) + sc.Cost(w)
    ensures op.Legal() && sc.Legal() ==> Before(op, sc).Legal()
  {
    if sc.Then? {
      BeforeEffect(w, op, sc.earlier);
    }
  }

  function ReverseScript(sc: Script): Script {
    match sc
    case Empty => Empty
    case Then(e, op) => Before(op.Backwards(), ReverseScript(e))
  }

  lemma BackwardsEffect(w: Weights, op: Op)
    ensures op.Backwards().Reads() == Reverse(op.Reads()) && op.Backwards().Writes() == Reverse(op.Writes())
    ensures op.Backwards().Price(w) == op.Price(w) && op.Backwards().Legal() == op.Legal()
  {
    if op.Transpose? {
      ReverseConcat([op.a], [op.b]);
      ReverseConcat([op.b], [op.a]);
      assert [op.a] + [op.b] == op.Reads() && [op.b] + [op.a] == op.Writes();
    }
  }

  lemma {:induction false} ReverseScriptEffect(w: Weights, sc: Script)
    ensures ReverseScript(sc).Source() == Reverse(sc.Source())
    ensures ReverseScript(sc).Target() == Reverse(sc.Target())
    ensures ReverseScript(sc).Cost(w) == sc.Cost(w)
    ensures sc.Legal() ==> ReverseScript(sc).Legal()
  {
    if sc.Then? {
      var op := sc.last;
      ReverseScriptEffect(w, sc.earlier);
      BeforeEffect(w, op.Backwards(), ReverseScript(sc.earlier));
      BackwardsEffect(w, op);
      ReverseConcat(sc.earlier.Source(), op.Reads());
      ReverseConcat(sc.earlier.Target(), op.Writes());
      hide Reverse;
    }
  }

  lemma ReversingIsNoDearer(w: Weights, s: string, t: string)
    ensures Distance(w, Reverse(s), Reverse(t)) <= Distance(w, s, t)
  {
    DistanceIsMinimumCost(w, s, t);
    var sc: Script :| sc.Edits(s, t) && sc.Cost(w) == Distance(w, s, t);
    ReverseScriptEffect(w, sc);
    NoScriptIsCheaper(w, ReverseScript(sc));
  }

  lemma ReversingBothStrings(w: Weights, s: string, t: string)
    ensures Distance(w, Reverse(s), Reverse(t)) == Distance(w, s, t)
  {
    ReversingIsNoDearer(w, s, t);
    ReversingIsNoDearer(w, Reverse(s), Reverse(t));
    ReverseTwice(s);
    ReverseTwice(t);
  }

  /* ---------- when transposition pays, and the triangle inequality ---------- */

  // The table without the transposition step: plain weighted Levenshtein distance
  function PlainCell(w: Weights, s: string, t: string, i: nat, j: nat): int
    requires i <= |s| && j <= |t|
    decreases i + j
  {
    if i == 0 && j == 0 then 0
    else if i == 0 then PlainCell(w, s, t, 0, j - 1) + w.iw
    else if j == 0 then PlainCell(w, s, t, i - 1, 0) + w.dw
    else
      var diagonal := PlainCell(w, s, t, i - 1, j - 1) + DiagonalCost(w, s[i - 1], t[j - 1]);
      Min(Min(diagonal, PlainCell(w, s, t, i - 1, j) + w.dw), PlainCell(w, s, t, i, j - 1) + w.iw)
  }

  // A transposition costs at least as much as doing the same by other means
  predicate TranspositionIsDear(w: Weights) {
    w.tw >= Min(w.iw + w.dw, 2 * w.sw)
  }

  lemma PlainUpper(w: Weights, s: string, t: string, i: nat, j: nat)
    requires i <= |s| && j <= |t|
    ensures i == 0 && j == 0 ==> PlainCell(w, s, t, i, j) == 0
    ensures i > 0 ==> PlainCell(w, s, t, i, j) <= PlainCell(w, s, t, i - 1, j) + w.dw
    ensures j > 0 ==> PlainCell(w, s, t, i, j) <= PlainCell(w, s, t, i, j - 1) + w.iw
    ensures i > 0 && j > 0 ==>
      PlainCell(w, s, t, i, j) <= PlainCell(w, s, t, i - 1, j - 1) + DiagonalCost(w, s[i - 1], t[j - 1])
  {
  }

  lemma PlainAttained(w: Weights, s: string, t: string, i: nat, j: nat)
    requires i <= |s| && j <= |t|
    ensures
      || (i == 0 && j == 0)
      || (i > 0 && PlainCell(w, s, t, i, j) == PlainCell(w, s, t, i - 1, j) + w.dw)
      || (j > 0 && PlainCell(w, s, t, i, j) == PlainCell(w, s, t, i, j - 1) + w.iw)
      || (i > 0 && j > 0 &&
         PlainCell(w, s, t, i, j) == PlainCell(w, s, t, i - 1, j - 1) + DiagonalCost(w, s[i - 1], t[j - 1]))
  {
  }

  // A swap of two neighbours by other means: two substitutions, or delete, match, insert
  lemma SwapByOtherMeans(w: Weights, s: string, t: string, i: nat, j: nat)
    requires w.NonNegative() && 1 <= i <= |s| && 1 <= j <= |t| && Swapped(s, t, i, j)
    ensures PlainCell(w, s, t, i, j) <= PlainCell(w, s, t, i - 2, j - 2) + Min(w.iw + w.dw, 2 * w.sw)
  {
    hide PlainCell;
    PlainUpper(w, s, t, i, j);
    PlainUpper(w, s, t, i - 1, j - 1);
    PlainUpper(w, s, t, i, j - 1);
    PlainUpper(w, s, t, i - 1, j - 2);
  }

  lemma {:induction false} CellAtMostPlain(w: Weights, s: string, t: string, i: nat, j: nat)
    requires i <= |s| && j <= |t|
    ensures Cell(w, s, t, i, j) <= PlainCell(w, s, t, i, j)
    decreases i + j
  {
    hide Cell, PlainCell;
    CellStep(w, s, t, i, j);
    PlainAttained(w, s, t, i, j);
    PlainUpper(w, s, t, 0, 0);
    if i > 0 {
      CellAtMostPlain(w, s, t, i - 1, j);
    }
    if j > 0 {
      CellAtMostPlain(w, s, t, i, j - 1);
    }
    if i > 0 && j > 0 {
      CellAtMostPlain(w, s, t, i - 1, j - 1);
    }
  }

  lemma {:induction false} DearTranspositionNeverPays(w: Weights, s: string, t: string, i: nat, j: nat)
    requires w.NonNegative() && TranspositionIsDear(w)
    requires i <= |s| && j <= |t|
    ensures Cell(w, s, t, i, j) == PlainCell(w, s, t, i, j)
    decreases i + j
  {
    hide Cell, PlainCell;
    CellAtMostPlain(w, s, t, i, j);
    CellStep(w, s, t, i, j);
    PlainUpper(w, s, t, i, j);
    if i > 0 && Cell(w, s, t, i, j) == Cell(w, s, t, i - 1, j) + w.dw {
      DearTranspositionNeverPays(w, s, t, i - 1, j);
    } else if j > 0 && Cell(w, s, t, i, j) == Cell(w, s, t, i, j - 1) + w.iw {
      DearTranspositionNeverPays(w, s, t, i, j - 1);
    } else if i > 0 && j > 0 {
      if Cell(w, s, t, i, j) == Cell(w, s, t, i - 1, j - 1) + DiagonalCost(w, s[i - 1], t[j - 1]) {
        DearTranspositionNeverPays(w, s, t, i - 1, j - 1);
      } else {
        DearTranspositionNeverPays(w, s, t, i - 2, j - 2);
        SwapByOtherMeans(w, s, t, i, j);
      }
    }
  }

  // By the last operations of the two optimal scripts: each pair is replaced by one that costs no more
  lemma {:induction false} PlainTriangle(w: Weights, s: string, t: string, u: string, i: nat, j: nat, k: nat)
    requires w.NonNegative()
    requires i <= |s| && j <= |t| && k <= |u|
    ensures PlainCell(w, s, u, i, k) <= PlainCell(w, s, t, i, j) + PlainCell(w, t, u, j, k)
    decreases i + j + k
  {
    hide PlainCell;
    PlainUpper(w, s, u, i, k);
    PlainAttained(w, s, t, i, j);
    PlainAttained(w, t, u, j, k);
    PlainUpper(w, s, t, 0, 0);
    PlainUpper(w, t, u, 0, 0);
    if i > 0 && PlainCell(w, s, t, i, j) == PlainCell(w, s, t, i - 1, j) + w.dw {
      PlainTriangle(w, s, t, u, i - 1, j, k);
    } else if k > 0 && PlainCell(w, t, u, j, k) == PlainCell(w, t, u, j, k - 1) + w.iw {
      PlainTriangle(w, s, t, u, i, j, k - 1);
    } else if j > 0 {
      if PlainCell(w, s, t, i, j) == PlainCell(w, s, t, i, j - 1) + w.iw {
        if PlainCell(w, t, u, j, k) == PlainCell(w, t, u, j - 1, k) + w.dw {
          PlainTriangle(w, s, t, u, i, j - 1, k);
        } else {
          PlainTriangle(w, s, t, u, i, j - 1, k - 1);
        }
      } else if PlainCell(w, t, u, j, k) == PlainCell(w, t, u, j - 1, k) + w.dw {
        PlainTriangle(w, s, t, u, i - 1, j - 1, k);
      } else {
        PlainTriangle(w, s, t, u, i - 1, j - 1, k - 1);
      }
    }
  }

  // With a cheap transposition the detour over "ac" beats the direct way from "ca" to "abc"
  lemma CheapTranspositionBreaksTriangle(w: Weights)
    requires w.NonNegative() && !TranspositionIsDear(w)
    ensures Distance(w, "ca", "abc") > Distance(w, "ca", "ac") + Distance(w, "ac", "abc")
    ensures Distance(w, "ca", "ac") < PlainCell(w, "ca", "ac", 2, 2)
  {
    hide Cell, PlainCell;
    DirectWay(w);
    PlainSwap(w);
    var s, t, u := "ca", "ac", "abc";
    CellStep(w, s, t, 0, 0);
    CellStep(w, s, t, 2, 2);
    CellStep(w, t, u, 0, 0);
    CellStep(w, t, u, 1, 1);
    CellStep(w, t, u, 1, 2);
    CellStep(w, t, u, 2, 3);
  }

  lemma DirectWay(w: Weights)
    requires w.NonNegative()
    ensures Distance(w, "ca", "abc") >= w.iw + Min(w.iw + w.dw, 2 * w.sw)
  {
    hide Cell;
    var s, u := "ca", "abc";
    CellStep(w, s, u, 2, 3);
    CellStep(w, s, u, 1, 3);
    CellStep(w, s, u, 2, 2);
    CellStep(w, s, u, 1, 2);
    CellStep(w, s, u, 2, 1);
    CellStep(w, s, u, 1, 1);
    CellStep(w, s, u, 0, 2);
    CellStep(w, s, u, 0, 3);
    CellStep(w, s, u, 0, 1);
    CellStep(w, s, u, 0, 0);
    CellStep(w, s, u, 1, 0);
    CellStep(w, s, u, 2, 0);
  }

  lemma PlainSwap(w: Weights)
    requires w.NonNegative()
    ensures PlainCell(w, "ca", "ac", 2, 2) >= Min(w.iw + w.dw, 2 * w.sw)
  {
    hide PlainCell;
    var s, t := "ca", "ac";
    PlainAttained(w, s, t, 2, 2);
    PlainAttained(w, s, t, 1, 2);
    PlainAttained(w, s, t, 2, 1);
    PlainAttained(w, s, t, 1, 1);
    PlainAttained(w, s, t, 0, 2);
    PlainAttained(w, s, t, 0, 1);
    PlainAttained(w, s, t, 1, 0);
    PlainAttained(w, s, t, 2, 0);
    PlainUpper(w, s, t, 0, 0);
  }

  ghost predicate ObeysTriangle(w: Weights) {
    forall s: string, t: string, u: string :: Distance(w, s, u) <= Distance(w, s, t) + Distance(w, t, u)
  }

  // Exactly when the distance is a (directed) metric: transposition must not undercut the plain operations
  lemma TriangleInequality(w: Weights)
    requires w.NonNegative()
    ensures ObeysTriangle(w) <==> TranspositionIsDear(w)
  {
    hide Cell, PlainCell;
    if TranspositionIsDear(w) {
      forall s: string, t: string, u: string
        ensures Distance(w, s, u) <= Distance(w, s, t) + Distance(w, t, u)
      {
        DearTranspositionNeverPays(w, s, u, |s|, |u|);
        DearTranspositionNeverPays(w, s, t, |s|, |t|);
        DearTranspositionNeverPays(w, t, u, |t|, |u|);
        PlainTriangle(w, s, t, u, |s|, |t|, |u|);
      }
    } else {
      CheapTranspositionBreaksTriangle(w);
    }
  }

  // Exactly when the result is plain weighted Levenshtein distance on all strings
  lemma PlainExactlyWhenDear(w: Weights)
    requires w.NonNegative()
    ensures TranspositionIsDear(w) <==>
      forall s: string, t: string :: Distance(w, s, t) == PlainCell(w, s, t, |s|, |t|)
  {
    hide Cell, PlainCell;
    if TranspositionIsDear(w) {
      forall s: string, t: string
        ensures Distance(w, s, t) == PlainCell(w, s, t, |s|, |t|)
      {
        DearTranspositionNeverPays(w, s, t, |s|, |t|);
      }
    } else {
      CheapTranspositionBreaksTriangle(w);
    }
  }
}
