// The world-matrix solver of Subject::calcMatrices on values (src/o3ds/model.cpp:646-751): what the loop
// computes, pass by pass, and what its outcome means for the parent array.

module Hierarchy {
  import opened Matrices
  import opened Contexts
  import ProductLaws

  /** What the solver knows of each node: whether its world matrix is set, and the matrix stored. */
  datatype State = State(flags: seq<bool>, worlds: seq<Matrix>)

  datatype Outcome = Solved | NoRoot | ManyRoots | PointsToSelf(node: nat) | InvalidParent(node: nat) | Cycle

  const ROOT := -1

  // ----- The loop ----------------------------------------------------------

  predicate GoodParent(parents: seq<int>, i: nat)
    requires i < |parents|
  {
    parents[i] != i && 0 <= parents[i] < |parents|
  }

  /** The first node, other than a root, whose parent the loop refuses; |parents| if there is none. */
  function FirstBad(parents: seq<int>, from: nat): (i: nat)
    requires from <= |parents|
    ensures from <= i <= |parents|
    ensures forall j :: from <= j < i ==> parents[j] == ROOT || GoodParent(parents, j)
    ensures i < |parents| ==> parents[i] != ROOT && !GoodParent(parents, i)
    decreases |parents| - from
  {
    if from == |parents| || (parents[from] != ROOT && !GoodParent(parents, from)) then from
    else FirstBad(parents, from + 1)
  }

  function RootCount(parents: seq<int>): (n: nat)
    ensures n <= |parents|
  {
    if parents == [] then 0
    else RootCount(parents[..|parents| - 1]) + if parents[|parents| - 1] == ROOT then 1 else 0
  }

  /** Roots start with their local matrix as world matrix; the rest keep a stale one, unset. */
  function Start(parents: seq<int>, locals: seq<Matrix>, stale: seq<Matrix>): State
    requires |parents| == |locals| == |stale|
  {
    State(seq(|parents|, i requires 0 <= i < |parents| => parents[i] == ROOT),
          seq(|parents|, i requires 0 <= i < |parents| => if parents[i] == ROOT then locals[i] else stale[i]))
  }

  predicate Fits(parents: seq<int>, locals: seq<Matrix>, s: State) {
    |parents| == |locals| == |s.flags| == |s.worlds|
  }

  /** One turn of the inner loop. */
  function Visit(parents: seq<int>, locals: seq<Matrix>, s: State, i: nat): (r: State)
    requires Fits(parents, locals, s) && i < |parents|
    requires s.flags[i] || GoodParent(parents, i)
    ensures Fits(parents, locals, r)
  {
    if s.flags[i] || !s.flags[parents[i]] then s
    else State(s.flags[i := true], s.worlds[i := Mul(s.worlds[parents[i]], locals[i])])
  }

  /** Roots are set from the start, every other node has a parent in range that is not itself. */
  predicate Checked(parents: seq<int>, s: State, k: nat)
    requires k <= |parents| == |s.flags|
  {
    forall i: nat :: i < k ==> s.flags[i] || GoodParent(parents, i)
  }

  /** The inner loop over the first k nodes. */
  function Sweep(parents: seq<int>, locals: seq<Matrix>, s: State, k: nat): (r: State)
    requires Fits(parents, locals, s) && k <= |parents| && Checked(parents, s, k)
    ensures Fits(parents, locals, r)
    ensures forall i :: 0 <= i < |parents| && s.flags[i] ==> r.flags[i]
    ensures forall i :: k <= i < |parents| ==> r.flags[i] == s.flags[i]
  {
    if k == 0 then s else Visit(parents, locals, Sweep(parents, locals, s, k - 1), k - 1)
  }

  function Unset(flags: seq<bool>): (n: nat)
    ensures n <= |flags|
  {
    if flags == [] then 0 else Unset(flags[1..]) + if flags[0] then 0 else 1
  }

  /** Setting more flags leaves fewer unset. */
  lemma UnsetDrops(a: seq<bool>, b: seq<bool>)
    requires |a| == |b| && forall i :: 0 <= i < |a| && a[i] ==> b[i]
    ensures Unset(b) <= Unset(a)
    ensures a != b ==> Unset(b) < Unset(a)
  {
    if a != [] {
      UnsetDrops(a[1..], b[1..]);
      assert a == [a[0]] + a[1..] && b == [b[0]] + b[1..];
    }
  }

  /** The outer loop: sweep until a sweep sets nothing. */
  function Settle(parents: seq<int>, locals: seq<Matrix>, s: State): (r: State)
    requires Fits(parents, locals, s) && Checked(parents, s, |parents|)
    ensures Fits(parents, locals, r)
    decreases Unset(s.flags)
  {
    var t := Sweep(parents, locals, s, |parents|);
    if t.flags == s.flags then t
    else
      UnsetDrops(s.flags, t.flags);
      Settle(parents, locals, t)
  }

  /** How many times the outer loop body runs. */
  function Passes(parents: seq<int>, locals: seq<Matrix>, s: State): (n: nat)
    requires Fits(parents, locals, s) && Checked(parents, s, |parents|)
    ensures 1 <= n <= 1 + Unset(s.flags)
    decreases Unset(s.flags)
  {
    var t := Sweep(parents, locals, s, |parents|);
    if t.flags == s.flags then 1
    else
      UnsetDrops(s.flags, t.flags);
      1 + Passes(parents, locals, t)
  }

  datatype Conversions = Unconverted | By(c: Conversion)

  predicate Usable(conv: Conversions) {
    conv.By? ==> conv.c.WellFormed()
  }

  /** The conversion leads from the coordinates of one context to those of the other. */
  ghost predicate Bridges(conv: Conversions, from: Context, to: Context) {
    if conv.By? then Converts(conv.c, from, to) else from == to
  }

  /** The last loop, which runs over every node, set or not. */
  function Convert(conv: Conversions, worlds: seq<Matrix>): (r: seq<Matrix>)
    requires Usable(conv)
    ensures |r| == |worlds|
  {
    if conv.Unconverted? || conv.c.IsIdentity() then worlds
    else seq(|worlds|, i requires 0 <= i < |worlds| => conv.c.ConvertMatrix(worlds[i]))
  }

  /** calcMatrices, after each node's local matrix has been rebuilt. */
  function Calc(parents: seq<int>, locals: seq<Matrix>, stale: seq<Matrix>, conv: Conversions): (r: (Outcome, State))
    requires |parents| == |locals| == |stale| && Usable(conv)
    ensures |r.1.flags| == |r.1.worlds| == |parents|
  {
    var s := Start(parents, locals, stale);
    var bad := FirstBad(parents, 0);
    if RootCount(parents) == 0 then (NoRoot, s)
    else if RootCount(parents) > 1 then (ManyRoots, s)
    else if bad < |parents| then
      (if parents[bad] == bad then PointsToSelf(bad) else InvalidParent(bad), Sweep(parents, locals, s, bad))
    else
      var t := Settle(parents, locals, s);
      (Solved, t.(worlds := Convert(conv, t.worlds)))
  }

  // ----- Chains ------------------------------------------------------------

  /** The parent chain of i reaches a root in d steps. */
  predicate Reaches(parents: seq<int>, i: int, d: nat)
    decreases d
  {
    && 0 <= i < |parents|
    && if d == 0 then parents[i] == ROOT else parents[i] != ROOT && Reaches(parents, parents[i], d - 1)
  }

  ghost predicate Anchored(parents: seq<int>, i: int) {
    exists d: nat :: Reaches(parents, i, d)
  }

  /** The product of the local matrices from the root down to i. */
  function PathProduct(parents: seq<int>, locals: seq<Matrix>, i: int, d: nat): Matrix
    requires |parents| == |locals| && Reaches(parents, i, d)
    decreases d
  {
    if d == 0 then locals[i] else Mul(PathProduct(parents, locals, parents[i], d - 1), locals[i])
  }

  lemma {:induction false} OneDepth(parents: seq<int>, i: int, d: nat, e: nat)
    requires Reaches(parents, i, d) && Reaches(parents, i, e)
    ensures d == e
    decreases d
  {
    if d > 0 && e > 0 {
      OneDepth(parents, parents[i], d - 1, e - 1);
    }
  }

  ghost function Depth(parents: seq<int>, i: int): (d: nat)
    requires Anchored(parents, i)
    ensures Reaches(parents, i, d)
  {
    var d: nat :| Reaches(parents, i, d);
    d
  }

  ghost function World(parents: seq<int>, locals: seq<Matrix>, i: int): Matrix
    requires |parents| == |locals| && Anchored(parents, i)
  {
    PathProduct(parents, locals, i, Depth(parents, i))
  }

  lemma RootWorld(parents: seq<int>, locals: seq<Matrix>, i: int)
    requires |parents| == |locals| && 0 <= i < |parents| && parents[i] == ROOT
    ensures Anchored(parents, i) && World(parents, locals, i) == locals[i]
  {
    assert Reaches(parents, i, 0);
    OneDepth(parents, i, Depth(parents, i), 0);
  }

  /** Below the root, a node is anchored just when its parent is, one step further down the path. */
  lemma ChildWorld(parents: seq<int>, locals: seq<Matrix>, i: nat)
    requires |parents| == |locals| && i < |parents| && GoodParent(parents, i)
    ensures Anchored(parents, i) <==> Anchored(parents, parents[i])
    ensures Anchored(parents, i) ==> World(parents, locals, i) == Mul(World(parents, locals, parents[i]), locals[i])
  {
    if Anchored(parents, i) {
      assert Reaches(parents, parents[i], Depth(parents, i) - 1);
      OneDepth(parents, parents[i], Depth(parents, parents[i]), Depth(parents, i) - 1);
    }
    if Anchored(parents, parents[i]) {
      assert Reaches(parents, i, Depth(parents, parents[i]) + 1);
    }
  }

  // ----- What the loop keeps -----------------------------------------------

  /** Set nodes are anchored and hold their path product; unset nodes are not roots and hold the stale matrix. */
  ghost predicate Sound(parents: seq<int>, locals: seq<Matrix>, stale: seq<Matrix>, s: State)
    requires Fits(parents, locals, s) && |stale| == |parents|
  {
    forall i: nat :: i < |parents| ==>
      if s.flags[i] then Anchored(parents, i) && s.worlds[i] == World(parents, locals, i)
      else parents[i] != ROOT && s.worlds[i] == stale[i]
  }

  lemma StartSound(parents: seq<int>, locals: seq<Matrix>, stale: seq<Matrix>)
    requires |parents| == |locals| == |stale|
    ensures Sound(parents, locals, stale, Start(parents, locals, stale))
  {
    forall i: nat | i < |parents| && parents[i] == ROOT
      ensures Anchored(parents, i) && World(parents, locals, i) == locals[i]
    {
      RootWorld(parents, locals, i);
    }
  }

  lemma {:induction false} SweepSound(parents: seq<int>, locals: seq<Matrix>, stale: seq<Matrix>, s: State, k: nat)
    requires Fits(parents, locals, s) && |stale| == |parents| && k <= |parents| && Checked(parents, s, k)
    requires Sound(parents, locals, stale, s)
    ensures Sound(parents, locals, stale, Sweep(parents, locals, s, k))
  {
    if k > 0 {
      SweepSound(parents, locals, stale, s, k - 1);
      hide Sound;
      VisitSound(parents, locals, stale, Sweep(parents, locals, s, k - 1), k - 1);
    }
  }

  lemma VisitSound(parents: seq<int>, locals: seq<Matrix>, stale: seq<Matrix>, s: State, i: nat)
    requires Fits(parents, locals, s) && |stale| == |parents| && i < |parents|
    requires (s.flags[i] || GoodParent(parents, i)) && Sound(parents, locals, stale, s)
    ensures Sound(parents, locals, stale, Visit(parents, locals, s, i))
  {
    hide World, Anchored, Mul;
    if GoodParent(parents, i) {
      ChildWorld(parents, locals, i);
    }
  }

  /** A sweep that sets no flag changes nothing, and leaves no unset node below a set parent. */
  lemma {:induction false} QuietSweep(parents: seq<int>, locals: seq<Matrix>, s: State, k: nat)
    requires Fits(parents, locals, s) && k <= |parents| && Checked(parents, s, |parents|)
    requires Sweep(parents, locals, s, k).flags == s.flags
    ensures Sweep(parents, locals, s, k) == s
    ensures forall i: nat :: i < k && !s.flags[i] ==> !s.flags[parents[i]]
  {
    if k > 0 {
      var t := Sweep(parents, locals, s, k - 1);
      assert forall i :: 0 <= i < |parents| && t.flags[i] ==> Sweep(parents, locals, s, k).flags[i];
      assert t.flags == s.flags;
      QuietSweep(parents, locals, s, k - 1);
    }
  }

  /** Once no unset node hangs below a set one, every anchored node is set. */
  lemma {:induction false} AllAnchoredSet(parents: seq<int>, flags: seq<bool>, i: int, d: nat)
    requires |flags| == |parents| && Reaches(parents, i, d)
    requires forall j: nat :: j < |parents| && !flags[j] ==> GoodParent(parents, j) && !flags[parents[j]]
    ensures flags[i]
    decreases d
  {
    if d > 0 {
      AllAnchoredSet(parents, flags, parents[i], d - 1);
    }
  }

  /** When the outer loop stops, exactly the anchored nodes are set, each to its path product. */
  lemma {:induction false} SettleSound(parents: seq<int>, locals: seq<Matrix>, stale: seq<Matrix>, s: State)
    requires Fits(parents, locals, s) && |stale| == |parents| && Checked(parents, s, |parents|)
    requires Sound(parents, locals, stale, s)
    ensures var r := Settle(parents, locals, s);
            && Sound(parents, locals, stale, r)
            && forall i: nat :: i < |parents| ==> (r.flags[i] <==> Anchored(parents, i))
    decreases Unset(s.flags)
  {
    var t := Sweep(parents, locals, s, |parents|);
    SweepSound(parents, locals, stale, s, |parents|);
    if t.flags == s.flags {
      QuietSweep(parents, locals, s, |parents|);
      forall i: nat | i < |parents| && Anchored(parents, i) ensures t.flags[i] {
        AllAnchoredSet(parents, t.flags, i, Depth(parents, i));
      }
    } else {
      UnsetDrops(s.flags, t.flags);
      SettleSound(parents, locals, stale, t);
    }
  }

  // ----- Outcomes ----------------------------------------------------------

  /** What calcMatrices demands of the parent array. */
  ghost predicate WellRooted(parents: seq<int>) {
    && (exists r: nat :: r < |parents| && parents[r] == ROOT)
    && (forall i: nat, j: nat :: i < |parents| && j < |parents| && parents[i] == ROOT && parents[j] == ROOT ==> i == j)
    && (forall i: nat :: i < |parents| ==> parents[i] == ROOT || GoodParent(parents, i))
  }

  lemma {:induction false} RootCountMeaning(parents: seq<int>)
    ensures RootCount(parents) == 0 <==> forall i: nat :: i < |parents| ==> parents[i] != ROOT
    ensures RootCount(parents) <= 1 <==>
      forall i: nat, j: nat :: i < |parents| && j < |parents| && parents[i] == ROOT && parents[j] == ROOT ==> i == j
  {
    if parents != [] {
      var n := |parents| - 1;
      var front := parents[..n];
      RootCountMeaning(front);
      assert forall i: nat :: i < n ==> parents[i] == front[i];
      if RootCount(front) > 0 {
        var r: nat :| r < n && front[r] == ROOT;
        assert parents[r] == ROOT && r != n;
      }
      if RootCount(front) > 1 {
        var i: nat, j: nat :| i < n && j < n && front[i] == ROOT && front[j] == ROOT && i != j;
        assert parents[i] == ROOT && parents[j] == ROOT;
      }
    }
  }

  /** calcMatrices succeeds exactly on one root and parents in range that are not the node itself. */
  lemma CalcSucceeds(parents: seq<int>, locals: seq<Matrix>, stale: seq<Matrix>, conv: Conversions)
    requires |parents| == |locals| == |stale| && Usable(conv)
    ensures Calc(parents, locals, stale, conv).0 == Solved <==> WellRooted(parents)
  {
    RootCountMeaning(parents);
  }

  /** Node k is the first, in list order, that names a parent, and that parent is itself or not in the list. */
  ghost predicate FirstRefused(parents: seq<int>, k: nat) {
    && k < |parents| && parents[k] != -1 && (parents[k] == k || parents[k] < 0 || parents[k] >= |parents|)
    && forall j: nat :: j < k && parents[j] != -1 ==> parents[j] != j && 0 <= parents[j] < |parents|
  }

  ghost predicate Rootless(parents: seq<int>) {
    forall i: nat :: i < |parents| ==> parents[i] != -1
  }

  ghost predicate TwoRoots(parents: seq<int>) {
    exists i: nat, j: nat :: i < j < |parents| && parents[i] == -1 && parents[j] == -1
  }

  ghost predicate OneRoot(parents: seq<int>) {
    exists r: nat :: r < |parents| && parents[r] == -1 && forall i: nat :: i < |parents| && parents[i] == -1 ==> i == r
  }

  /** Each outcome, by what the parent array has. */
  lemma OutcomeMeaning(parents: seq<int>, locals: seq<Matrix>, stale: seq<Matrix>, conv: Conversions)
    requires |parents| == |locals| == |stale| && Usable(conv)
    ensures var o := Calc(parents, locals, stale, conv).0;
            && (o == NoRoot <==> Rootless(parents)) && (o == ManyRoots <==> TwoRoots(parents))
            && (forall k: nat :: o == PointsToSelf(k) <==>
                  OneRoot(parents) && FirstRefused(parents, k) && parents[k] == k)
            && (forall k: nat :: o == InvalidParent(k) <==>
                  OneRoot(parents) && FirstRefused(parents, k) && parents[k] != k)
            && o != Cycle
  {
    hide RootCount, FirstBad, FirstRefused, OneRoot, Rootless, TwoRoots, Calc, GoodParent;
    RootsMeaning(parents);
    var bad := FirstBad(parents, 0);
    forall k: nat ensures FirstRefused(parents, k) <==> k == bad < |parents| {
      RefusedIs(parents, k);
    }
    CalcOutcome(parents, locals, stale, conv);
  }

  lemma CalcOutcome(parents: seq<int>, locals: seq<Matrix>, stale: seq<Matrix>, conv: Conversions)
    requires |parents| == |locals| == |stale| && Usable(conv)
    ensures var bad := FirstBad(parents, 0);
            Calc(parents, locals, stale, conv).0
            == if RootCount(parents) == 0 then NoRoot else if RootCount(parents) > 1 then ManyRoots
               else if bad == |parents| then Solved else if parents[bad] == bad then PointsToSelf(bad)
               else InvalidParent(bad)
  {
    hide RootCount, FirstBad, Sweep, Settle, Start, Convert;
  }

  lemma RootsMeaning(parents: seq<int>)
    ensures Rootless(parents) <==> RootCount(parents) == 0
    ensures OneRoot(parents) <==> RootCount(parents) == 1
    ensures TwoRoots(parents) <==> RootCount(parents) > 1
  {
    RootCountMeaning(parents);
    hide RootCount;
    assert Rootless(parents) <==> RootCount(parents) == 0;
    NotTwoRoots(parents);
    hide Rootless, TwoRoots, OneRoot;
    SomeRoots(parents);
  }

  lemma NotTwoRoots(parents: seq<int>)
    ensures !TwoRoots(parents) <==>
      forall i: nat, j: nat :: i < |parents| && j < |parents| && parents[i] == ROOT && parents[j] == ROOT ==> i == j
  {
    if i: nat, j: nat :| i < |parents| && j < |parents| && parents[i] == ROOT && parents[j] == ROOT && i != j {
      var a, b := if i < j then i else j, if i < j then j else i;
      assert a < b < |parents| && parents[a] == -1 && parents[b] == -1;
    }
  }

  lemma SomeRoots(parents: seq<int>)
    ensures OneRoot(parents) <==> !Rootless(parents) && !TwoRoots(parents)
  {
    if !Rootless(parents) && !TwoRoots(parents) {
      NotTwoRoots(parents);
      var r: nat :| r < |parents| && parents[r] == -1;
      assert forall i: nat :: i < |parents| && parents[i] == -1 ==> i == r;
    }
  }

  lemma RefusedIs(parents: seq<int>, k: nat)
    ensures FirstRefused(parents, k) <==> k == FirstBad(parents, 0) < |parents|
  {
    var bad := FirstBad(parents, 0);
    hide FirstBad;
    if bad < |parents| {
      assert parents[bad] != -1 && !GoodParent(parents, bad);
    }
    if FirstRefused(parents, k) {
      assert !GoodParent(parents, k);
    }
  }

  function Converted(conv: Conversions, m: Matrix): Matrix
    requires Usable(conv)
  {
    if conv.Unconverted? || conv.c.IsIdentity() then m else conv.c.ConvertMatrix(m)
  }

  /** On success the flags mark exactly the anchored nodes; those hold their path product, converted, and the
      rest hold their stale matrix, converted. */
  lemma CalcMeaning(parents: seq<int>, locals: seq<Matrix>, stale: seq<Matrix>, conv: Conversions)
    requires |parents| == |locals| == |stale| && Usable(conv) && WellRooted(parents)
    ensures var r := Calc(parents, locals, stale, conv).1;
            forall i: nat :: i < |parents| ==>
              && (r.flags[i] <==> Anchored(parents, i))
              && r.worlds[i] == Converted(conv, if r.flags[i] then World(parents, locals, i) else stale[i])
  {
    CalcSucceeds(parents, locals, stale, conv);
    StartSound(parents, locals, stale);
    SettleSound(parents, locals, stale, Start(parents, locals, stale));
  }

  /** Whatever the outcome, a node that is not below a root has its old matrix, converted if the run succeeds. */
  lemma CalcLeftovers(parents: seq<int>, locals: seq<Matrix>, stale: seq<Matrix>, conv: Conversions)
    requires |parents| == |locals| == |stale| && Usable(conv)
    ensures var r := Calc(parents, locals, stale, conv);
            forall i: nat :: i < |parents| && !Anchored(parents, i) ==>
              r.1.worlds[i] == if r.0 == Solved then Converted(conv, stale[i]) else stale[i]
  {
    var start, bad := Start(parents, locals, stale), FirstBad(parents, 0);
    CalcSucceeds(parents, locals, stale, conv);
    if WellRooted(parents) {
      CalcMeaning(parents, locals, stale, conv);
    } else {
      hide Sound, Start, Anchored, WellRooted;
      StartSound(parents, locals, stale);
      SoundLeftovers(parents, locals, stale, start);
      if bad < |parents| {
        SweepSound(parents, locals, stale, start, bad);
        SoundLeftovers(parents, locals, stale, Sweep(parents, locals, start, bad));
      }
    }
  }

  lemma SoundLeftovers(parents: seq<int>, locals: seq<Matrix>, stale: seq<Matrix>, s: State)
    requires Fits(parents, locals, s) && |stale| == |parents| && Sound(parents, locals, stale, s)
    ensures forall i: nat :: i < |parents| && !Anchored(parents, i) ==> s.worlds[i] == stale[i]
  {
    hide World, Anchored;
  }

  // ----- Cycles ------------------------------------------------------------

  /** The node d parents up from i, or the root once it is reached. */
  function Climb(parents: seq<int>, i: nat, d: nat): (j: nat)
    requires WellParented(parents) && i < |parents|
    ensures j < |parents|
    decreases d
  {
    if d == 0 || parents[i] == ROOT then i else Climb(parents, parents[i], d - 1)
  }

  predicate WellParented(parents: seq<int>) {
    forall i: nat :: i < |parents| ==> parents[i] == ROOT || GoodParent(parents, i)
  }

  /** i is one of its own ancestors. */
  ghost predicate OnCycle(parents: seq<int>, i: nat)
    requires WellParented(parents) && i < |parents|
  {
    parents[i] != ROOT && exists d: nat :: d > 0 && Climb(parents, i, d) == i
  }

  lemma {:induction false} ClimbMore(parents: seq<int>, i: nat, d: nat, e: nat)
    requires WellParented(parents) && i < |parents|
    ensures Climb(parents, Climb(parents, i, d), e) == Climb(parents, i, d + e)
    decreases d
  {
    if d > 0 && parents[i] != ROOT {
      ClimbMore(parents, parents[i], d - 1, e);
    }
  }

  lemma {:induction false} ClimbReaches(parents: seq<int>, i: nat, d: nat, e: nat)
    requires WellParented(parents) && i < |parents| && Reaches(parents, i, e)
    ensures Reaches(parents, Climb(parents, i, d), if d <= e then e - d else 0)
    decreases d
  {
    if d > 0 && e > 0 {
      ClimbReaches(parents, parents[i], d - 1, e - 1);
    }
  }

  lemma {:induction false} ClimbUnanchored(parents: seq<int>, i: nat, d: nat)
    requires WellParented(parents) && i < |parents| && !Anchored(parents, i)
    ensures !Anchored(parents, Climb(parents, i, d))
    decreases d
  {
    if d > 0 && parents[i] != ROOT {
      if e: nat :| Reaches(parents, parents[i], e) {
        assert Reaches(parents, i, e + 1);
      }
      ClimbUnanchored(parents, parents[i], d - 1);
    }
  }

  lemma UnanchoredBelowRoot(parents: seq<int>, i: nat)
    requires i < |parents| && !Anchored(parents, i)
    ensures parents[i] != ROOT
  {
    assert !Reaches(parents, i, 0);
  }

  lemma {:induction false} Pigeonhole(s: seq<nat>, n: nat) returns (i: nat, j: nat)
    requires |s| > n && forall k :: 0 <= k < |s| ==> s[k] < n
    ensures i < j < |s| && s[i] == s[j]
    decreases n
  {
    var last := |s| - 1;
    if k: nat :| k < last && s[k] == s[last] {
      i, j := k, last;
    } else {
      var t := seq(last, k requires 0 <= k < last => if s[k] > s[last] then s[k] - 1 else s[k]);
      assert n > 0 by { assert s[0] < n; }
      i, j := Pigeonhole(t, n - 1);
    }
  }

  /** The anchors fail exactly on a cycle: a hierarchy with one root is a tree unless some node is its own ancestor. */
  lemma TreeUnlessCycle(parents: seq<int>)
    requires WellParented(parents)
    ensures (forall i: nat :: i < |parents| ==> Anchored(parents, i))
       <==> !exists i: nat :: i < |parents| && OnCycle(parents, i)
  {
    if i: nat :| i < |parents| && OnCycle(parents, i) && Anchored(parents, i) {
      var d: nat :| d > 0 && Climb(parents, i, d) == i;
      var e := Depth(parents, i);
      ClimbReaches(parents, i, d, e);
      OneDepth(parents, i, e, if d <= e then e - d else 0);
    }
    if i: nat :| i < |parents| && !Anchored(parents, i) {
      var n := |parents|;
      var chain := seq(n + 1, k requires 0 <= k < n + 1 => Climb(parents, i, k));
      var a, b := Pigeonhole(chain, n);
      ClimbMore(parents, i, a, b - a);
      ClimbUnanchored(parents, i, a);
      var j := Climb(parents, i, a);
      assert Climb(parents, j, b - a) == j;
      UnanchoredBelowRoot(parents, j);
      assert OnCycle(parents, j);
    }
  }

  /** The check of the pass count does not reject cycles: on one root and parents in range, calcMatrices returns
      true, and a flag is left unset exactly when there is a cycle. */
  lemma CycleIsNotRejected(parents: seq<int>, locals: seq<Matrix>, stale: seq<Matrix>, conv: Conversions)
    requires |parents| == |locals| == |stale| && Usable(conv) && WellRooted(parents)
    ensures Calc(parents, locals, stale, conv).0 == Solved
    ensures false in Calc(parents, locals, stale, conv).1.flags
       <==> exists i: nat :: i < |parents| && OnCycle(parents, i)
  {
    CalcSucceeds(parents, locals, stale, conv);
    CalcMeaning(parents, locals, stale, conv);
    TreeUnlessCycle(parents);
    hide Calc, World, Converted, OnCycle;
    var flags := Calc(parents, locals, stale, conv).1.flags;
    if false in flags {
      var i :| 0 <= i < |flags| && flags[i] == false;
      assert !Anchored(parents, i);
    }
  }

  /** The conversions between valid contexts. */
  predicate Invertible(conv: Conversions) {
    conv.By? ==> conv.c.Proper()
  }

  lemma ConvertedTwice(conv: Conversions, m: Matrix)
    requires Usable(conv) && Invertible(conv)
    ensures Converted(conv, Converted(conv, m)) == Converted(conv, m) <==> Converted(conv, m) == m
  {
    if conv.By? {
      hide Conversion.ConvertMatrix, Conversion.Proper;
      ProductLaws.ConversionInjective(conv.c, conv.c.ConvertMatrix(m), m);
    }
  }

  /** Running the solver again on its own result gives the same result exactly when the conversion leaves alone the old
      matrix of every node that is not below the root. */
  lemma CalcIdempotent(parents: seq<int>, locals: seq<Matrix>, stale: seq<Matrix>, conv: Conversions)
    requires |parents| == |locals| == |stale| && Usable(conv) && Invertible(conv) && WellRooted(parents)
    ensures var r := Calc(parents, locals, stale, conv);
            Calc(parents, locals, r.1.worlds, conv) == r
            <==> forall i: nat :: i < |parents| && !Anchored(parents, i) ==> Converted(conv, stale[i]) == stale[i]
  {
    var r := Calc(parents, locals, stale, conv);
    var r' := Calc(parents, locals, r.1.worlds, conv);
    CalcSucceeds(parents, locals, stale, conv);
    CalcSucceeds(parents, locals, r.1.worlds, conv);
    CalcMeaning(parents, locals, stale, conv);
    CalcMeaning(parents, locals, r.1.worlds, conv);
    hide Calc, World, Converted, Invertible, WellRooted;
    assert r'.1.flags == r.1.flags;
    forall i: nat | i < |parents| && !Anchored(parents, i)
      ensures r'.1.worlds[i] == r.1.worlds[i] <==> Converted(conv, stale[i]) == stale[i]
    {
      ConvertedTwice(conv, stale[i]);
    }
    if forall i: nat :: i < |parents| && !Anchored(parents, i) ==> Converted(conv, stale[i]) == stale[i] {
      assert r'.1.worlds == r.1.worlds;
    }
  }

  /** On a tree, running the solver again changes nothing. */
  lemma CalcTwiceOnTree(parents: seq<int>, locals: seq<Matrix>, stale: seq<Matrix>, conv: Conversions)
    requires |parents| == |locals| == |stale| && Usable(conv) && Invertible(conv) && WellRooted(parents)
    requires forall i: nat :: i < |parents| ==> !OnCycle(parents, i)
    ensures var r := Calc(parents, locals, stale, conv); Calc(parents, locals, r.1.worlds, conv) == r
  {
    TreeUnlessCycle(parents);
    CalcIdempotent(parents, locals, stale, conv);
  }

  /** A concrete case: a root and two nodes that are each other's parents. */
  lemma CycleExample(m: Matrix)
    ensures Calc([ROOT, 2, 1], [m, m, m], [m, m, m], Unconverted) == (Solved, State([true, false, false], [m, m, m]))
  {
    var parents, ms := [ROOT, 2, 1], [m, m, m];
    assert parents[..2] == [ROOT, 2] && parents[..2][..1] == [ROOT] && parents[..2][..1][..0] == [];
    assert RootCount([]) == 0 && RootCount([ROOT]) == 1 && RootCount([ROOT, 2]) == 1 && RootCount(parents) == 1;
    var s := Start(parents, ms, ms);
    assert s == State([true, false, false], ms);
    SweepStep(parents, ms, s, 0);
    SweepStep(parents, ms, s, 1);
    SweepStep(parents, ms, s, 2);
  }

  /** A node that is set, or whose parent is not, is passed over. */
  lemma SweepStep(parents: seq<int>, locals: seq<Matrix>, s: State, k: nat)
    requires Fits(parents, locals, s) && k < |parents| && Checked(parents, s, k + 1)
    requires Sweep(parents, locals, s, k) == s && (s.flags[k] || !s.flags[parents[k]])
    ensures Sweep(parents, locals, s, k + 1) == s
  {
  }

  lemma CycleUnanchored()
    ensures WellRooted([ROOT, 2, 1]) && !Anchored([ROOT, 2, 1], 1)
  {
    var parents, ms := [ROOT, 2, 1], [IDENTITY, IDENTITY, IDENTITY];
    CycleExample(IDENTITY);
    hide Calc, Anchored, WellRooted;
    CalcSucceeds(parents, ms, ms, Unconverted);
    CalcMeaning(parents, ms, ms, Unconverted);
  }

  /** Off the tree it can change something: with a leftover that is translated, into centimetres from metres. */
  lemma RerunExample(m: Matrix)
    requires !ProductLaws.NoTranslation(m)
    ensures var parents, ms, conv := [ROOT, 2, 1], [m, m, m], By(IDENTITY_CONVERSION.(unit := 100.0));
            var r := Calc(parents, ms, ms, conv);
            r.0 == Solved && Calc(parents, ms, r.1.worlds, conv) != r
  {
    var parents, ms, c := [ROOT, 2, 1], [m, m, m], IDENTITY_CONVERSION.(unit := 100.0);
    CycleUnanchored();
    ProductLaws.TranslationConverted(c, m);
    hide Calc, Anchored, WellRooted, Conversion.ConvertMatrix, ProductLaws.NoTranslation;
    CalcSucceeds(parents, ms, ms, By(c));
    CalcIdempotent(parents, ms, ms, By(c));
    assert Converted(By(c), ms[1]) != ms[1];
  }

  // ----- The pass budget ---------------------------------------------------

  lemma {:induction false} UnsetIsNotRoot(parents: seq<int>, flags: seq<bool>)
    requires |flags| == |parents| && forall i :: 0 <= i < |parents| ==> flags[i] == (parents[i] == ROOT)
    ensures Unset(flags) == |parents| - RootCount(parents)
  {
    if parents != [] {
      var n := |parents| - 1;
      UnsetIsNotRoot(parents[..n], flags[..n]);
      UnsetLast(flags);
    }
  }

  lemma {:induction false} UnsetLast(flags: seq<bool>)
    requires flags != []
    ensures Unset(flags) == Unset(flags[..|flags| - 1]) + if flags[|flags| - 1] then 0 else 1
  {
    if |flags| > 1 {
      UnsetLast(flags[1..]);
      assert flags[1..][..|flags| - 2] == flags[..|flags| - 1][1..];
    }
  }

  /** The loop never runs more than size() times, so it never reports "Cycle detected". */
  lemma PassBudget(parents: seq<int>, locals: seq<Matrix>, stale: seq<Matrix>)
    requires |parents| == |locals| == |stale| && WellRooted(parents)
    ensures Passes(parents, locals, Start(parents, locals, stale)) <= |parents|
  {
    RootCountMeaning(parents);
    UnsetIsNotRoot(parents, Start(parents, locals, stale).flags);
  }

  function ChildFirst(n: nat): seq<int> {
    seq(n, i requires 0 <= i < n => if i == n - 1 then ROOT else i + 1)
  }

  lemma {:induction false} ChainSweep(n: nat, locals: seq<Matrix>, s: State, m: nat, k: nat)
    requires 0 < m < n && k <= n && Fits(ChildFirst(n), locals, s) && Checked(ChildFirst(n), s, k)
    requires forall i :: 0 <= i < n ==> (s.flags[i] <==> i >= n - m)
    ensures forall i :: 0 <= i < n ==>
              (Sweep(ChildFirst(n), locals, s, k).flags[i] <==> i >= n - m || (i == n - m - 1 && i < k))
  {
    if k > 0 {
      ChainSweep(n, locals, s, m, k - 1);
    }
  }

  lemma {:induction false} ChainPassesFrom(n: nat, locals: seq<Matrix>, s: State, m: nat)
    requires 0 < m <= n && Fits(ChildFirst(n), locals, s) && Checked(ChildFirst(n), s, n)
    requires forall i :: 0 <= i < n ==> (s.flags[i] <==> i >= n - m)
    ensures Passes(ChildFirst(n), locals, s) == n - m + 1
    decreases n - m
  {
    var t := Sweep(ChildFirst(n), locals, s, n);
    if m < n {
      ChainSweep(n, locals, s, m, n);
      assert t.flags[n - m - 1] != s.flags[n - m - 1];
      ChainPassesFrom(n, locals, t, m + 1);
    } else {
      assert t.flags == s.flags;
    }
  }

  /** The budget is tight: a chain stored child first needs all size() passes. */
  lemma ChainPasses(n: nat, locals: seq<Matrix>, stale: seq<Matrix>)
    requires n > 0 && |locals| == |stale| == n
    ensures WellRooted(ChildFirst(n))
    ensures Passes(ChildFirst(n), locals, Start(ChildFirst(n), locals, stale)) == n
  {
    assert ChildFirst(n)[n - 1] == ROOT;
    ChainPassesFrom(n, locals, Start(ChildFirst(n), locals, stale), 1);
  }

  /** Parents stored before their children. */
  predicate Preorder(parents: seq<int>) {
    forall i: nat :: i < |parents| ==> -1 <= parents[i] < i
  }

  lemma {:induction false} PreorderSweep(parents: seq<int>, locals: seq<Matrix>, s: State, k: nat)
    requires Fits(parents, locals, s) && k <= |parents| && Checked(parents, s, k) && Preorder(parents)
    requires forall i: nat :: i < |parents| && parents[i] == ROOT ==> s.flags[i]
    ensures forall i: nat :: i < k ==> Sweep(parents, locals, s, k).flags[i]
  {
    if k > 0 {
      PreorderSweep(parents, locals, s, k - 1);
    }
  }

  /** One productive pass is enough when parents come first, and every node is then set. */
  lemma PreorderPasses(parents: seq<int>, locals: seq<Matrix>, s: State)
    requires Fits(parents, locals, s) && Checked(parents, s, |parents|) && Preorder(parents)
    requires forall i: nat :: i < |parents| && parents[i] == ROOT ==> s.flags[i]
    ensures Passes(parents, locals, s) <= 2
    ensures false !in Settle(parents, locals, s).flags
  {
    var t := Sweep(parents, locals, s, |parents|);
    PreorderSweep(parents, locals, s, |parents|);
    var u := Sweep(parents, locals, t, |parents|);
    assert u.flags == t.flags;
  }
}
