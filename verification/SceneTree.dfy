// Flattening a scene tree into the transform list of a performer (plugins/mobu/mobuModel.cpp:92-126).

module SceneTree {
  import opened Matrices
  import opened Hierarchy

  /** A model of the scene; a slot of its child list may be empty. */
  datatype Tree = Null | Model(name: string, children: seq<Tree>)

  /** What the flattened list keeps of a model. */
  datatype Entry = Entry(name: string, parent: int)

  // ----- The filtered tree -------------------------------------------------

  /** With a joint list, a model that is not on it goes, and everything below it with it. */
  predicate Kept(joints: seq<string>, name: string) {
    joints == [] || name in joints
  }

  function Filter(joints: seq<string>, t: Tree): Tree
    decreases t, 0
  {
    if t.Null? || !Kept(joints, t.name) then Null else Model(t.name, FilterAll(joints, t.children))
  }

  function FilterAll(joints: seq<string>, ts: seq<Tree>): seq<Tree>
    decreases ts, 0
  {
    if ts == [] then []
    else (if Filter(joints, ts[0]).Null? then [] else [Filter(joints, ts[0])]) + FilterAll(joints, ts[1..])
  }

  /** No empty slots. */
  ghost predicate Full(t: Tree)
    decreases t, 0
  {
    t.Model? && AllFull(t.children)
  }

  ghost predicate AllFull(ts: seq<Tree>)
    decreases ts, 0
  {
    ts == [] || (Full(ts[0]) && AllFull(ts[1..]))
  }

  lemma {:induction false} FilterFull(joints: seq<string>, t: Tree)
    ensures Filter(joints, t).Null? || Full(Filter(joints, t))
    decreases t, 0
  {
    if t.Model? {
      FilterAllFull(joints, t.children);
    }
  }

  lemma {:induction false} FilterAllFull(joints: seq<string>, ts: seq<Tree>)
    ensures AllFull(FilterAll(joints, ts))
    decreases ts, 0
  {
    if ts != [] {
      FilterFull(joints, ts[0]);
      FilterAllFull(joints, ts[1..]);
      if Filter(joints, ts[0]).Null? {
        assert FilterAll(joints, ts) == FilterAll(joints, ts[1..]);
      } else {
        assert FilterAll(joints, ts)[1..] == FilterAll(joints, ts[1..]);
      }
    }
  }

  // ----- The list of a tree ------------------------------------------------

  /** The preorder list of t, placed at index k under the parent at index p. */
  function Flat(t: Tree, p: int, k: nat): seq<Entry>
    decreases t, 0
  {
    if t.Null? then [] else [Entry(t.name, p)] + FlatAll(t.children, k, k + 1)
  }

  function FlatAll(ts: seq<Tree>, p: int, k: nat): seq<Entry>
    decreases ts, 0
  {
    if ts == [] then [] else Flat(ts[0], p, k) + FlatAll(ts[1..], p, k + |Flat(ts[0], p, k)|)
  }

  /** The subject that receives the list, and the joint names it filters by. */
  class PerformerSubject {
    var mTransforms: seq<Entry>
    var mJoints: seq<string>

    /** TraverseSubject: the traversal of a root clears the list, and every kept model is added with its parent's
        index, before its children. */
    method Traverse(model: Tree, parentId: int)
      requires -1 <= parentId
      modifies this`mTransforms
      ensures mTransforms == (if model.Null? then old(mTransforms)
                              else if parentId == -1 then Flat(Filter(mJoints, model), -1, 0)
                              else old(mTransforms) + Flat(Filter(mJoints, model), parentId, |old(mTransforms)|))
      decreases model
    {
      if model.Null? {
        return;
      }
      if parentId == -1 {
        mTransforms := [];
      }
      if |mJoints| > 0 {
        if model.name !in mJoints {
          return;
        }
      }
      ghost var before := mTransforms;
      mTransforms := mTransforms + [Entry(model.name, parentId)];
      assert Filter(mJoints, model) == Model(model.name, FilterAll(mJoints, model.children));
      assert Flat(Filter(mJoints, model), parentId, |before|)
          == [Entry(model.name, parentId)] + FlatAll(FilterAll(mJoints, model.children), |before|, |before| + 1);
      hide Flat, FlatAll, Filter, FilterAll;
      TraverseChildren(model.children, |mTransforms| - 1);
      Associate(before, [Entry(model.name, parentId)],
                FlatAll(FilterAll(mJoints, model.children), |before|, |before| + 1));
    }

    method TraverseChildren(children: seq<Tree>, nextId: nat)
      modifies this`mTransforms
      ensures mTransforms == old(mTransforms) + FlatAll(FilterAll(mJoints, children), nextId, |old(mTransforms)|)
      decreases children
    {
      hide FirstFlat, Flat, Filter, FlatAll, FilterAll;
      ghost var start := mTransforms;
      NoChildren(start, mJoints, children, nextId);
      var i := 0;
      while i < |children|
        invariant i <= |children| && mTransforms == AfterChildren(start, mJoints, children, i, nextId)
      {
        hide AfterChildren;
        OneMoreChild(start, mJoints, children, i, nextId);
        if children[i] != Null {
          Traverse(children[i], nextId);
        }
        i := i + 1;
      }
    }
  }

  /** The list of the first i children. */
  function FirstFlat(joints: seq<string>, ts: seq<Tree>, i: nat, p: int, k: nat): seq<Entry>
    requires i <= |ts|
  {
    FlatAll(FilterAll(joints, ts[..i]), p, k)
  }

  /** The list after the first i children. */
  ghost function AfterChildren(start: seq<Entry>, joints: seq<string>, ts: seq<Tree>, i: nat, p: int): seq<Entry>
    requires i <= |ts|
  {
    start + FirstFlat(joints, ts, i, p, |start|)
  }

  lemma NoChildren(start: seq<Entry>, joints: seq<string>, ts: seq<Tree>, p: int)
    ensures AfterChildren(start, joints, ts, 0, p) == start
    ensures AfterChildren(start, joints, ts, |ts|, p) == start + FlatAll(FilterAll(joints, ts), p, |start|)
  {
    FirstFlatEnds(joints, ts, p, |start|);
    hide FirstFlat;
  }

  lemma OneMoreChild(start: seq<Entry>, joints: seq<string>, ts: seq<Tree>, i: nat, p: int)
    requires i < |ts|
    ensures var now := AfterChildren(start, joints, ts, i, p);
            AfterChildren(start, joints, ts, i + 1, p)
            == if ts[i] == Null then now else now + Flat(Filter(joints, ts[i]), p, |now|)
  {
    FirstFlatMore(joints, ts, i, p, |start|);
    NullFlat(joints, p, |start + FirstFlat(joints, ts, i, p, |start|)|);
    hide FirstFlat, Flat, Filter;
    var done := FirstFlat(joints, ts, i, p, |start|);
    Associate(start, done, Flat(Filter(joints, ts[i]), p, |start + done|));
  }

  lemma FirstFlatEnds(joints: seq<string>, ts: seq<Tree>, p: int, k: nat)
    ensures FirstFlat(joints, ts, 0, p, k) == []
    ensures FirstFlat(joints, ts, |ts|, p, k) == FlatAll(FilterAll(joints, ts), p, k)
  {
    assert ts[..|ts|] == ts;
  }

  lemma NullFlat(joints: seq<string>, p: int, k: nat)
    ensures Flat(Filter(joints, Null), p, k) == []
  {
  }

  lemma Associate(a: seq<Entry>, b: seq<Entry>, c: seq<Entry>)
    ensures a + b + c == a + (b + c)
  {
  }

  lemma {:induction false} FilterAllMore(joints: seq<string>, ts: seq<Tree>, t: Tree)
    ensures FilterAll(joints, ts + [t])
         == FilterAll(joints, ts) + if Filter(joints, t).Null? then [] else [Filter(joints, t)]
  {
    if ts != [] {
      FilterAllMore(joints, ts[1..], t);
      assert (ts + [t])[1..] == ts[1..] + [t];
    }
  }

  lemma {:induction false} FlatAllAppend(ts: seq<Tree>, t: Tree, p: int, k: nat)
    ensures FlatAll(ts + [t], p, k) == FlatAll(ts, p, k) + Flat(t, p, k + |FlatAll(ts, p, k)|)
  {
    if ts == [] {
      assert (ts + [t])[1..] == [];
    } else {
      FlatAllAppend(ts[1..], t, p, k + |Flat(ts[0], p, k)|);
      assert (ts + [t])[1..] == ts[1..] + [t];
    }
  }

  lemma FirstFlatMore(joints: seq<string>, ts: seq<Tree>, i: nat, p: int, k: nat)
    requires i < |ts|
    ensures FirstFlat(joints, ts, i + 1, p, k)
         == FirstFlat(joints, ts, i, p, k) + Flat(Filter(joints, ts[i]), p, k + |FirstFlat(joints, ts, i, p, k)|)
  {
    assert ts[..i + 1] == ts[..i] + [ts[i]];
    FilterAllMore(joints, ts[..i], ts[i]);
    if Filter(joints, ts[i]).Null? {
      assert FilterAll(joints, ts[..i + 1]) == FilterAll(joints, ts[..i]);
    } else {
      FlatAllAppend(FilterAll(joints, ts[..i]), Filter(joints, ts[i]), p, k);
    }
  }

  // ----- Parents come first ------------------------------------------------

  /** Every parent index lies before the entry's own, and only the first entry hangs on p. */
  ghost predicate Below(es: seq<Entry>, p: int, k: nat) {
    forall i :: 0 <= i < |es| ==> (es[i].parent == p || k <= es[i].parent) && es[i].parent < k + i
  }

  lemma {:induction false} FlatBelow(t: Tree, p: int, k: nat)
    requires p < k
    ensures Below(Flat(t, p, k), p, k)
    ensures forall i :: 0 < i < |Flat(t, p, k)| ==> k <= Flat(t, p, k)[i].parent
    decreases t, 0
  {
    if t.Model? {
      FlatAllBelow(t.children, k, k + 1);
    }
  }

  lemma {:induction false} FlatAllBelow(ts: seq<Tree>, p: int, k: nat)
    requires p < k
    ensures Below(FlatAll(ts, p, k), p, k)
    decreases ts, 0
  {
    if ts != [] {
      FlatBelow(ts[0], p, k);
      FlatAllBelow(ts[1..], p, k + |Flat(ts[0], p, k)|);
    }
  }

  function ParentsOf(es: seq<Entry>): seq<int> {
    seq(|es|, i requires 0 <= i < |es| => es[i].parent)
  }

  /** A traversed tree, if any of it is kept, has one root, at the front, and every parent before its children; the
      solver sets all of it in one productive pass. */
  lemma FlatSolves(t: Tree, locals: seq<Matrix>, stale: seq<Matrix>)
    requires t.Model? && |locals| == |stale| == |Flat(t, -1, 0)|
    ensures var parents := ParentsOf(Flat(t, -1, 0));
            && Preorder(parents) && WellRooted(parents)
            && Passes(parents, locals, Start(parents, locals, stale)) <= 2
            && Calc(parents, locals, stale, Unconverted).0 == Solved
            && false !in Calc(parents, locals, stale, Unconverted).1.flags
  {
    var parents := ParentsOf(Flat(t, -1, 0));
    FlatBelow(t, -1, 0);
    assert parents[0] == ROOT;
    CalcSucceeds(parents, locals, stale, Unconverted);
    PreorderPasses(parents, locals, Start(parents, locals, stale));
  }

  // ----- Back to the tree --------------------------------------------------

  /** The trees hanging on p whose list starts at k, and where that list ends. */
  function Build(es: seq<Entry>, p: int, k: nat): (r: (seq<Tree>, nat))
    requires k <= |es|
    ensures k <= r.1 <= |es|
    decreases |es| - k
  {
    if k == |es| || es[k].parent != p then ([], k)
    else
      var below := Build(es, k, k + 1);
      var rest := Build(es, p, below.1);
      ([Model(es[k].name, below.0)] + rest.0, rest.1)
  }

  /** The list of the trees stands at k, and what follows it hangs on something earlier than p. */
  ghost predicate Stands(es: seq<Entry>, part: seq<Entry>, p: int, k: nat) {
    && k + |part| <= |es| && es[k..k + |part|] == part
    && (k + |part| < |es| ==> es[k + |part|].parent < p)
  }

  lemma Pieces(es: seq<Entry>, k: nat, e: Entry, below: seq<Entry>, tail: seq<Entry>)
    requires k + 1 + |below| + |tail| <= |es|
    requires es[k..k + 1 + |below| + |tail|] == [e] + below + tail
    ensures es[k] == e && es[k + 1..k + 1 + |below|] == below
    ensures es[k + 1 + |below|..k + 1 + |below| + |tail|] == tail
    ensures tail != [] ==> es[k + 1 + |below|] == tail[0]
  {
    Piece(es, k, [e], below + tail);
    assert [e] + below + tail == [e] + (below + tail);
    Piece(es, k + 1, below, tail);
    assert es[k] == es[k..k + 1][0];
    if tail != [] {
      assert es[k + 1 + |below|] == es[k + 1 + |below|..k + 1 + |below| + |tail|][0];
    }
  }

  lemma Piece(es: seq<Entry>, k: nat, a: seq<Entry>, b: seq<Entry>)
    requires k + |a + b| <= |es| && es[k..k + |a + b|] == a + b
    ensures es[k..k + |a|] == a && es[k + |a|..k + |a| + |b|] == b
  {
    assert es[k..k + |a|] == (a + b)[..|a|];
    assert es[k + |a|..k + |a| + |b|] == (a + b)[|a|..];
  }

  lemma TailHead(rest: seq<Tree>, p: int, k: nat)
    requires AllFull(rest)
    ensures rest == [] <==> FlatAll(rest, p, k) == []
    ensures rest != [] ==> FlatAll(rest, p, k)[0].parent == p
  {
  }

  lemma FlatFirst(t: Tree, rest: seq<Tree>, p: int, k: nat)
    requires t.Model?
    ensures var below := FlatAll(t.children, k, k + 1);
            FlatAll([t] + rest, p, k) == [Entry(t.name, p)] + below + FlatAll(rest, p, k + 1 + |below|)
  {
    assert ([t] + rest)[1..] == rest;
    assert Flat(t, p, k) == [Entry(t.name, p)] + FlatAll(t.children, k, k + 1);
  }

  /** A list that stands is a first entry, the list below it, and the list of the rest. */
  lemma StandsApart(t: Tree, rest: seq<Tree>, es: seq<Entry>, p: int, k: nat)
    requires t.Model? && AllFull(rest) && p < k && Stands(es, FlatAll([t] + rest, p, k), p, k)
    ensures var below := FlatAll(t.children, k, k + 1);
            var after := k + 1 + |below|;
            && k < |es| && es[k] == Entry(t.name, p)
            && Stands(es, below, k, k + 1) && Stands(es, FlatAll(rest, p, after), p, after)
            && |FlatAll([t] + rest, p, k)| == 1 + |below| + |FlatAll(rest, p, after)|
  {
    hide FlatAll, Flat, AllFull;
    var below := FlatAll(t.children, k, k + 1);
    var after := k + 1 + |below|;
    FlatFirst(t, rest, p, k);
    TailHead(rest, p, after);
    Pieces(es, k, Entry(t.name, p), below, FlatAll(rest, p, after));
  }

  /** Building from a list gives back the trees it was made from. */
  lemma {:induction false} BuildFlat(ts: seq<Tree>, es: seq<Entry>, p: int, k: nat)
    requires AllFull(ts) && p < k && Stands(es, FlatAll(ts, p, k), p, k)
    ensures Build(es, p, k) == (ts, k + |FlatAll(ts, p, k)|)
    decreases ts
  {
    if ts != [] {
      var t, rest := ts[0], ts[1..];
      var after := k + 1 + |FlatAll(t.children, k, k + 1)|;
      assert ts == [t] + rest;
      StandsApart(t, rest, es, p, k);
      hide Stands, FlatAll;
      BuildFlat(t.children, es, k, k + 1);
      BuildFlat(rest, es, p, after);
    } else {
      hide Flat;
    }
  }

  /** The traversal loses nothing of the filtered tree. */
  lemma FlattenInvertible(joints: seq<string>, t: Tree)
    requires Filter(joints, t).Model?
    ensures Build(Flat(Filter(joints, t), -1, 0), -1, 0).0 == [Filter(joints, t)]
  {
    var f := Filter(joints, t);
    FilterFull(joints, t);
    var es := Flat(f, -1, 0);
    assert es[1..|es|] == FlatAll(f.children, 0, 1) && es[0] == Entry(f.name, -1);
    BuildFlat(f.children, es, 0, 1);
    assert Build(es, 0, 1) == (f.children, |es|);
    assert [f] + [] == [f];
  }
}
