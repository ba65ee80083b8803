// Which models of a scene the flattened list holds, in which order and below which parents
// (plugins/mobu/mobuModel.cpp:92-126), told by where the models stand in the scene.

module SceneModels {
  import opened SceneTree

  /** The child slots on the way from the root to a model. */
  type Path = seq<nat>

  function ModelAt(t: Tree, path: Path): Tree {
    if path == [] then t
    else if t.Null? || path[0] >= |t.children| then Null
    else ModelAt(t.children[path[0]], path[1..])
  }

  /** The model is there, with all its ancestors, and all of them are on the joint list, when there is one. */
  ghost predicate InScene(joints: seq<string>, t: Tree, path: Path) {
    forall k :: 0 <= k <= |path| ==>
      var m := ModelAt(t, path[..k]); m.Model? && (joints == [] || m.name in joints)
  }

  /** In a walk that visits a model before those below it, and siblings by their slots, a comes before b. */
  predicate Before(a: Path, b: Path) {
    b != [] && (a == [] || a[0] < b[0] || (a[0] == b[0] && Before(a[1..], b[1..])))
  }

  /** The list holds exactly the models in the scene, in the order of the walk, each with its name and the index of its
      parent, or -1. */
  ghost predicate Depicts(joints: seq<string>, t: Tree, es: seq<Entry>, ps: seq<Path>) {
    && |es| == |ps|
    && (forall path :: InScene(joints, t, path) <==> path in ps)
    && (forall a, b :: 0 <= a < b < |ps| ==> Before(ps[a], ps[b]))
    && (forall a :: 0 <= a < |ps| ==> es[a].name == NameAt(t, ps[a]))
    && (forall a :: 0 <= a < |ps| ==>
          if ps[a] == [] then es[a].parent == -1
          else 0 <= es[a].parent < a && ps[es[a].parent] == ps[a][..|ps[a]| - 1])
  }

  function NameAt(t: Tree, path: Path): string {
    var m := ModelAt(t, path);
    if m.Null? then "" else m.name
  }

  // ----- Scenes without a joint list ---------------------------------------

  /** Without a joint list, a tree without empty slots is kept as it is. */
  lemma {:induction false} NothingFiltered(t: Tree)
    requires Full(t)
    ensures Filter([], t) == t
    decreases t, 0
  {
    NothingFilteredOf(t.children);
  }

  lemma {:induction false} NothingFilteredOf(ts: seq<Tree>)
    requires AllFull(ts)
    ensures FilterAll([], ts) == ts
    decreases ts, 0
  {
    if ts != [] {
      NothingFiltered(ts[0]);
      NothingFilteredOf(ts[1..]);
      assert [ts[0]] + ts[1..] == ts;
    }
  }

  // ----- The walk ----------------------------------------------------------

  function Prefixed(i: nat, ps: seq<Path>): (r: seq<Path>)
    ensures |r| == |ps|
  {
    seq(|ps|, k requires 0 <= k < |ps| => [i] + ps[k])
  }

  /** The paths of the models in the scene, in the order of the walk. */
  function Walk(joints: seq<string>, t: Tree): seq<Path>
    decreases t, 0, 0
  {
    if t.Null? || !(joints == [] || t.name in joints) then [] else [[]] + WalkFrom(joints, t.children, 0)
  }

  function WalkFrom(joints: seq<string>, ts: seq<Tree>, i: nat): seq<Path>
    requires i <= |ts|
    decreases ts, 1, |ts| - i
  {
    if i == |ts| then [] else Prefixed(i, Walk(joints, ts[i])) + WalkFrom(joints, ts, i + 1)
  }

  // ----- Names and parents -------------------------------------------------

  /** Entry a has the name of the model and the parent that its path says; a path of the length `top` hangs on p, and
      the first entry has the index k. */
  ghost predicate StandsAt(t: Tree, es: seq<Entry>, ps: seq<Path>, top: nat, p: int, k: nat, a: nat)
    requires a < |es| == |ps|
  {
    && |ps[a]| >= top && es[a].name == NameAt(t, ps[a])
    && if |ps[a]| == top then es[a].parent == p
       else k <= es[a].parent < k + a && ps[es[a].parent - k] == ps[a][..|ps[a]| - 1]
  }

  ghost predicate Stand(t: Tree, es: seq<Entry>, ps: seq<Path>, top: nat, p: int, k: nat) {
    |es| == |ps| && forall a: nat :: a < |ps| ==> StandsAt(t, es, ps, top, p, k, a)
  }

  lemma StandPrefixed(t: Tree, i: nat, es: seq<Entry>, ps: seq<Path>, p: int, k: nat)
    requires t.Model? && i < |t.children| && Stand(t.children[i], es, ps, 0, p, k)
    ensures Stand(t, es, Prefixed(i, ps), 1, p, k)
  {
    hide NameAt;
    forall a: nat | a < |ps| ensures StandsAt(t, es, Prefixed(i, ps), 1, p, k, a) {
      assert StandsAt(t.children[i], es, ps, 0, p, k, a);
      NameBelow(t, i, ps[a]);
      if ps[a] != [] {
        assert ([i] + ps[a])[..|ps[a]|] == [i] + ps[a][..|ps[a]| - 1];
      }
    }
  }

  lemma BelowAt(t: Tree, i: nat, path: Path)
    requires t.Model? && i < |t.children|
    ensures ModelAt(t, [i] + path) == ModelAt(t.children[i], path)
  {
    assert ([i] + path)[1..] == path;
  }

  lemma NameBelow(t: Tree, i: nat, path: Path)
    requires t.Model? && i < |t.children|
    ensures NameAt(t, [i] + path) == NameAt(t.children[i], path)
  {
    BelowAt(t, i, path);
  }

  lemma StandJoined(t: Tree, es: seq<Entry>, ps: seq<Path>, fs: seq<Entry>, qs: seq<Path>, top: nat, p: int, k: nat)
    requires Stand(t, es, ps, top, p, k) && Stand(t, fs, qs, top, p, k + |es|)
    ensures Stand(t, es + fs, ps + qs, top, p, k)
  {
    hide NameAt;
    var gs, rs := es + fs, ps + qs;
    forall a: nat | a < |rs| ensures StandsAt(t, gs, rs, top, p, k, a) {
      if a < |ps| {
        assert StandsAt(t, es, ps, top, p, k, a);
        assert gs[a] == es[a] && rs[a] == ps[a];
        if |ps[a]| > top {
          assert rs[gs[a].parent - k] == ps[es[a].parent - k];
        }
      } else {
        var b := a - |ps|;
        assert StandsAt(t, fs, qs, top, p, k + |es|, b);
        assert gs[a] == fs[b] && rs[a] == qs[b];
        if |qs[b]| > top {
          assert rs[gs[a].parent - k] == qs[fs[b].parent - (k + |es|)];
        }
      }
    }
  }

  lemma StandUnder(t: Tree, fs: seq<Entry>, qs: seq<Path>, p: int, k: nat)
    requires t.Model? && Stand(t, fs, qs, 1, k, k + 1)
    ensures Stand(t, [Entry(t.name, p)] + fs, [[]] + qs, 0, p, k)
  {
    assert NameAt(t, []) == t.name;
    hide NameAt;
    var es, ps := [Entry(t.name, p)] + fs, [[]] + qs;
    forall a: nat | a < |ps| ensures StandsAt(t, es, ps, 0, p, k, a) {
      if a > 0 {
        var b := a - 1;
        assert StandsAt(t, fs, qs, 1, k, k + 1, b);
        assert es[a] == fs[b] && ps[a] == qs[b];
        if |qs[b]| > 1 {
          assert ps[es[a].parent - k] == qs[fs[b].parent - (k + 1)];
        } else {
          assert ps[a][..|ps[a]| - 1] == [] == ps[0];
        }
      }
    }
  }

  lemma {:induction false} WalkStands(joints: seq<string>, t: Tree, p: int, k: nat)
    ensures Stand(t, Flat(Filter(joints, t), p, k), Walk(joints, t), 0, p, k)
    decreases t, 0, 0
  {
    if t.Model? && (joints == [] || t.name in joints) {
      WalkFromStands(joints, t, 0, k, k + 1);
      assert t.children[0..] == t.children;
      hide Stand;
      StandUnder(t, FlatAll(FilterAll(joints, t.children), k, k + 1), WalkFrom(joints, t.children, 0), p, k);
    }
  }

  lemma {:induction false} WalkFromStands(joints: seq<string>, t: Tree, i: nat, p: int, k: nat)
    requires t.Model? && i <= |t.children|
    ensures Stand(t, FlatAll(FilterAll(joints, t.children[i..]), p, k), WalkFrom(joints, t.children, i), 1, p, k)
    decreases t.children, 1, |t.children| - i
  {
    var ts := t.children;
    if i < |ts| {
      var first := Flat(Filter(joints, ts[i]), p, k);
      WalkStands(joints, ts[i], p, k);
      WalkFromStands(joints, t, i + 1, p, k + |first|);
      hide Stand, Walk, WalkFrom, Flat, FlatAll, Filter, FilterAll;
      StandPrefixed(t, i, first, Walk(joints, ts[i]), p, k);
      var rest := FlatAll(FilterAll(joints, ts[i + 1..]), p, k + |first|);
      StandJoined(t, first, Prefixed(i, Walk(joints, ts[i])), rest, WalkFrom(joints, ts, i + 1), 1, p, k);
      FlatStep(joints, ts, i, p, k);
      WalkStep(joints, ts, i);
    }
  }

  lemma WalkStep(joints: seq<string>, ts: seq<Tree>, i: nat)
    requires i < |ts|
    ensures WalkFrom(joints, ts, i) == Prefixed(i, Walk(joints, ts[i])) + WalkFrom(joints, ts, i + 1)
  {
  }

  lemma FlatStep(joints: seq<string>, ts: seq<Tree>, i: nat, p: int, k: nat)
    requires i < |ts|
    ensures var first := Flat(Filter(joints, ts[i]), p, k);
            FlatAll(FilterAll(joints, ts[i..]), p, k)
            == first + FlatAll(FilterAll(joints, ts[i + 1..]), p, k + |first|)
  {
    assert ts[i..][0] == ts[i] && ts[i..][1..] == ts[i + 1..];
    var f, rest := Filter(joints, ts[i]), FilterAll(joints, ts[i + 1..]);
    if f.Null? {
      assert FilterAll(joints, ts[i..]) == rest;
      assert Flat(f, p, k) == [];
    } else {
      assert FilterAll(joints, ts[i..]) == [f] + rest;
      assert ([f] + rest)[1..] == rest;
    }
    hide Filter, FilterAll, Flat;
  }

  // ----- Which models ------------------------------------------------------

  /** A model is in the scene if the root is and the model is in the scene below the root's child. */
  lemma InSceneBelow(joints: seq<string>, t: Tree, path: Path)
    ensures InScene(joints, t, path)
       <==> t.Model? && (joints == [] || t.name in joints)
            && (path == [] || (path[0] < |t.children| && InScene(joints, t.children[path[0]], path[1..])))
  {
    assert ModelAt(t, path[..0]) == t;
    if path != [] && t.Model? && path[0] < |t.children| {
      forall k | 0 < k <= |path|
        ensures ModelAt(t, path[..k]) == ModelAt(t.children[path[0]], path[1..][..k - 1])
      {
        assert path[..k] == [path[0]] + path[1..][..k - 1];
        BelowAt(t, path[0], path[1..][..k - 1]);
      }
      hide ModelAt;
      if InScene(joints, t, path) {
        forall k | 0 <= k <= |path| - 1
          ensures var m := ModelAt(t.children[path[0]], path[1..][..k]); m.Model? && (joints == [] || m.name in joints)
        {
          assert ModelAt(t, path[..k + 1]).Model?;
        }
      }
      if InScene(joints, t.children[path[0]], path[1..]) && (joints == [] || t.name in joints) {
        forall k | 0 <= k <= |path|
          ensures var m := ModelAt(t, path[..k]); m.Model? && (joints == [] || m.name in joints)
        {
          if k > 0 {
            assert ModelAt(t.children[path[0]], path[1..][..k - 1]).Model?;
          }
        }
      }
    } else if path != [] && t.Model? {
      NoSlot(t, path);
      assert !ModelAt(t, path[..1]).Model?;
    }
  }

  lemma NoSlot(t: Tree, path: Path)
    requires path != [] && t.Model? && path[0] >= |t.children|
    ensures ModelAt(t, path[..1]) == Null
  {
    assert path[..1][0] == path[0];
  }

  lemma PrefixedHolds(i: nat, ps: seq<Path>, path: Path)
    ensures path in Prefixed(i, ps) <==> path != [] && path[0] == i && path[1..] in ps
  {
    if path in Prefixed(i, ps) {
      var k :| 0 <= k < |ps| && Prefixed(i, ps)[k] == path;
      assert path[1..] == ps[k];
    }
    if path != [] && path[0] == i && path[1..] in ps {
      var k :| 0 <= k < |ps| && ps[k] == path[1..];
      assert Prefixed(i, ps)[k] == [i] + path[1..] == path;
    }
  }

  lemma {:induction false} WalkHolds(joints: seq<string>, t: Tree, path: Path)
    ensures path in Walk(joints, t) <==> InScene(joints, t, path)
    decreases t, 0, 0
  {
    InSceneBelow(joints, t, path);
    hide InScene;
    if t.Model? && (joints == [] || t.name in joints) {
      WalkFromHolds(joints, t.children, 0, path);
      hide WalkFrom;
      assert path in Walk(joints, t) <==> path == [] || path in WalkFrom(joints, t.children, 0);
    }
  }

  lemma {:induction false} WalkFromHolds(joints: seq<string>, ts: seq<Tree>, i: nat, path: Path)
    requires i <= |ts|
    ensures path in WalkFrom(joints, ts, i)
       <==> path != [] && i <= path[0] < |ts| && InScene(joints, ts[path[0]], path[1..])
    decreases ts, 1, |ts| - i
  {
    hide InScene, Walk;
    if i < |ts| {
      WalkFromHolds(joints, ts, i + 1, path);
      PrefixedHolds(i, Walk(joints, ts[i]), path);
      if path != [] {
        WalkHolds(joints, ts[i], path[1..]);
      }
      WalkStep(joints, ts, i);
      hide WalkFrom, Prefixed;
    }
  }

  // ----- In which order ----------------------------------------------------

  ghost predicate Ordered(ps: seq<Path>) {
    forall a, b :: 0 <= a < b < |ps| ==> Before(ps[a], ps[b])
  }

  lemma PrefixedOrdered(i: nat, ps: seq<Path>)
    requires Ordered(ps)
    ensures Ordered(Prefixed(i, ps))
  {
    forall a, b | 0 <= a < b < |ps| ensures Before([i] + ps[a], [i] + ps[b]) {
      assert ([i] + ps[a])[1..] == ps[a] && ([i] + ps[b])[1..] == ps[b];
    }
  }

  lemma OrderedJoined(ps: seq<Path>, qs: seq<Path>)
    requires Ordered(ps) && Ordered(qs) && forall p, q :: p in ps && q in qs ==> Before(p, q)
    ensures Ordered(ps + qs)
  {
    hide Before;
  }

  lemma {:induction false} WalkOrdered(joints: seq<string>, t: Tree)
    ensures Ordered(Walk(joints, t))
    decreases t, 0, 0
  {
    if t.Model? && (joints == [] || t.name in joints) {
      var below := WalkFrom(joints, t.children, 0);
      WalkFromOrdered(joints, t.children, 0);
      forall q | q in below ensures Before([], q) {
        WalkFromHolds(joints, t.children, 0, q);
      }
      hide Walk, WalkFrom;
      OrderedJoined([[]], below);
      assert Walk(joints, t) == [[]] + below by { WalkRoot(joints, t); }
    }
  }

  lemma WalkRoot(joints: seq<string>, t: Tree)
    requires t.Model? && (joints == [] || t.name in joints)
    ensures Walk(joints, t) == [[]] + WalkFrom(joints, t.children, 0)
  {
  }

  lemma {:induction false} WalkFromOrdered(joints: seq<string>, ts: seq<Tree>, i: nat)
    requires i <= |ts|
    ensures Ordered(WalkFrom(joints, ts, i))
    decreases ts, 1, |ts| - i
  {
    if i < |ts| {
      WalkOrdered(joints, ts[i]);
      WalkFromOrdered(joints, ts, i + 1);
      var first, rest := Prefixed(i, Walk(joints, ts[i])), WalkFrom(joints, ts, i + 1);
      PrefixedOrdered(i, Walk(joints, ts[i]));
      forall p, q | p in first && q in rest ensures Before(p, q) {
        PrefixedHolds(i, Walk(joints, ts[i]), p);
        WalkFromHolds(joints, ts, i + 1, q);
      }
      WalkStep(joints, ts, i);
      hide Walk, WalkFrom, Prefixed, Before, Ordered;
      OrderedJoined(first, rest);
    }
  }

  // ----- The traversal -----------------------------------------------------

  lemma WalkDepicts(joints: seq<string>, t: Tree)
    ensures Depicts(joints, t, Flat(Filter(joints, t), -1, 0), Walk(joints, t))
  {
    var es, ps := Flat(Filter(joints, t), -1, 0), Walk(joints, t);
    WalkStands(joints, t, -1, 0);
    WalkOrdered(joints, t);
    forall path: Path ensures InScene(joints, t, path) <==> path in ps {
      WalkHolds(joints, t, path);
    }
    hide Flat, Filter, Walk, InScene, Before, NameAt;
    forall a | 0 <= a < |ps|
      ensures es[a].name == NameAt(t, ps[a])
      ensures if ps[a] == [] then es[a].parent == -1
              else 0 <= es[a].parent < a && ps[es[a].parent] == ps[a][..|ps[a]| - 1]
    {
      assert StandsAt(t, es, ps, 0, -1, 0, a);
    }
  }

  /** TraverseSubject on the root of a scene: the list holds exactly the models that are there with all their ancestors
      and on the joint list with all of them, each once and below its own parent, siblings by their slots. */
  method TraverseScene(subject: PerformerSubject, root: Tree) returns (ghost ps: seq<Path>)
    requires root.Model?
    modifies subject`mTransforms
    ensures Depicts(subject.mJoints, root, subject.mTransforms, ps)
  {
    subject.Traverse(root, -1);
    ps := Walk(subject.mJoints, root);
    WalkDepicts(subject.mJoints, root);
  }
}
