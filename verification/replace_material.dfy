/**
 * `replaceMaterial(root, lookFor, replaceWith)`: walk the whole subtree
 * (`traverse`, invisible objects included), swap every material slot identical
 * to `lookFor` for `replaceWith`, and return how many slots were swapped.
 */
module ReplaceMaterial {
  import opened Scene

  /** What the call leaves behind: the rewritten subtree and the returned count. */
  datatype Replaced = Replaced(root: Object3D, count: nat)

  /** The material a slot entry holds after the swap. */
  function Swapped(m: Material, lookFor: Material, replaceWith: Material): Material {
    if m == lookFor then replaceWith else m
  }

  /** `materialOrArray.map(...)` with `count ++` on every hit. */
  function ReplaceInArray(ms: seq<Material>, lookFor: Material, replaceWith: Material): (r: (seq<Material>, nat))
    ensures |r.0| == |ms|
    ensures forall i :: 0 <= i < |ms| ==> r.0[i] == Swapped(ms[i], lookFor, replaceWith)
    ensures r.1 == multiset(ms)[lookFor]
  {
    if ms == [] then ([], 0)
    else
      var (rest, c) := ReplaceInArray(ms[1..], lookFor, replaceWith);
      SwapCons(ms, rest, c, lookFor, replaceWith);
      ([Swapped(ms[0], lookFor, replaceWith)] + rest, c + if ms[0] == lookFor then 1 else 0)
  }

  /** The array step: the first entry swapped in front of the swapped rest. */
  lemma SwapCons(ms: seq<Material>, rest: seq<Material>, c: nat, lookFor: Material, replaceWith: Material)
    requires ms != [] && |rest| == |ms| - 1
    requires forall i :: 0 <= i < |rest| ==> rest[i] == Swapped(ms[i + 1], lookFor, replaceWith)
    requires c == multiset(ms[1..])[lookFor]
    ensures var r := [Swapped(ms[0], lookFor, replaceWith)] + rest;
            |r| == |ms| && forall i :: 0 <= i < |ms| ==> r[i] == Swapped(ms[i], lookFor, replaceWith)
    ensures c + (if ms[0] == lookFor then 1 else 0) == multiset(ms)[lookFor]
  {
    assert ms == [ms[0]] + ms[1..];
    assert multiset(ms) == multiset{ms[0]} + multiset(ms[1..]);
  }

  /** One mesh's `material` property: an array is mapped, a single material compared. */
  function ReplaceInSlot(s: Slot, lookFor: Material, replaceWith: Material): (Slot, nat) {
    match s
    case Multi(ms) =>
      var (ms', c) := ReplaceInArray(ms, lookFor, replaceWith);
      (Multi(ms'), c)
    case Single(m) =>
      if m == lookFor then (Single(replaceWith), 1) else (s, 0)
  }

  /** Only meshes are looked at; other objects count nothing. */
  function ReplaceInKind(k: Kind, lookFor: Material, replaceWith: Material): (Kind, nat) {
    match k
    case Group => (Group, 0)
    case Mesh(slot) =>
      var (s, c) := ReplaceInSlot(slot, lookFor, replaceWith);
      (Mesh(s), c)
  }

  function ReplaceIn(t: Object3D, lookFor: Material, replaceWith: Material): Replaced
    decreases t
  {
    var (k, c) := ReplaceInKind(t.kind, lookFor, replaceWith);
    var (cs, cc) := ReplaceInChildren(t.children, lookFor, replaceWith);
    Replaced(Object3D(t.handle, t.visible, k, cs), c + cc)
  }

  function ReplaceInChildren(ts: seq<Object3D>, lookFor: Material, replaceWith: Material): (seq<Object3D>, nat)
    decreases ts
  {
    if ts == [] then ([], 0)
    else
      var first := ReplaceIn(ts[0], lookFor, replaceWith);
      var (rest, c) := ReplaceInChildren(ts[1..], lookFor, replaceWith);
      ([first.root] + rest, first.count + c)
  }

  // ------------------------------------------------- independent description

  /** Every material slot of the meshes among `ns`, single or array element, in order. */
  function SlotMaterials(ns: seq<Object3D>): seq<Material> {
    if ns == [] then [] else KindMaterials(ns[0].kind) + SlotMaterials(ns[1..])
  }

  function KindMaterials(k: Kind): seq<Material> {
    if k.Mesh? then k.slot.Materials() else []
  }

  /** How many slots of the subtree are identical to `m`. */
  function Occurrences(t: Object3D, m: Material): nat {
    multiset(SlotMaterials(Nodes(t)))[m]
  }

  /** The slot sequence with every `lookFor` entry swapped. */
  function SwapAll(s: seq<Material>, lookFor: Material, replaceWith: Material): (r: seq<Material>)
    ensures |r| == |s|
  {
    seq(|s|, i requires 0 <= i < |s| => Swapped(s[i], lookFor, replaceWith))
  }

  /** The subtree with every material forgotten: identities, visibility, kinds, array lengths. */
  function Erase(t: Object3D): Object3D
    decreases t
  {
    Object3D(t.handle, t.visible, EraseKind(t.kind),
             seq(|t.children|, i requires 0 <= i < |t.children| => Erase(t.children[i])))
  }

  function EraseKind(k: Kind): Kind {
    if k.Mesh? then Mesh(EraseSlot(k.slot)) else Group
  }

  function EraseSlot(s: Slot): Slot {
    match s
    case Single(_) => Single(PickHidden)
    case Multi(ms) => Multi(seq(|ms|, i requires 0 <= i < |ms| => PickHidden))
  }

  // ------------------------------------------------------------------- lemmas

  lemma {:induction false} SlotMaterialsAppend(a: seq<Object3D>, b: seq<Object3D>)
    ensures SlotMaterials(a + b) == SlotMaterials(a) + SlotMaterials(b)
  {
    if a == [] {
      assert a + b == b;
    } else {
      assert (a + b)[0] == a[0];
      assert (a + b)[1..] == a[1..] + b;
      SlotMaterialsAppend(a[1..], b);
    }
  }

  /** The slots of a subtree: the root's own, then its children's in order. */
  lemma SlotMaterialsOfNode(t: Object3D)
    ensures SlotMaterials(Nodes(t)) == KindMaterials(t.kind) + SlotMaterials(NodesOf(t.children))
  {
    SlotMaterialsAppend([t], NodesOf(t.children));
  }

  lemma SlotMaterialsOfChildren(ts: seq<Object3D>)
    requires ts != []
    ensures SlotMaterials(NodesOf(ts)) == SlotMaterials(Nodes(ts[0])) + SlotMaterials(NodesOf(ts[1..]))
  {
    SlotMaterialsAppend(Nodes(ts[0]), NodesOf(ts[1..]));
  }

  lemma SwapAllAppend(a: seq<Material>, b: seq<Material>, lookFor: Material, replaceWith: Material)
    ensures SwapAll(a + b, lookFor, replaceWith) == SwapAll(a, lookFor, replaceWith) + SwapAll(b, lookFor, replaceWith)
  {
  }

  /** One object's own slots: swapped entry by entry, counted, shape kept. */
  lemma KindFacts(k: Kind, lookFor: Material, replaceWith: Material)
    ensures KindMaterials(ReplaceInKind(k, lookFor, replaceWith).0) == SwapAll(KindMaterials(k), lookFor, replaceWith)
    ensures ReplaceInKind(k, lookFor, replaceWith).1 == multiset(KindMaterials(k))[lookFor]
    ensures EraseKind(ReplaceInKind(k, lookFor, replaceWith).0) == EraseKind(k)
  {
    if k.Mesh? && k.slot.Multi? {
      var ms := k.slot.materials;
      var (ms', c) := ReplaceInArray(ms, lookFor, replaceWith);
      assert ms' == SwapAll(ms, lookFor, replaceWith);
      assert EraseSlot(Multi(ms')) == EraseSlot(Multi(ms));
    }
  }

  /**
   * The count and slot effect on one subtree: the count is the number of
   * identical slots, and the slots read in traversal order are the old ones
   * with `lookFor` swapped.
   */
  lemma {:induction false} ReplaceInSlots(t: Object3D, lookFor: Material, replaceWith: Material)
    ensures ReplaceIn(t, lookFor, replaceWith).count == Occurrences(t, lookFor)
    ensures SlotMaterials(Nodes(ReplaceIn(t, lookFor, replaceWith).root))
            == SwapAll(SlotMaterials(Nodes(t)), lookFor, replaceWith)
    decreases t
  {
    var r := ReplaceIn(t, lookFor, replaceWith);
    var (k, c) := ReplaceInKind(t.kind, lookFor, replaceWith);
    var (cs, cc) := ReplaceInChildren(t.children, lookFor, replaceWith);
    assert r.root == Object3D(t.handle, t.visible, k, cs);
    assert r.count == c + cc;
    KindFacts(t.kind, lookFor, replaceWith);
    ReplaceInChildrenSlots(t.children, lookFor, replaceWith);
    SlotMaterialsOfNode(t);
    SlotMaterialsOfNode(r.root);
    SwapAllAppend(KindMaterials(t.kind), SlotMaterials(NodesOf(t.children)), lookFor, replaceWith);
  }

  lemma {:induction false} ReplaceInChildrenSlots(ts: seq<Object3D>, lookFor: Material, replaceWith: Material)
    ensures ReplaceInChildren(ts, lookFor, replaceWith).1 == multiset(SlotMaterials(NodesOf(ts)))[lookFor]
    ensures SlotMaterials(NodesOf(ReplaceInChildren(ts, lookFor, replaceWith).0))
            == SwapAll(SlotMaterials(NodesOf(ts)), lookFor, replaceWith)
    decreases ts
  {
    if ts != [] {
      var first := ReplaceIn(ts[0], lookFor, replaceWith);
      var (rest, c) := ReplaceInChildren(ts[1..], lookFor, replaceWith);
      var rs := [first.root] + rest;
      assert ReplaceInChildren(ts, lookFor, replaceWith) == (rs, first.count + c);
      assert rs[0] == first.root && rs[1..] == rest;
      ReplaceInSlots(ts[0], lookFor, replaceWith);
      ReplaceInChildrenSlots(ts[1..], lookFor, replaceWith);
      SlotMaterialsOfChildren(ts);
      SlotMaterialsOfChildren(rs);
      SwapAllAppend(SlotMaterials(Nodes(ts[0])), SlotMaterials(NodesOf(ts[1..])), lookFor, replaceWith);
    }
  }

  /** Nothing but materials changes: identities, visibility, kinds, array lengths, structure. */
  lemma {:induction false} ReplaceInShape(t: Object3D, lookFor: Material, replaceWith: Material)
    ensures Erase(ReplaceIn(t, lookFor, replaceWith).root) == Erase(t)
    decreases t
  {
    var r := ReplaceIn(t, lookFor, replaceWith);
    var (k, c) := ReplaceInKind(t.kind, lookFor, replaceWith);
    var (cs, cc) := ReplaceInChildren(t.children, lookFor, replaceWith);
    assert r.root == Object3D(t.handle, t.visible, k, cs);
    KindFacts(t.kind, lookFor, replaceWith);
    ReplaceInChildrenShape(t.children, lookFor, replaceWith);
    assert Erase(r.root).children == Erase(t).children by {
      forall i | 0 <= i < |t.children|
        ensures Erase(r.root).children[i] == Erase(t).children[i]
      {
        assert Erase(cs[i]) == Erase(t.children[i]);
      }
    }
  }

  lemma {:induction false} ReplaceInChildrenShape(ts: seq<Object3D>, lookFor: Material, replaceWith: Material)
    ensures |ReplaceInChildren(ts, lookFor, replaceWith).0| == |ts|
    ensures forall i :: 0 <= i < |ts| ==> Erase(ReplaceInChildren(ts, lookFor, replaceWith).0[i]) == Erase(ts[i])
    decreases ts
  {
    if ts != [] {
      var first := ReplaceIn(ts[0], lookFor, replaceWith);
      var (rest, c) := ReplaceInChildren(ts[1..], lookFor, replaceWith);
      var rs := [first.root] + rest;
      assert ReplaceInChildren(ts, lookFor, replaceWith) == (rs, first.count + c);
      ReplaceInShape(ts[0], lookFor, replaceWith);
      ReplaceInChildrenShape(ts[1..], lookFor, replaceWith);
      forall i | 0 <= i < |ts|
        ensures Erase(rs[i]) == Erase(ts[i])
      {
        if i > 0 {
          assert rs[i] == rest[i - 1] && ts[i] == ts[1..][i - 1];
        }
      }
    }
  }

  /**
   * `replaceMaterial`: the count equals the number of identical slots in the
   * subtree; afterwards the slots, read in traversal order, are the old ones with
   * exactly the identical entries swapped (so array lengths and positions are
   * kept); identities, visibility, non-mesh objects and structure are untouched.
   */
  function Replace(root: Object3D, lookFor: Material, replaceWith: Material): (r: Replaced)
    ensures r.count == Occurrences(root, lookFor)
    ensures |SlotMaterials(Nodes(r.root))| == |SlotMaterials(Nodes(root))|
    ensures forall i :: 0 <= i < |SlotMaterials(Nodes(root))| ==>
              SlotMaterials(Nodes(r.root))[i]
              == (if SlotMaterials(Nodes(root))[i] == lookFor then replaceWith else SlotMaterials(Nodes(root))[i])
    ensures Erase(r.root) == Erase(root)
  {
    ReplaceInSlots(root, lookFor, replaceWith);
    ReplaceInShape(root, lookFor, replaceWith);
    ReplaceIn(root, lookFor, replaceWith)
  }

  /** A mesh holding no `lookFor` slot keeps its materials and counts nothing. */
  lemma ReplaceInKindAbsent(k: Kind, lookFor: Material, replaceWith: Material)
    requires multiset(KindMaterials(k))[lookFor] == 0
    ensures ReplaceInKind(k, lookFor, replaceWith) == (k, 0)
  {
    if k.Mesh? && k.slot.Multi? {
      assert ReplaceInArray(k.slot.materials, lookFor, replaceWith).0 == k.slot.materials;
    }
  }

  /** Subtrees holding no `lookFor` slot come back unchanged with count 0. */
  lemma {:induction false} ReplaceAbsent(t: Object3D, lookFor: Material, replaceWith: Material)
    requires Occurrences(t, lookFor) == 0
    ensures ReplaceIn(t, lookFor, replaceWith) == Replaced(t, 0)
    decreases t
  {
    SlotMaterialsOfNode(t);
    ReplaceInKindAbsent(t.kind, lookFor, replaceWith);
    ReplaceAbsentChildren(t.children, lookFor, replaceWith);
  }

  lemma {:induction false} ReplaceAbsentChildren(ts: seq<Object3D>, lookFor: Material, replaceWith: Material)
    requires multiset(SlotMaterials(NodesOf(ts)))[lookFor] == 0
    ensures ReplaceInChildren(ts, lookFor, replaceWith) == (ts, 0)
    decreases ts
  {
    if ts != [] {
      SlotMaterialsAppend(Nodes(ts[0]), NodesOf(ts[1..]));
      ReplaceAbsent(ts[0], lookFor, replaceWith);
      ReplaceAbsentChildren(ts[1..], lookFor, replaceWith);
      assert [ts[0]] + ts[1..] == ts;
    }
  }

  /**
   * With `replaceWith` distinct from `lookFor`, no slot holds `lookFor` afterwards,
   * so an immediate second call swaps nothing and returns 0.
   */
  lemma SecondReplaceIsNoop(root: Object3D, lookFor: Material, replaceWith: Material)
    requires replaceWith != lookFor
    ensures Occurrences(Replace(root, lookFor, replaceWith).root, lookFor) == 0
    ensures Replace(Replace(root, lookFor, replaceWith).root, lookFor, replaceWith)
            == Replaced(Replace(root, lookFor, replaceWith).root, 0)
  {
    var r := Replace(root, lookFor, replaceWith).root;
    var s := SlotMaterials(Nodes(r));
    assert lookFor !in s by {
      forall i | 0 <= i < |s|
        ensures s[i] != lookFor
      {
      }
    }
    ReplaceAbsent(r, lookFor, replaceWith);
  }
}
