/**
 * The part of a three.js scene graph the tool touches: a tree of objects, some
 * of which are meshes carrying one material or an array of materials.
 *
 * JavaScript objects are references; here every object carries a `handle` that
 * stands for its identity, and an assignment `mesh.material = x` through a
 * reference is modelled as `SetSlots(scene, map[mesh.handle := x])`, which
 * rewrites the object with that handle wherever it sits in the tree. A three.js
 * object has at most one parent, which `UniqueHandles` states.
 */
module Scene {
  import opened Wrappers

  type NodeId = nat
  type MaterialId = nat
  type TextureId = nat

  /** Alpha-masking flavour of an authored material: MToon materials use `cutoff`. */
  datatype Shading = Plain | MToon(cutoff: real)

  /**
   * A material as the picker and the selection code see it.
   * `Authored` materials come with the scene (any class, identified by `id`);
   * `PickHidden` and `PickFlat` are the `MeshBasicMaterial`s the picker creates:
   * `{ visible: false }`, and `{ map, alphaTest, color: id }`.
   */
  datatype Material =
    | Authored(id: MaterialId, name: string, visible: bool, alphaTest: real,
               shading: Shading, texture: Option<TextureId>)
    | PickHidden
    | PickFlat(texture: Option<TextureId>, alphaTest: real, color: nat)
  {
    /** `material.name`; a `MeshBasicMaterial` built without a name has "". */
    function Name(): string {
      if Authored? then name else ""
    }

    /** `material.visible` */
    predicate IsVisible() {
      match this
      case Authored(_, _, v, _, _, _) => v
      case PickHidden => false
      case PickFlat(_, _, _) => true
    }

    /** `material.alphaTest`, 0 by default. */
    function AlphaTestValue(): real {
      if PickHidden? then 0.0 else alphaTest
    }

    /** `material.map`, absent by default. */
    function Map(): Option<TextureId> {
      if PickHidden? then None else texture
    }

    /** `material.isMToonMaterial` */
    predicate IsMToon() {
      Authored? && shading.MToon?
    }
  }

  /** `mesh.material`: a single material or an array of them. */
  datatype Slot = Single(material: Material) | Multi(materials: seq<Material>) {

    /** The material values of the slot, in array order. */
    function Materials(): seq<Material> {
      if Single? then [material] else materials
    }
  }

  datatype Kind = Group | Mesh(slot: Slot)

  /** An `Object3D`: identity, `visible` flag, mesh-or-not, and children in order. */
  datatype Object3D = Object3D(handle: NodeId, visible: bool, kind: Kind, children: seq<Object3D>)

  // ---------------------------------------------------------------- traversals

  /** The visiting order of `object.traverse`: pre-order over the whole tree. */
  function Nodes(t: Object3D): seq<Object3D>
    decreases t
  {
    [t] + NodesOf(t.children)
  }

  function NodesOf(ts: seq<Object3D>): seq<Object3D>
    decreases ts
  {
    if ts == [] then [] else Nodes(ts[0]) + NodesOf(ts[1..])
  }

  /** The visiting order of `object.traverseVisible`: an invisible object hides its subtree. */
  function VisibleNodes(t: Object3D): seq<Object3D>
    decreases t
  {
    if !t.visible then [] else [t] + VisibleNodesOf(t.children)
  }

  function VisibleNodesOf(ts: seq<Object3D>): seq<Object3D>
    decreases ts
  {
    if ts == [] then [] else VisibleNodes(ts[0]) + VisibleNodesOf(ts[1..])
  }

  /** The objects among `ns` for which `isMesh` holds, in order. */
  function MeshesIn(ns: seq<Object3D>): (ms: seq<Object3D>)
    ensures forall i :: 0 <= i < |ms| ==> ms[i].kind.Mesh?
  {
    if ns == [] then []
    else (if ns[0].kind.Mesh? then [ns[0]] else []) + MeshesIn(ns[1..])
  }

  /** The meshes `traverseVisible` reaches, in visiting order. */
  function VisibleMeshes(t: Object3D): seq<Object3D> {
    MeshesIn(VisibleNodes(t))
  }

  /** No two positions of the traversal hold the same object identity. */
  predicate UniqueHandles(t: Object3D) {
    var ns := Nodes(t);
    forall i, j :: 0 <= i < |ns| && 0 <= j < |ns| && ns[i].handle == ns[j].handle ==> i == j
  }

  /** True iff the object `h` is a mesh somewhere in `t`. */
  predicate IsMeshIn(t: Object3D, h: NodeId) {
    exists n :: n in Nodes(t) && n.kind.Mesh? && n.handle == h
  }

  // ------------------------------------------------------ material assignment

  /**
   * Assign `slots[n.handle]` as the material of every mesh `n` whose handle is a key;
   * every other object, and every non-mesh object, keeps what it had.
   */
  function SetSlots(t: Object3D, slots: map<NodeId, Slot>): (r: Object3D)
    ensures r.handle == t.handle && r.visible == t.visible && r.kind.Mesh? == t.kind.Mesh?
    ensures |r.children| == |t.children|
    ensures r.kind.Mesh? ==> r.kind.slot == (if t.handle in slots then slots[t.handle] else t.kind.slot)
    ensures r.kind.Group? ==> r == t.(children := r.children)
  {
    Object3D(t.handle, t.visible,
             if t.kind.Mesh? && t.handle in slots then Mesh(slots[t.handle]) else t.kind,
             seq(|t.children|, i requires 0 <= i < |t.children| => SetSlots(t.children[i], slots)))
  }

  /** `SetSlots` applied to each object of a list. */
  function SetSlotsEach(ns: seq<Object3D>, slots: map<NodeId, Slot>): (r: seq<Object3D>)
    ensures |r| == |ns|
  {
    seq(|ns|, i requires 0 <= i < |ns| => SetSlots(ns[i], slots))
  }

  /** Every mesh of `t` whose handle is a key of `slots` already holds that slot. */
  predicate Agrees(t: Object3D, slots: map<NodeId, Slot>) {
    forall n :: n in Nodes(t) && n.kind.Mesh? && n.handle in slots ==> slots[n.handle] == n.kind.slot
  }

  /** The first slot recorded for mesh `h` in traversal order, if `h` is a mesh of `t`. */
  function SlotOf(t: Object3D, h: NodeId): (r: Option<Slot>)
    ensures r.Some? <==> IsMeshIn(t, h)
  {
    FirstSlot(Nodes(t), h)
  }

  function FirstSlot(ns: seq<Object3D>, h: NodeId): (r: Option<Slot>)
    ensures r.Some? <==> exists n :: n in ns && n.kind.Mesh? && n.handle == h
    ensures r.Some? ==> exists n :: n in ns && n.kind.Mesh? && n.handle == h && n.kind.slot == r.value
  {
    if ns == [] then None
    else if ns[0].kind.Mesh? && ns[0].handle == h then Some(ns[0].kind.slot)
    else FirstSlot(ns[1..], h)
  }

  // ------------------------------------------------------------------- lemmas

  /** A later assignment over a superset of keys overrides an earlier one. */
  lemma {:induction false} SetSlotsCompose(t: Object3D, f: map<NodeId, Slot>, g: map<NodeId, Slot>)
    requires f.Keys <= g.Keys
    ensures SetSlots(SetSlots(t, f), g) == SetSlots(t, g)
    decreases t
  {
    var a := SetSlots(SetSlots(t, f), g);
    var b := SetSlots(t, g);
    forall i | 0 <= i < |t.children|
      ensures a.children[i] == b.children[i]
    {
      SetSlotsCompose(t.children[i], f, g);
    }
    assert a.children == b.children;
  }

  /** Assigning every mesh the slot it already has changes nothing. */
  lemma {:induction false} SetSlotsIdentity(t: Object3D, g: map<NodeId, Slot>)
    requires Agrees(t, g)
    ensures SetSlots(t, g) == t
    decreases t
  {
    var a := SetSlots(t, g);
    forall i | 0 <= i < |t.children|
      ensures a.children[i] == t.children[i]
    {
      ChildNodesIncluded(t, i);
      SetSlotsIdentity(t.children[i], g);
    }
    assert a.children == t.children;
  }

  /** The traversal of a child is part of the traversal of its parent. */
  lemma ChildNodesIncluded(t: Object3D, i: nat)
    requires i < |t.children|
    ensures forall n :: n in Nodes(t.children[i]) ==> n in Nodes(t)
  {
    NodesOfIncludes(t.children, i);
  }

  lemma {:induction false} NodesOfIncludes(ts: seq<Object3D>, i: nat)
    requires i < |ts|
    ensures forall n :: n in Nodes(ts[i]) ==> n in NodesOf(ts)
    decreases ts
  {
    if i > 0 {
      NodesOfIncludes(ts[1..], i - 1);
    }
  }

  /** `traverseVisible` visits a sub-multiset of what `traverse` visits. */
  lemma {:induction false} VisibleSubmultiset(t: Object3D)
    ensures multiset(VisibleNodes(t)) <= multiset(Nodes(t))
    decreases t
  {
    if t.visible {
      VisibleSubmultisetOf(t.children);
    }
  }

  lemma {:induction false} VisibleSubmultisetOf(ts: seq<Object3D>)
    ensures multiset(VisibleNodesOf(ts)) <= multiset(NodesOf(ts))
    decreases ts
  {
    if ts != [] {
      VisibleSubmultiset(ts[0]);
      VisibleSubmultisetOf(ts[1..]);
    }
  }

  lemma {:induction false} MeshesInSubmultiset(ns: seq<Object3D>)
    ensures multiset(MeshesIn(ns)) <= multiset(ns)
  {
    if ns != [] {
      MeshesInSubmultiset(ns[1..]);
      assert ns == [ns[0]] + ns[1..];
    }
  }

  /** Every mesh `traverseVisible` reaches is an object of the tree. */
  lemma VisibleMeshesAreNodes(t: Object3D)
    ensures multiset(VisibleMeshes(t)) <= multiset(Nodes(t))
    ensures forall n :: n in VisibleMeshes(t) ==> n in Nodes(t)
  {
    VisibleSubmultiset(t);
    MeshesInSubmultiset(VisibleNodes(t));
    forall n | n in VisibleMeshes(t)
      ensures n in Nodes(t)
    {
      assert multiset(VisibleMeshes(t))[n] > 0;
    }
  }

  /** Two positions holding one value make its multiplicity at least two. */
  lemma TwoPositions<T>(s: seq<T>, i: nat, j: nat)
    requires i < j < |s| && s[i] == s[j]
    ensures multiset(s)[s[i]] >= 2
  {
    assert s == s[..j] + s[j..];
    assert s[i] in s[..j];
    assert s[j] in s[j..];
  }

  /** A value of multiplicity two or more sits at two distinct positions. */
  lemma {:induction false} PositionsOfRepeat<T>(s: seq<T>, x: T) returns (i: nat, j: nat)
    requires multiset(s)[x] >= 2
    ensures i < j < |s| && s[i] == x && s[j] == x
  {
    assert s == [s[0]] + s[1..];
    if s[0] == x {
      assert multiset(s[1..])[x] >= 1;
      assert x in s[1..];
      var k :| 0 <= k < |s[1..]| && s[1..][k] == x;
      i, j := 0, k + 1;
    } else {
      var i', j' := PositionsOfRepeat(s[1..], x);
      i, j := i' + 1, j' + 1;
    }
  }

  /** Under `UniqueHandles`, a handle names one object of the tree. */
  lemma SameHandleSameNode(t: Object3D, a: Object3D, b: Object3D)
    requires UniqueHandles(t)
    requires a in Nodes(t) && b in Nodes(t) && a.handle == b.handle
    ensures a == b
  {
    var ns := Nodes(t);
    var i :| 0 <= i < |ns| && ns[i] == a;
    var j :| 0 <= j < |ns| && ns[j] == b;
  }

  /** Under `UniqueHandles`, `traverseVisible` reaches each mesh at most once. */
  lemma VisibleMeshHandlesDistinct(t: Object3D)
    requires UniqueHandles(t)
    ensures forall i, j :: 0 <= i < j < |VisibleMeshes(t)| ==>
              VisibleMeshes(t)[i].handle != VisibleMeshes(t)[j].handle
  {
    var vm := VisibleMeshes(t);
    VisibleMeshesAreNodes(t);
    forall i, j | 0 <= i < j < |vm|
      ensures vm[i].handle != vm[j].handle
    {
      if vm[i].handle == vm[j].handle {
        SameHandleSameNode(t, vm[i], vm[j]);
        TwoPositions(vm, i, j);
        var p, q := PositionsOfRepeat(Nodes(t), vm[i]);
        assert false;
      }
    }
  }

  /** Assigning materials leaves the `traverseVisible` order alone: object for object. */
  lemma {:induction false} VisibleNodesSetSlots(t: Object3D, f: map<NodeId, Slot>)
    ensures VisibleNodes(SetSlots(t, f)) == SetSlotsEach(VisibleNodes(t), f)
    decreases t
  {
    var r := SetSlots(t, f);
    if t.visible {
      assert r.children == SetSlotsEach(t.children, f);
      VisibleNodesOfSetSlots(t.children, f);
      assert VisibleNodes(r) == [r] + SetSlotsEach(VisibleNodesOf(t.children), f);
    }
  }

  lemma {:induction false} VisibleNodesOfSetSlots(ts: seq<Object3D>, f: map<NodeId, Slot>)
    ensures VisibleNodesOf(SetSlotsEach(ts, f)) == SetSlotsEach(VisibleNodesOf(ts), f)
    decreases ts
  {
    if ts != [] {
      var rs := SetSlotsEach(ts, f);
      assert rs[0] == SetSlots(ts[0], f);
      assert rs[1..] == SetSlotsEach(ts[1..], f);
      VisibleNodesSetSlots(ts[0], f);
      VisibleNodesOfSetSlots(ts[1..], f);
      SetSlotsEachAppend(VisibleNodes(ts[0]), VisibleNodesOf(ts[1..]), f);
    }
  }

  lemma SetSlotsEachAppend(a: seq<Object3D>, b: seq<Object3D>, f: map<NodeId, Slot>)
    ensures SetSlotsEach(a + b, f) == SetSlotsEach(a, f) + SetSlotsEach(b, f)
  {
  }

  /** Assigning materials keeps every mesh a mesh and every other object not one. */
  lemma {:induction false} MeshesInSetSlots(ns: seq<Object3D>, f: map<NodeId, Slot>)
    ensures MeshesIn(SetSlotsEach(ns, f)) == SetSlotsEach(MeshesIn(ns), f)
  {
    if ns != [] {
      var rs := SetSlotsEach(ns, f);
      assert rs[1..] == SetSlotsEach(ns[1..], f);
      MeshesInSetSlots(ns[1..], f);
      var head := if ns[0].kind.Mesh? then [ns[0]] else [];
      SetSlotsEachAppend(head, MeshesIn(ns[1..]), f);
    }
  }

  /** The meshes `traverseVisible` reaches after an assignment are the same objects, reassigned. */
  lemma VisibleMeshesSetSlots(t: Object3D, f: map<NodeId, Slot>)
    ensures VisibleMeshes(SetSlots(t, f)) == SetSlotsEach(VisibleMeshes(t), f)
  {
    VisibleNodesSetSlots(t, f);
    MeshesInSetSlots(VisibleNodes(t), f);
  }

  /** Assigning materials leaves the `traverse` order alone: object for object. */
  lemma {:induction false} NodesSetSlots(t: Object3D, f: map<NodeId, Slot>)
    ensures Nodes(SetSlots(t, f)) == SetSlotsEach(Nodes(t), f)
    decreases t
  {
    var r := SetSlots(t, f);
    assert r.children == SetSlotsEach(t.children, f);
    NodesOfSetSlots(t.children, f);
    SetSlotsEachAppend([t], NodesOf(t.children), f);
  }

  lemma {:induction false} NodesOfSetSlots(ts: seq<Object3D>, f: map<NodeId, Slot>)
    ensures NodesOf(SetSlotsEach(ts, f)) == SetSlotsEach(NodesOf(ts), f)
    decreases ts
  {
    if ts != [] {
      var rs := SetSlotsEach(ts, f);
      assert rs[0] == SetSlots(ts[0], f);
      assert rs[1..] == SetSlotsEach(ts[1..], f);
      NodesSetSlots(ts[0], f);
      NodesOfSetSlots(ts[1..], f);
      SetSlotsEachAppend(Nodes(ts[0]), NodesOf(ts[1..]), f);
    }
  }

  /** An assignment keeps every object's handle and mesh-ness in place. */
  lemma SetSlotsNodeAt(t: Object3D, f: map<NodeId, Slot>)
    ensures |Nodes(SetSlots(t, f))| == |Nodes(t)|
    ensures forall i :: 0 <= i < |Nodes(t)| ==>
              Nodes(SetSlots(t, f))[i].handle == Nodes(t)[i].handle &&
              Nodes(SetSlots(t, f))[i].kind.Mesh? == Nodes(t)[i].kind.Mesh?
  {
    NodesSetSlots(t, f);
  }

  /** An assignment keeps the set of meshes. */
  lemma SetSlotsKeepsMeshes(t: Object3D, f: map<NodeId, Slot>, h: NodeId)
    ensures IsMeshIn(SetSlots(t, f), h) <==> IsMeshIn(t, h)
  {
    SetSlotsNodeAt(t, f);
    var ns := Nodes(t);
    var rs := Nodes(SetSlots(t, f));
    if IsMeshIn(t, h) {
      var n :| n in ns && n.kind.Mesh? && n.handle == h;
      var i :| 0 <= i < |ns| && ns[i] == n;
      assert rs[i] in rs;
    }
    if IsMeshIn(SetSlots(t, f), h) {
      var n :| n in rs && n.kind.Mesh? && n.handle == h;
      var i :| 0 <= i < |rs| && rs[i] == n;
      assert ns[i] in ns;
    }
  }

  lemma SetSlotsKeepsAllMeshes(t: Object3D, f: map<NodeId, Slot>)
    ensures forall h :: IsMeshIn(SetSlots(t, f), h) <==> IsMeshIn(t, h)
  {
    forall h
      ensures IsMeshIn(SetSlots(t, f), h) <==> IsMeshIn(t, h)
    {
      SetSlotsKeepsMeshes(t, f, h);
    }
  }

  /** An assignment keeps handles unique. */
  lemma SetSlotsKeepsUnique(t: Object3D, f: map<NodeId, Slot>)
    ensures UniqueHandles(SetSlots(t, f)) <==> UniqueHandles(t)
  {
    SetSlotsNodeAt(t, f);
  }

  /** The first slot recorded for `h` after an assignment is the assigned one, when `h` has a key. */
  lemma {:induction false} FirstSlotSetSlots(ns: seq<Object3D>, f: map<NodeId, Slot>, h: NodeId)
    requires h in f
    ensures FirstSlot(SetSlotsEach(ns, f), h) == (if FirstSlot(ns, h).Some? then Some(f[h]) else None)
  {
    if ns != [] {
      var rs := SetSlotsEach(ns, f);
      assert rs[1..] == SetSlotsEach(ns[1..], f);
      FirstSlotSetSlots(ns[1..], f, h);
    }
  }

  /** After assigning `s` to the mesh `h`, `h` holds `s`. */
  lemma SlotOfAfterSet(t: Object3D, h: NodeId, s: Slot)
    requires IsMeshIn(t, h)
    ensures SlotOf(SetSlots(t, map[h := s]), h) == Some(s)
  {
    NodesSetSlots(t, map[h := s]);
    FirstSlotSetSlots(Nodes(t), map[h := s], h);
  }

  /** In a well-formed scene the slot `SlotOf` reports is the one every object with that handle holds. */
  lemma SlotOfAgrees(t: Object3D, h: NodeId)
    requires UniqueHandles(t) && IsMeshIn(t, h)
    ensures Agrees(t, map[h := SlotOf(t, h).value])
  {
    var s := SlotOf(t, h).value;
    var m :| m in Nodes(t) && m.kind.Mesh? && m.handle == h && m.kind.slot == s;
    forall n | n in Nodes(t) && n.kind.Mesh? && n.handle in map[h := s]
      ensures map[h := s][n.handle] == n.kind.slot
    {
      SameHandleSameNode(t, m, n);
    }
  }
}
