/**
 * The component graph: hierarchy nodes are identified by their position in
 * the traversal `GetComponentsInChildren<Transform>()` returns, colliders by
 * their position in the hierarchy's collider list. DynamicBone.cs and
 * DynamicBoneCollider*.cs are not part of this model; their enumerations and
 * field defaults are stated here as the exporter's constants assume them.
 */
module Components {
  import opened Wrappers
  import opened Json

  type NodeId = nat
  type ColliderId = nat

  /** `Vector3`; components are only compared and copied. */
  datatype Vec3 = Vec3(x: real, y: real, z: real)

  const Zero := Vec3(0.0, 0.0, 0.0)

  /** A response curve: its keyframes, kept as the library serialises them. */
  type Curve = seq<Json>

  /** `DynamicBone.UpdateMode`, by declaration order. */
  datatype UpdateMode = Normal | AnimatePhysics | UnscaledTime | DefaultMode
  /** `DynamicBone.FreezeAxis`, by declaration order. */
  datatype FreezeAxis = FreezeNone | FreezeX | FreezeY | FreezeZ
  /** `DynamicBoneColliderBase.Direction`, by declaration order. */
  datatype Direction = DirX | DirY | DirZ
  /** `DynamicBoneColliderBase.Bound`, by declaration order. */
  datatype Bound = Outside | Inside

  /** Member names as `Enum.ToString` writes them, indexed by underlying value. */
  const UpdateModeNames: seq<string> := ["Normal", "AnimatePhysics", "UnscaledTime", "Default"]
  const FreezeAxisNames: seq<string> := ["None", "X", "Y", "Z"]
  const DirectionNames: seq<string> := ["X", "Y", "Z"]
  const BoundNames: seq<string> := ["Outside", "Inside"]

  function UpdateModeValue(m: UpdateMode): (v: nat)
    ensures v < |UpdateModeNames|
  {
    match m
    case Normal => 0
    case AnimatePhysics => 1
    case UnscaledTime => 2
    case DefaultMode => 3
  }

  function UpdateModeOf(v: nat): (m: UpdateMode)
    requires v < |UpdateModeNames|
    ensures UpdateModeValue(m) == v
  {
    if v == 0 then Normal else if v == 1 then AnimatePhysics else if v == 2 then UnscaledTime else DefaultMode
  }

  function FreezeAxisValue(a: FreezeAxis): (v: nat)
    ensures v < |FreezeAxisNames|
  {
    match a
    case FreezeNone => 0
    case FreezeX => 1
    case FreezeY => 2
    case FreezeZ => 3
  }

  function FreezeAxisOf(v: nat): (a: FreezeAxis)
    requires v < |FreezeAxisNames|
    ensures FreezeAxisValue(a) == v
  {
    if v == 0 then FreezeNone else if v == 1 then FreezeX else if v == 2 then FreezeY else FreezeZ
  }

  function DirectionValue(d: Direction): (v: nat)
    ensures v < |DirectionNames|
  {
    match d
    case DirX => 0
    case DirY => 1
    case DirZ => 2
  }

  function DirectionOf(v: nat): (d: Direction)
    requires v < |DirectionNames|
    ensures DirectionValue(d) == v
  {
    if v == 0 then DirX else if v == 1 then DirY else DirZ
  }

  function BoundValue(b: Bound): (v: nat)
    ensures v < |BoundNames|
  {
    match b
    case Outside => 0
    case Inside => 1
  }

  function BoundOf(v: nat): (b: Bound)
    requires v < |BoundNames|
    ensures BoundValue(b) == v
  {
    if v == 0 then Outside else Inside
  }

  /**
   * A `Transform` a chain refers to: a node of the selected hierarchy, or an
   * object elsewhere in the scene, which the model knows only by its name.
   */
  datatype NodeRef = Local(node: NodeId) | Foreign(name: string)

  /**
   * A collider a chain refers to: one of the hierarchy's colliders, or a
   * collider elsewhere in the scene, known by the name of its node.
   */
  datatype ColliderRef = LocalCollider(collider: ColliderId) | ForeignCollider(ownerName: string)

  /** A node the import resolved, as a reference. */
  function LocalNode(n: Option<NodeId>): (r: Option<NodeRef>)
    ensures r.None? <==> n.None?
    ensures r.Some? ==> r.value == Local(n.value)
  {
    if n.Some? then Some(Local(n.value)) else None
  }

  function LocalNodes(ns: seq<Option<NodeId>>): (r: seq<Option<NodeRef>>)
    ensures |r| == |ns|
    ensures forall i :: 0 <= i < |ns| ==> r[i] == LocalNode(ns[i])
  {
    seq(|ns|, i requires 0 <= i < |ns| => LocalNode(ns[i]))
  }

  /** A collider the import found, as a reference. */
  function LocalColliderOf(c: Option<ColliderId>): (r: Option<ColliderRef>)
    ensures r.None? <==> c.None?
    ensures r.Some? ==> r.value == LocalCollider(c.value)
  {
    if c.Some? then Some(LocalCollider(c.value)) else None
  }

  function LocalColliders(refs: seq<Option<ColliderId>>): (r: seq<Option<ColliderRef>>)
    ensures |r| == |refs|
    ensures forall i :: 0 <= i < |refs| ==> r[i] == LocalColliderOf(refs[i])
  {
    seq(|refs|, i requires 0 <= i < |refs| => LocalColliderOf(refs[i]))
  }

  /** The serialised fields of a `DynamicBone` component. */
  datatype Chain = Chain(
    root: Option<NodeRef>,
    updateRate: real,
    updateMode: UpdateMode,
    damping: real,
    dampingDistrib: Curve,
    elasticity: real,
    elasticityDistrib: Curve,
    stiffness: real,
    stiffnessDistrib: Curve,
    inert: real,
    inertDistrib: Curve,
    radius: real,
    radiusDistrib: Curve,
    endLength: real,
    endOffset: Vec3,
    gravity: Vec3,
    force: Vec3,
    colliders: seq<Option<ColliderRef>>,
    exclusions: seq<Option<NodeRef>>,
    freezeAxis: FreezeAxis,
    distantDisable: bool,
    referenceObject: Option<NodeRef>,
    distanceToObject: real)

  /**
   * A freshly added `DynamicBone`: every field at the constant the exporter
   * compares it with, curves without keys, lists empty.
   */
  const NewChain := Chain(
    None, 60.0, Normal, 0.1, [], 0.1, [], 0.1, [], 0.0, [], 0.0, [], 0.0,
    Zero, Zero, Zero, [], [], FreezeNone, false, None, 20.0)

  /** A `DynamicBone` attached to the node `owner`. */
  datatype Bone = Bone(owner: NodeId, chain: Chain)

  /**
   * The concrete collider class: `DynamicBoneCollider`, the capsule with its
   * own radius and height, or `DynamicBonePlaneCollider`.
   */
  datatype Shape = Capsule(radius: real, height: real) | Plane

  /** A `DynamicBoneColliderBase` attached to the node `owner`. */
  datatype Collider = Collider(owner: NodeId, shape: Shape, direction: Direction, center: Vec3, bound: Bound)

  /** The class name `GetType().ToString()` gives, which `Type.GetType` reads back. */
  function ShapeTypeName(s: Shape): string {
    match s
    case Capsule(_, _) => "DynamicBoneCollider"
    case Plane => "DynamicBonePlaneCollider"
  }

  /** A freshly added collider of the class named by `s`, at the class defaults. */
  function NewCollider(owner: NodeId, s: Shape): (c: Collider)
    ensures c.owner == owner && c.shape.Capsule? == s.Capsule?
  {
    Collider(owner, if s.Capsule? then Capsule(0.5, 0.0) else Plane, DirY, Zero, Outside)
  }

  /** The first collider attached to `node` (`GetComponent<DynamicBoneColliderBase>()`). */
  function FirstColliderOf(cs: seq<Collider>, node: NodeId): (r: Option<ColliderId>)
    ensures r.Some? ==> r.value < |cs| && cs[r.value].owner == node
    ensures r.Some? ==> forall j :: 0 <= j < r.value ==> cs[j].owner != node
    ensures r.None? ==> forall j :: 0 <= j < |cs| ==> cs[j].owner != node
  {
    if cs == [] then None
    else if cs[0].owner == node then Some(0)
    else match FirstColliderOf(cs[1..], node)
      case None => None
      case Some(i) => Some(i + 1)
  }

  /** A reference into the hierarchy names one of its `nodes` nodes. */
  predicate RefWithin(nodes: nat, r: Option<NodeRef>) {
    r.Some? && r.value.Local? ==> r.value.node < nodes
  }

  /** Every reference of `ch` into the hierarchy points at an existing node or collider. */
  predicate ChainRefsValid(nodes: nat, cs: seq<Collider>, ch: Chain) {
    && RefWithin(nodes, ch.root)
    && RefWithin(nodes, ch.referenceObject)
    && (forall i :: 0 <= i < |ch.colliders| && ch.colliders[i].Some? && ch.colliders[i].value.LocalCollider? ==>
          ch.colliders[i].value.collider < |cs|)
    && (forall i :: 0 <= i < |ch.exclusions| ==> RefWithin(nodes, ch.exclusions[i]))
  }

  /** The graph invariant: every component hangs off a node and every reference into the hierarchy resolves. */
  predicate GraphValid(names: seq<string>, cs: seq<Collider>, bones: seq<Bone>) {
    && (forall i :: 0 <= i < |cs| ==> cs[i].owner < |names|)
    && (forall i :: 0 <= i < |bones| ==> bones[i].owner < |names| && ChainRefsValid(|names|, cs, bones[i].chain))
  }
}
