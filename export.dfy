/**
 * Export: the component graph as the document `JsonConvert` serialises.
 * Each chain writes a field only when it differs from the constant a fresh
 * `DynamicBone` has; chains are grouped under their node's name in traversal
 * order; each node name keeps the last collider seen under it.
 */
module Export {
  import opened Wrappers
  import opened Json
  import opened Components
  import opened Fields

  /** `Vector3.ToArray`: `[x, y, z]`. */
  function ToArray(v: Vec3): (r: Json)
    ensures r.JArr? && |r.items| == 3
  {
    JArr([JNum(v.x), JNum(v.y), JNum(v.z)])
  }

  /** `.name` of a referenced `Transform`: a hierarchy node's name, or the outside object's own. */
  function RefName(names: seq<string>, r: NodeRef): string
    requires r.Local? ==> r.node < |names|
  {
    match r
    case Local(n) => names[n]
    case Foreign(name) => name
  }

  /** A node reference as written: its name, or null. */
  function NodeName(names: seq<string>, n: Option<NodeRef>): (r: Json)
    requires RefWithin(|names|, n)
    ensures r.JNull? <==> n.None?
    ensures n.Some? && n.value.Local? ==> r == JStr(names[n.value.node])
    ensures n.Some? && n.value.Foreign? ==> r == JStr(n.value.name)
  {
    if n.Some? then JStr(RefName(names, n.value)) else JNull
  }

  /** A list of node references, each as its name or null. */
  function NodeNames(names: seq<string>, ns: seq<Option<NodeRef>>): (r: seq<Json>)
    requires forall i :: 0 <= i < |ns| ==> RefWithin(|names|, ns[i])
    ensures |r| == |ns|
    ensures forall i :: 0 <= i < |ns| ==> r[i] == NodeName(names, ns[i])
  {
    seq(|ns|, i requires 0 <= i < |ns| => NodeName(names, ns[i]))
  }

  /** `.name` of a referenced collider: the name of the node carrying it. */
  function ColliderRefName(names: seq<string>, cs: seq<Collider>, r: ColliderRef): string
    requires forall i :: 0 <= i < |cs| ==> cs[i].owner < |names|
    requires r.LocalCollider? ==> r.collider < |cs|
  {
    match r
    case LocalCollider(c) => names[cs[c].owner]
    case ForeignCollider(name) => name
  }

  /** A list of collider references, each as the name of its node, or null. */
  function ColliderNames(names: seq<string>, cs: seq<Collider>, refs: seq<Option<ColliderRef>>): (r: seq<Json>)
    requires forall i :: 0 <= i < |cs| ==> cs[i].owner < |names|
    requires forall i :: 0 <= i < |refs| && refs[i].Some? && refs[i].value.LocalCollider? ==> refs[i].value.collider < |cs|
    ensures |r| == |refs|
    ensures forall i :: 0 <= i < |refs| ==> (r[i].JNull? <==> refs[i].None?)
    ensures forall i :: 0 <= i < |refs| && refs[i].Some? && refs[i].value.LocalCollider? ==>
      r[i] == JStr(names[cs[refs[i].value.collider].owner])
    ensures forall i :: 0 <= i < |refs| && refs[i].Some? && refs[i].value.ForeignCollider? ==>
      r[i] == JStr(refs[i].value.ownerName)
  {
    seq(|refs|, i requires 0 <= i < |refs| => if refs[i].Some? then JStr(ColliderRefName(names, cs, refs[i].value)) else JNull)
  }

  function ModeName(m: UpdateMode): string {
    UpdateModeNames[UpdateModeValue(m)]
  }

  function AxisName(a: FreezeAxis): string {
    FreezeAxisNames[FreezeAxisValue(a)]
  }

  /** The guard of each write in `DynamicBoneToJson`. */
  predicate Writes(ch: Chain, f: Field) {
    match f
    case RootField => true
    case UpdateRateField => ch.updateRate != 60.0
    case UpdateModeField => ch.updateMode != Normal
    case DampingField => ch.damping != 0.1
    case DampingDistribField => |ch.dampingDistrib| != 0
    case ElasticityField => ch.elasticity != 0.1
    case ElasticityDistribField => |ch.elasticityDistrib| != 0
    case StiffnessField => ch.stiffness != 0.1
    case StiffnessDistribField => |ch.stiffnessDistrib| != 0
    case InertField => ch.inert != 0.0
    case InertDistribField => |ch.inertDistrib| != 0
    case RadiusField => true
    case RadiusDistribField => |ch.radiusDistrib| != 0
    case EndLengthField => ch.endLength != 0.0
    case EndOffsetField => ch.endOffset != Zero
    case GravityField => ch.gravity != Zero
    case ForceField => ch.force != Zero
    case CollidersField => true
    case ExclusionsField => |ch.exclusions| != 0
    case FreezeAxisField => ch.freezeAxis != FreezeNone
    case DistantDisableField => ch.distantDisable != false
    case ReferenceObjectField => ch.referenceObject.Some?
    case DistanceToObjectField => ch.distanceToObject != 20.0
  }

  /** The fields `DynamicBoneToJson` writes unconditionally. */
  predicate AlwaysWritten(f: Field) {
    f == RootField || f == RadiusField || f == CollidersField
  }

  /**
   * Default omission: apart from `Root`, `Radius` and `Colliders`, a field
   * is written exactly when it differs from its value in a fresh component.
   */
  lemma WritesIffDiffers(ch: Chain, f: Field)
    ensures Writes(ch, f) <==> AlwaysWritten(f) || Project(ch, f) != Project(NewChain, f)
  {
  }

  /** What `DynamicBoneToJson` writes under the key of `f`. */
  function Encode(names: seq<string>, cs: seq<Collider>, ch: Chain, f: Field): Json
    requires forall i :: 0 <= i < |cs| ==> cs[i].owner < |names|
    requires ChainRefsValid(|names|, cs, ch)
  {
    match f
    case RootField => NodeName(names, ch.root)
    case UpdateRateField => JNum(ch.updateRate)
    case UpdateModeField => JStr(ModeName(ch.updateMode))
    case DampingField => JNum(ch.damping)
    case DampingDistribField => JArr(ch.dampingDistrib)
    case ElasticityField => JNum(ch.elasticity)
    case ElasticityDistribField => JArr(ch.elasticityDistrib)
    case StiffnessField => JNum(ch.stiffness)
    case StiffnessDistribField => JArr(ch.stiffnessDistrib)
    case InertField => JNum(ch.inert)
    case InertDistribField => JArr(ch.inertDistrib)
    case RadiusField => JNum(ch.radius)
    case RadiusDistribField => JArr(ch.radiusDistrib)
    case EndLengthField => JNum(ch.endLength)
    case EndOffsetField => ToArray(ch.endOffset)
    case GravityField => ToArray(ch.gravity)
    case ForceField => ToArray(ch.force)
    case CollidersField => JArr(ColliderNames(names, cs, ch.colliders))
    case ExclusionsField => JArr(NodeNames(names, ch.exclusions))
    case FreezeAxisField => JStr(AxisName(ch.freezeAxis))
    case DistantDisableField => JBool(ch.distantDisable)
    case ReferenceObjectField => NodeName(names, ch.referenceObject)
    case DistanceToObjectField => JNum(ch.distanceToObject)
  }

  /** One statement of `DynamicBoneToJson`: the guarded write of field `f`. */
  function Emit(names: seq<string>, cs: seq<Collider>, ch: Chain, d: Dict<Json>, f: Field): Dict<Json>
    requires forall i :: 0 <= i < |cs| ==> cs[i].owner < |names|
    requires ChainRefsValid(|names|, cs, ch)
  {
    if Writes(ch, f) then Put(d, FieldName(f), Encode(names, cs, ch, f)) else d
  }

  /** The dictionary after the first `n` statements of `DynamicBoneToJson`. */
  function Written(names: seq<string>, cs: seq<Collider>, ch: Chain, n: nat): Dict<Json>
    requires forall i :: 0 <= i < |cs| ==> cs[i].owner < |names|
    requires ChainRefsValid(|names|, cs, ch)
    requires n <= |AllFields|
  {
    if n == 0 then [] else Emit(names, cs, ch, Written(names, cs, ch, n - 1), AllFields[n - 1])
  }

  /**
   * `DynamicBoneToJson`: its 23 statements applied in order to an empty
   * dictionary.
   */
  function DynamicBoneToJson(names: seq<string>, cs: seq<Collider>, ch: Chain): Dict<Json>
    requires forall i :: 0 <= i < |cs| ==> cs[i].owner < |names|
    requires ChainRefsValid(|names|, cs, ch)
  {
    Written(names, cs, ch, |AllFields|)
  }

  /**
   * After the first `n` statements the dictionary holds one entry per
   * written field among them, under that field's key and with its encoding.
   */
  lemma WrittenShape(names: seq<string>, cs: seq<Collider>, ch: Chain, n: nat)
    requires forall i :: 0 <= i < |cs| ==> cs[i].owner < |names|
    requires ChainRefsValid(|names|, cs, ch)
    requires n <= |AllFields|
    ensures UniqueKeys(Written(names, cs, ch, n))
    ensures forall k :: HasKey(Written(names, cs, ch, n), k) <==>
      exists i :: 0 <= i < n && Writes(ch, AllFields[i]) && FieldName(AllFields[i]) == k
    ensures forall i :: 0 <= i < n && Writes(ch, AllFields[i]) ==>
      Get(Written(names, cs, ch, n), FieldName(AllFields[i])) == Some(Encode(names, cs, ch, AllFields[i]))
  {
    var ws := Statements(names, cs, ch, n);
    WrittenByStatements(names, cs, ch, n);
    FieldNamesDistinct();
    GuardedPutsKeys(ws);
    GuardedPutsValues(ws);
    forall k ensures HasKey(Written(names, cs, ch, n), k) <==>
      exists i :: 0 <= i < n && Writes(ch, AllFields[i]) && FieldName(AllFields[i]) == k
    {
      if exists i :: 0 <= i < n && Writes(ch, AllFields[i]) && FieldName(AllFields[i]) == k {
        var i :| 0 <= i < n && Writes(ch, AllFields[i]) && FieldName(AllFields[i]) == k;
        assert ws[i].0 && ws[i].1 == k;
      }
      if Guarded(ws, k) {
        var i :| 0 <= i < n && ws[i].0 && ws[i].1 == k;
      }
    }
    forall i | 0 <= i < n && Writes(ch, AllFields[i])
      ensures Get(Written(names, cs, ch, n), FieldName(AllFields[i])) == Some(Encode(names, cs, ch, AllFields[i]))
    {
      assert ws[i].0;
    }
  }

  /** The first `n` statements of `DynamicBoneToJson`: guard, key and value of each. */
  function Statements(names: seq<string>, cs: seq<Collider>, ch: Chain, n: nat): (ws: seq<(bool, string, Json)>)
    requires forall i :: 0 <= i < |cs| ==> cs[i].owner < |names|
    requires ChainRefsValid(|names|, cs, ch)
    requires n <= |AllFields|
    ensures |ws| == n
    ensures forall i :: 0 <= i < n ==>
      ws[i] == (Writes(ch, AllFields[i]), FieldName(AllFields[i]), Encode(names, cs, ch, AllFields[i]))
  {
    seq(n, i requires 0 <= i < n => (Writes(ch, AllFields[i]), FieldName(AllFields[i]), Encode(names, cs, ch, AllFields[i])))
  }

  /** Guarded writes `if (w) d[k] = v;`, run in order on an empty dictionary. */
  function GuardedPuts<V>(ws: seq<(bool, string, V)>): Dict<V>
    decreases |ws|
  {
    if ws == [] then []
    else
      var n := |ws| - 1;
      var d := GuardedPuts(ws[..n]);
      if ws[n].0 then Put(d, ws[n].1, ws[n].2) else d
  }

  lemma {:induction false} WrittenByStatements(names: seq<string>, cs: seq<Collider>, ch: Chain, n: nat)
    requires forall i :: 0 <= i < |cs| ==> cs[i].owner < |names|
    requires ChainRefsValid(|names|, cs, ch)
    requires n <= |AllFields|
    ensures Written(names, cs, ch, n) == GuardedPuts(Statements(names, cs, ch, n))
  {
    if n > 0 {
      WrittenByStatements(names, cs, ch, n - 1);
      var ws := Statements(names, cs, ch, n);
      assert ws[..n - 1] == Statements(names, cs, ch, n - 1);
    }
  }

  /** Some statement among `ws` with its guard holding writes `k`. */
  predicate Guarded<V>(ws: seq<(bool, string, V)>, k: string) {
    exists i :: 0 <= i < |ws| && ws[i].0 && ws[i].1 == k
  }

  lemma GuardedSnoc<V>(ws: seq<(bool, string, V)>, k: string)
    requires ws != []
    ensures var n := |ws| - 1; Guarded(ws, k) <==> Guarded(ws[..n], k) || (ws[n].0 && ws[n].1 == k)
  {
    var n := |ws| - 1;
    if Guarded(ws, k) {
      var i :| 0 <= i < |ws| && ws[i].0 && ws[i].1 == k;
      if i < n { assert ws[..n][i] == ws[i]; }
    }
    if Guarded(ws[..n], k) {
      var i :| 0 <= i < n && ws[..n][i].0 && ws[..n][i].1 == k;
      assert ws[i] == ws[..n][i];
    }
  }

  /** The guarded writes leave distinct keys: those of the statements whose guard held. */
  lemma {:induction false} GuardedPutsKeys<V>(ws: seq<(bool, string, V)>)
    ensures UniqueKeys(GuardedPuts(ws))
    ensures forall k :: HasKey(GuardedPuts(ws), k) <==> Guarded(ws, k)
    decreases |ws|
  {
    if ws != [] {
      var n := |ws| - 1;
      var d := GuardedPuts(ws[..n]);
      var e := ws[n];
      GuardedPutsKeys(ws[..n]);
      forall k ensures HasKey(GuardedPuts(ws), k) <==> Guarded(ws, k) {
        GuardedSnoc(ws, k);
        if e.0 { PutAt(d, e.1, e.2, k); }
      }
      if e.0 { PutAt(d, e.1, e.2, e.1); }
    }
  }

  /** With distinct keys, each statement whose guard held leaves its value under its key. */
  lemma {:induction false} GuardedPutsValues<V>(ws: seq<(bool, string, V)>)
    requires forall i, j :: 0 <= i < j < |ws| ==> ws[i].1 != ws[j].1
    ensures forall i :: 0 <= i < |ws| && ws[i].0 ==> Get(GuardedPuts(ws), ws[i].1) == Some(ws[i].2)
    decreases |ws|
  {
    if ws != [] {
      var n := |ws| - 1;
      var init := ws[..n];
      var d := GuardedPuts(init);
      var e := ws[n];
      GuardedPutsValues(init);
      forall i | 0 <= i < |ws| && ws[i].0 ensures Get(GuardedPuts(ws), ws[i].1) == Some(ws[i].2) {
        if e.0 { PutAt(d, e.1, e.2, ws[i].1); }
        if i < n {
          assert init[i] == ws[i];
          assert ws[i].1 != e.1;
        }
      }
    }
  }

  /**
   * Every field's key is written exactly when its guard holds, and each
   * written key is one the import's `switch` lists.
   */
  lemma DynamicBoneKeys(names: seq<string>, cs: seq<Collider>, ch: Chain)
    requires forall i :: 0 <= i < |cs| ==> cs[i].owner < |names|
    requires ChainRefsValid(|names|, cs, ch)
    ensures forall f :: HasKey(DynamicBoneToJson(names, cs, ch), FieldName(f)) <==> Writes(ch, f)
    ensures forall k :: HasKey(DynamicBoneToJson(names, cs, ch), k) ==> FieldOf(k).Some?
  {
    var d := DynamicBoneToJson(names, cs, ch);
    WrittenShape(names, cs, ch, |AllFields|);
    forall f ensures HasKey(d, FieldName(f)) <==> Writes(ch, f) {
      AllFieldsComplete(f);
      var j :| 0 <= j < |AllFields| && AllFields[j] == f;
      if HasKey(d, FieldName(f)) {
        var i :| 0 <= i < |AllFields| && Writes(ch, AllFields[i]) && FieldName(AllFields[i]) == FieldName(f);
        FieldNameInjective(f, AllFields[i]);
      }
    }
    forall k | HasKey(d, k) ensures FieldOf(k).Some? {
      var i :| 0 <= i < |AllFields| && Writes(ch, AllFields[i]) && FieldName(AllFields[i]) == k;
      FieldOfName(AllFields[i]);
    }
  }

  /** No key is written twice, and a written key carries its field's encoding. */
  lemma DynamicBoneValues(names: seq<string>, cs: seq<Collider>, ch: Chain)
    requires forall i :: 0 <= i < |cs| ==> cs[i].owner < |names|
    requires ChainRefsValid(|names|, cs, ch)
    ensures UniqueKeys(DynamicBoneToJson(names, cs, ch))
    ensures forall f :: Writes(ch, f) ==> Get(DynamicBoneToJson(names, cs, ch), FieldName(f)) == Some(Encode(names, cs, ch, f))
  {
    WrittenShape(names, cs, ch, |AllFields|);
    forall f | Writes(ch, f) ensures Get(DynamicBoneToJson(names, cs, ch), FieldName(f)) == Some(Encode(names, cs, ch, f)) {
      AllFieldsComplete(f);
      var j :| 0 <= j < |AllFields| && AllFields[j] == f;
    }
  }

  /** `Root` is always written, and is null exactly when the chain has no root. */
  lemma DynamicBoneRoot(names: seq<string>, cs: seq<Collider>, ch: Chain)
    requires forall i :: 0 <= i < |cs| ==> cs[i].owner < |names|
    requires ChainRefsValid(|names|, cs, ch)
    ensures Get(DynamicBoneToJson(names, cs, ch), "Root") == Some(if ch.root.None? then JNull else JStr(RefName(names, ch.root.value)))
  {
    DynamicBoneValues(names, cs, ch);
    assert FieldName(RootField) == "Root" && Writes(ch, RootField);
  }

  /** The name `Enum.ToString` gives a collider's direction. */
  function DirectionName(d: Direction): string {
    DirectionNames[DirectionValue(d)]
  }

  /** `ColliderToJson`: the entries it writes, in the order it writes them. */
  function ColliderFields(c: Collider): Dict<Json> {
    var d := Put(Put(Put(Put([], "Type", JStr(ShapeTypeName(c.shape))),
      "Direction", JStr(DirectionName(c.direction))),
      "Center", ToArray(c.center)),
      "Bound", JNum(BoundValue(c.bound) as real));
    if c.shape.Capsule? then Put(Put(d, "Radius", JNum(c.shape.radius)), "Height", JNum(c.shape.height)) else d
  }

  /** The entries of `ColliderFields`, written out: every key is new when it is set. */
  lemma {:induction false} ColliderEntries(c: Collider)
    ensures ColliderFields(c) ==
      [("Type", JStr(ShapeTypeName(c.shape))),
       ("Direction", JStr(DirectionName(c.direction))),
       ("Center", ToArray(c.center)),
       ("Bound", JNum(BoundValue(c.bound) as real))]
      + if c.shape.Capsule? then [("Radius", JNum(c.shape.radius)), ("Height", JNum(c.shape.height))] else []
  {
    var d1 := Put([], "Type", JStr(ShapeTypeName(c.shape)));
    PutNew([], "Type", JStr(ShapeTypeName(c.shape)));
    assert !HasKey(d1, "Direction");
    var d2 := Put(d1, "Direction", JStr(DirectionName(c.direction)));
    PutNew(d1, "Direction", JStr(DirectionName(c.direction)));
    assert !HasKey(d2, "Center");
    var d3 := Put(d2, "Center", ToArray(c.center));
    PutNew(d2, "Center", ToArray(c.center));
    assert !HasKey(d3, "Bound");
    var d4 := Put(d3, "Bound", JNum(BoundValue(c.bound) as real));
    PutNew(d3, "Bound", JNum(BoundValue(c.bound) as real));
    if c.shape.Capsule? {
      assert !HasKey(d4, "Radius");
      var d5 := Put(d4, "Radius", JNum(c.shape.radius));
      PutNew(d4, "Radius", JNum(c.shape.radius));
      assert !HasKey(d5, "Height");
      PutNew(d5, "Height", JNum(c.shape.height));
    }
  }

  /**
   * A collider always writes `Type`, `Direction` (as a name), `Center` and
   * `Bound` (as its underlying number), and writes `Radius` and `Height`
   * exactly for the capsule class; these are all its keys, each once.
   */
  lemma ColliderKeys(c: Collider)
    ensures UniqueKeys(ColliderFields(c))
    ensures Get(ColliderFields(c), "Type") == Some(JStr(ShapeTypeName(c.shape)))
    ensures Get(ColliderFields(c), "Direction") == Some(JStr(DirectionNames[DirectionValue(c.direction)]))
    ensures Get(ColliderFields(c), "Center") == Some(JArr([JNum(c.center.x), JNum(c.center.y), JNum(c.center.z)]))
    ensures Get(ColliderFields(c), "Bound") == Some(JNum(BoundValue(c.bound) as real))
    ensures HasKey(ColliderFields(c), "Radius") <==> c.shape.Capsule?
    ensures HasKey(ColliderFields(c), "Height") <==> c.shape.Capsule?
    ensures c.shape.Capsule? ==> Get(ColliderFields(c), "Radius") == Some(JNum(c.shape.radius))
    ensures c.shape.Capsule? ==> Get(ColliderFields(c), "Height") == Some(JNum(c.shape.height))
    ensures forall k :: HasKey(ColliderFields(c), k) ==> k in ["Type", "Direction", "Center", "Bound", "Radius", "Height"]
  {
    ColliderKeySet(c);
    ColliderValues(c);
  }

  /** The keys of `ColliderFields`, in order. */
  lemma ColliderKeyList(c: Collider)
    ensures Keys(ColliderFields(c)) ==
      ["Type", "Direction", "Center", "Bound"] + if c.shape.Capsule? then ["Radius", "Height"] else []
  {
    var d := ColliderFields(c);
    ColliderEntries(c);
    var ks := Keys(d);
    assert ks[0] == "Type" && ks[1] == "Direction" && ks[2] == "Center" && ks[3] == "Bound";
    assert c.shape.Capsule? ==> ks[4] == "Radius" && ks[5] == "Height";
  }

  /** A dictionary with a collider's key list holds each key once, and `Radius` and `Height` exactly for a capsule. */
  lemma ListedKeys<V>(d: Dict<V>, capsule: bool)
    requires Keys(d) == ["Type", "Direction", "Center", "Bound"] + if capsule then ["Radius", "Height"] else []
    ensures UniqueKeys(d)
    ensures HasKey(d, "Radius") <==> capsule
    ensures HasKey(d, "Height") <==> capsule
    ensures forall k :: HasKey(d, k) ==> k in ["Type", "Direction", "Center", "Bound", "Radius", "Height"]
  {
    var ks := Keys(d);
    assert forall i, j :: 0 <= i < j < |ks| ==> ks[i] != ks[j];
  }

  /** `ColliderFields` holds each of its keys once, and `Radius` and `Height` exactly for a capsule. */
  lemma ColliderKeySet(c: Collider)
    ensures UniqueKeys(ColliderFields(c))
    ensures HasKey(ColliderFields(c), "Radius") <==> c.shape.Capsule?
    ensures HasKey(ColliderFields(c), "Height") <==> c.shape.Capsule?
    ensures forall k :: HasKey(ColliderFields(c), k) ==> k in ["Type", "Direction", "Center", "Bound", "Radius", "Height"]
  {
    ColliderKeyList(c);
    ListedKeys(ColliderFields(c), c.shape.Capsule?);
  }

  /** The value `ColliderFields` holds under each of its keys. */
  lemma ColliderValues(c: Collider)
    ensures Get(ColliderFields(c), "Type") == Some(JStr(ShapeTypeName(c.shape)))
    ensures Get(ColliderFields(c), "Direction") == Some(JStr(DirectionNames[DirectionValue(c.direction)]))
    ensures Get(ColliderFields(c), "Center") == Some(JArr([JNum(c.center.x), JNum(c.center.y), JNum(c.center.z)]))
    ensures Get(ColliderFields(c), "Bound") == Some(JNum(BoundValue(c.bound) as real))
    ensures c.shape.Capsule? ==> Get(ColliderFields(c), "Radius") == Some(JNum(c.shape.radius))
    ensures c.shape.Capsule? ==> Get(ColliderFields(c), "Height") == Some(JNum(c.shape.height))
  {
    var d := ColliderFields(c);
    ColliderKeySet(c);
    ColliderEntries(c);
    assert d[0].0 == "Type" && d[1].0 == "Direction" && d[2].0 == "Center" && d[3].0 == "Bound";
    assert c.shape.Capsule? ==> d[4].0 == "Radius" && d[5].0 == "Height";
  }

  /** `ColliderToJson`, statement by statement. */
  method ColliderToJson(c: Collider) returns (dst: Dict<Json>)
    ensures dst == ColliderFields(c)
  {
    dst := [];
    dst := Put(dst, "Type", JStr(ShapeTypeName(c.shape)));
    dst := Put(dst, "Direction", JStr(DirectionName(c.direction)));
    dst := Put(dst, "Center", ToArray(c.center));
    dst := Put(dst, "Bound", JNum(BoundValue(c.bound) as real));
    if c.shape.Capsule? {
      dst := Put(dst, "Radius", JNum(c.shape.radius));
      dst := Put(dst, "Height", JNum(c.shape.height));
    }
  }

  /** The items of an `ArrayList` value (none for any other value). */
  function ListOf(j: Json): seq<Json> {
    if j.JArr? then j.items else []
  }

  /** Each chain, in traversal order, as written, with the name of the node carrying it. */
  function BoneEntries(names: seq<string>, cs: seq<Collider>, bones: seq<Bone>): (es: seq<(string, Json)>)
    requires GraphValid(names, cs, bones)
    ensures |es| == |bones|
    ensures forall i :: 0 <= i < |bones| ==>
      es[i] == (names[bones[i].owner], JObj(DynamicBoneToJson(names, cs, bones[i].chain)))
  {
    seq(|bones|, i requires 0 <= i < |bones| =>
      (names[bones[i].owner], JObj(DynamicBoneToJson(names, cs, bones[i].chain))))
  }

  /** The values filed under `k`, in order. */
  function Named(es: seq<(string, Json)>, k: string): seq<Json>
    decreases |es|
  {
    if es == [] then []
    else
      var n := |es| - 1;
      Named(es[..n], k) + if es[n].0 == k then [es[n].1] else []
  }

  /** The list under `e.0` after appending `e.1` to it (an empty list when the key is new). */
  function AddEntry(d: Dict<Json>, e: (string, Json)): Dict<Json> {
    var prev := if HasKey(d, e.0) then ListOf(Get(d, e.0).value) else [];
    Put(d, e.0, JArr(prev + [e.1]))
  }

  /** The grouping loop of `CreateBonesDict`, over name-value pairs. */
  function Group(es: seq<(string, Json)>): Dict<Json>
    decreases |es|
  {
    if es == [] then [] else AddEntry(Group(es[..|es| - 1]), es[|es| - 1])
  }

  /** One more entry is one more `AddEntry`. */
  lemma GroupSnoc(es: seq<(string, Json)>, i: nat)
    requires i < |es|
    ensures Group(es[..i + 1]) == AddEntry(Group(es[..i]), es[i])
  {
    assert es[..i + 1][..i] == es[..i];
  }

  /** `CreateBonesDict`: the chains grouped under their node's name. */
  function BonesDict(names: seq<string>, cs: seq<Collider>, bones: seq<Bone>): Dict<Json>
    requires GraphValid(names, cs, bones)
  {
    Group(BoneEntries(names, cs, bones))
  }

  /** The sum of the list lengths of a dictionary of `ArrayList`s. */
  function TotalLength(d: Dict<Json>): nat {
    if d == [] then 0 else |ListOf(d[0].1)| + TotalLength(d[1..])
  }

  lemma {:induction false} TotalLengthAppend(d: Dict<Json>, e: (string, Json))
    ensures TotalLength(d + [e]) == TotalLength(d) + |ListOf(e.1)|
    decreases |d|
  {
    if d != [] {
      assert (d + [e])[1..] == d[1..] + [e];
      TotalLengthAppend(d[1..], e);
    }
  }

  lemma {:induction false} TotalLengthUpdate(d: Dict<Json>, i: nat, e: (string, Json))
    requires i < |d|
    ensures TotalLength(d[i := e]) + |ListOf(d[i].1)| == TotalLength(d) + |ListOf(e.1)|
    decreases |d|
  {
    if i > 0 {
      assert d[i := e][1..] == d[1..][i - 1 := e];
      TotalLengthUpdate(d[1..], i - 1, e);
    } else {
      assert d[i := e][1..] == d[1..];
    }
  }

  /** Setting `k` replaces the length of its old list (if any) by the length of the new one. */
  lemma TotalLengthPut(d: Dict<Json>, k: string, v: Json)
    ensures TotalLength(Put(d, k, v)) + (if HasKey(d, k) then |ListOf(Get(d, k).value)| else 0)
      == TotalLength(d) + |ListOf(v)|
  {
    var i := IndexOf(d, k);
    if i < |d| {
      TotalLengthUpdate(d, i, (k, v));
    } else {
      TotalLengthAppend(d, (k, v));
    }
  }

  /** Nothing is filed under a key no pair carries. */
  lemma {:induction false} NamedAbsent(es: seq<(string, Json)>, k: string)
    requires forall i :: 0 <= i < |es| ==> es[i].0 != k
    ensures Named(es, k) == []
    decreases |es|
  {
    if es != [] {
      NamedAbsent(es[..|es| - 1], k);
    }
  }

  /** One step of the grouping, as the dictionary setter sees it. */
  lemma AddEntryShape(d: Dict<Json>, e: (string, Json))
    ensures AddEntry(d, e) == Put(d, e.0, JArr((if HasKey(d, e.0) then ListOf(Get(d, e.0).value) else []) + [e.1]))
    ensures forall k :: HasKey(AddEntry(d, e), k) <==> HasKey(d, k) || k == e.0
    ensures UniqueKeys(d) ==> UniqueKeys(AddEntry(d, e))
  {
    var prev := if HasKey(d, e.0) then ListOf(Get(d, e.0).value) else [];
    PutShape(d, e.0, JArr(prev + [e.1]));
  }

  /** Grouping yields one key per distinct name, and no key twice. */
  lemma {:induction false} GroupKeys(es: seq<(string, Json)>)
    ensures UniqueKeys(Group(es))
    ensures forall k :: HasKey(Group(es), k) <==> HasKey(es, k)
    decreases |es|
  {
    if es != [] {
      var n := |es| - 1;
      var init := es[..n];
      var e := es[n];
      var d := Group(init);
      var v := JArr((if HasKey(d, e.0) then ListOf(Get(d, e.0).value) else []) + [e.1]);
      GroupKeys(init);
      assert Group(es) == Put(d, e.0, v);
      assert es == init + [e];
      forall k ensures HasKey(Group(es), k) <==> HasKey(es, k) {
        PutAt(d, e.0, v, k);
        HasKeyAppend(init, [e], k);
        assert HasKey([e], k) <==> k == e.0 by { if k == e.0 { assert [e][0].0 == k; } }
      }
      PutAt(d, e.0, v, e.0);
    }
  }

  /** Under each key, grouping lists the values carrying that name, in order. */
  lemma {:induction false} GroupValues(es: seq<(string, Json)>)
    ensures forall k :: HasKey(Group(es), k) ==> Get(Group(es), k) == Some(JArr(Named(es, k)))
    decreases |es|
  {
    if es != [] {
      var n := |es| - 1;
      var init := es[..n];
      var e := es[n];
      GroupValues(init);
      var d := Group(init);
      var prev := if HasKey(d, e.0) then ListOf(Get(d, e.0).value) else [];
      if !HasKey(d, e.0) {
        GroupKeys(init);
        NamedAbsent(init, e.0);
      }
      assert prev == Named(init, e.0);
      AddEntryShape(d, e);
      PutGet(d, e.0, JArr(prev + [e.1]));
      forall k | HasKey(Group(es), k) ensures Get(Group(es), k) == Some(JArr(Named(es, k))) {
        assert Named(es, k) == Named(init, k) + if e.0 == k then [e.1] else [];
        assert Group(es) == AddEntry(d, e);
        if k != e.0 {
          assert HasKey(d, k);
          assert Get(Group(es), k) == Get(d, k);
          assert Get(d, k) == Some(JArr(Named(init, k)));
          assert Named(es, k) == Named(init, k);
        } else {
          assert Named(es, k) == prev + [e.1];
          assert Get(Group(es), k) == Some(JArr(prev + [e.1]));
        }
      }
    }
  }

  /** The lists of a grouping together hold every value once. */
  lemma {:induction false} GroupTotal(es: seq<(string, Json)>)
    ensures TotalLength(Group(es)) == |es|
    decreases |es|
  {
    if es != [] {
      var n := |es| - 1;
      var e := es[n];
      GroupTotal(es[..n]);
      var d := Group(es[..n]);
      var prev := if HasKey(d, e.0) then ListOf(Get(d, e.0).value) else [];
      AddEntryShape(d, e);
      TotalLengthPut(d, e.0, JArr(prev + [e.1]));
    }
  }

  /**
   * `CreateBonesDict` has one key per distinct name of a node carrying a
   * chain; under each name it lists that name's chains in traversal order;
   * and the lists together hold every chain once.
   */
  lemma BonesDictShape(names: seq<string>, cs: seq<Collider>, bones: seq<Bone>)
    requires GraphValid(names, cs, bones)
    ensures UniqueKeys(BonesDict(names, cs, bones))
    ensures forall k :: HasKey(BonesDict(names, cs, bones), k) <==>
      exists i :: 0 <= i < |bones| && names[bones[i].owner] == k
    ensures forall k :: HasKey(BonesDict(names, cs, bones), k) ==>
      Get(BonesDict(names, cs, bones), k) == Some(JArr(Named(BoneEntries(names, cs, bones), k)))
    ensures TotalLength(BonesDict(names, cs, bones)) == |bones|
  {
    var es := BoneEntries(names, cs, bones);
    GroupKeys(es);
    GroupValues(es);
    GroupTotal(es);
    forall k | HasKey(BonesDict(names, cs, bones), k)
      ensures exists i :: 0 <= i < |bones| && names[bones[i].owner] == k
    {
      var i :| 0 <= i < |es| && es[i].0 == k;
    }
    forall k, i | 0 <= i < |bones| && names[bones[i].owner] == k
      ensures HasKey(BonesDict(names, cs, bones), k)
    {
      assert es[i].0 == k;
    }
  }

  /** The two steps of the loop body (create the list if absent, then add to it) are `AddEntry`. */
  lemma AddEntryInTwoSteps(d: Dict<Json>, e: (string, Json))
    ensures var d' := if !HasKey(d, e.0) then Put(d, e.0, JArr([])) else d;
      HasKey(d', e.0) && Put(d', e.0, JArr(ListOf(Get(d', e.0).value) + [e.1])) == AddEntry(d, e)
  {
    if !HasKey(d, e.0) {
      var d' := Put(d, e.0, JArr([]));
      PutShape(d, e.0, JArr([]));
      PutGet(d, e.0, JArr([]));
      PutShape(d', e.0, JArr([e.1]));
      assert d'[|d|] == (e.0, JArr([]));
      assert IndexOf(d', e.0) == |d|;
    }
  }

  method CreateBonesDict(names: seq<string>, cs: seq<Collider>, bones: seq<Bone>) returns (dst: Dict<Json>)
    requires GraphValid(names, cs, bones)
    ensures dst == BonesDict(names, cs, bones)
  {
    ghost var es := BoneEntries(names, cs, bones);
    dst := [];
    var i := 0;
    while i < |bones|
      invariant 0 <= i <= |bones|
      invariant dst == Group(es[..i])
    {
      var db := bones[i];
      var name := names[db.owner];
      var dbDict := DynamicBoneToJson(names, cs, db.chain);
      assert es[i] == (name, JObj(dbDict));
      AddEntryInTwoSteps(dst, es[i]);
      GroupSnoc(es, i);
      if !HasKey(dst, name) {
        dst := Put(dst, name, JArr([]));
      }
      dst := Put(dst, name, JArr(ListOf(Get(dst, name).value) + [JObj(dbDict)]));
      i := i + 1;
    }
    assert es[..i] == es;
  }

  /** Each collider, in traversal order, as written, with the name of the node carrying it. */
  function ColliderPairs(names: seq<string>, cs: seq<Collider>): (es: seq<(string, Json)>)
    requires forall i :: 0 <= i < |cs| ==> cs[i].owner < |names|
    ensures |es| == |cs|
    ensures forall i :: 0 <= i < |cs| ==> es[i] == (names[cs[i].owner], JObj(ColliderFields(cs[i])))
  {
    seq(|cs|, i requires 0 <= i < |cs| => (names[cs[i].owner], JObj(ColliderFields(cs[i]))))
  }

  /** The setter applied to each pair in turn. */
  function PutAll(d: Dict<Json>, es: seq<(string, Json)>): Dict<Json>
    decreases |es|
  {
    if es == [] then d else Put(PutAll(d, es[..|es| - 1]), es[|es| - 1].0, es[|es| - 1].1)
  }

  /** One more pair is one more setter call. */
  lemma PutAllSnoc(d: Dict<Json>, es: seq<(string, Json)>, i: nat)
    requires i < |es|
    ensures PutAll(d, es[..i + 1]) == Put(PutAll(d, es[..i]), es[i].0, es[i].1)
  {
    assert es[..i + 1][..i] == es[..i];
  }

  /** Setting the pairs in turn into an empty dictionary leaves one key per distinct name. */
  lemma {:induction false} PutAllKeys(es: seq<(string, Json)>)
    ensures UniqueKeys(PutAll([], es))
    ensures forall k :: HasKey(PutAll([], es), k) <==> HasKey(es, k)
    decreases |es|
  {
    if es != [] {
      var n := |es| - 1;
      var init := es[..n];
      var e := es[n];
      var d := PutAll([], init);
      PutAllKeys(init);
      assert es == init + [e];
      forall k ensures HasKey(PutAll([], es), k) <==> HasKey(es, k) {
        PutAt(d, e.0, e.1, k);
        HasKeyAppend(init, [e], k);
        assert HasKey([e], k) <==> k == e.0 by { if k == e.0 { assert [e][0].0 == k; } }
      }
      PutAt(d, e.0, e.1, e.0);
    }
  }

  /** A name holds the value of the LAST pair carrying it. */
  lemma {:induction false} PutAllLast(d: Dict<Json>, es: seq<(string, Json)>, i: nat)
    requires i < |es|
    requires forall j :: i < j < |es| ==> es[j].0 != es[i].0
    ensures Get(PutAll(d, es), es[i].0) == Some(es[i].1)
    decreases |es|
  {
    var n := |es| - 1;
    var init := es[..n];
    PutGet(PutAll(d, init), es[n].0, es[n].1);
    if i < n {
      assert init[i] == es[i];
      forall j | i < j < n ensures init[j].0 != init[i].0 { assert init[j] == es[j]; }
      PutAllLast(d, init, i);
    }
  }

  /** `CreateCollidersDict`: each collider written under its node's name. */
  function CollidersDict(names: seq<string>, cs: seq<Collider>): Dict<Json>
    requires forall i :: 0 <= i < |cs| ==> cs[i].owner < |names|
  {
    PutAll([], ColliderPairs(names, cs))
  }

  /**
   * `CreateCollidersDict` has one key per distinct name of a node carrying
   * a collider, and two colliders on equally named nodes overwrite each
   * other: the last in traversal order is the one written.
   */
  lemma CollidersDictShape(names: seq<string>, cs: seq<Collider>)
    requires forall i :: 0 <= i < |cs| ==> cs[i].owner < |names|
    ensures UniqueKeys(CollidersDict(names, cs))
    ensures forall k :: HasKey(CollidersDict(names, cs), k) <==>
      exists i :: 0 <= i < |cs| && names[cs[i].owner] == k
    ensures forall i :: 0 <= i < |cs| && (forall j :: i < j < |cs| ==> names[cs[j].owner] != names[cs[i].owner]) ==>
      Get(CollidersDict(names, cs), names[cs[i].owner]) == Some(JObj(ColliderFields(cs[i])))
  {
    CollidersDictKeys(names, cs);
    CollidersDictLast(names, cs);
  }

  /** The keys of `CreateCollidersDict`: each name of a node carrying a collider, once. */
  lemma CollidersDictKeys(names: seq<string>, cs: seq<Collider>)
    requires forall i :: 0 <= i < |cs| ==> cs[i].owner < |names|
    ensures UniqueKeys(CollidersDict(names, cs))
    ensures forall k :: HasKey(CollidersDict(names, cs), k) <==>
      exists i :: 0 <= i < |cs| && names[cs[i].owner] == k
  {
    var es := ColliderPairs(names, cs);
    PutAllKeys(es);
    forall k | HasKey(CollidersDict(names, cs), k)
      ensures exists i :: 0 <= i < |cs| && names[cs[i].owner] == k
    {
      var i :| 0 <= i < |es| && es[i].0 == k;
    }
    forall k, i | 0 <= i < |cs| && names[cs[i].owner] == k
      ensures HasKey(CollidersDict(names, cs), k)
    {
      assert es[i].0 == k;
    }
  }

  /** The value under a name in `CreateCollidersDict`: the last collider on a node of that name. */
  lemma CollidersDictLast(names: seq<string>, cs: seq<Collider>)
    requires forall i :: 0 <= i < |cs| ==> cs[i].owner < |names|
    ensures forall i :: 0 <= i < |cs| && (forall j :: i < j < |cs| ==> names[cs[j].owner] != names[cs[i].owner]) ==>
      Get(CollidersDict(names, cs), names[cs[i].owner]) == Some(JObj(ColliderFields(cs[i])))
  {
    var es := ColliderPairs(names, cs);
    forall i | 0 <= i < |cs| && (forall j :: i < j < |cs| ==> names[cs[j].owner] != names[cs[i].owner])
      ensures Get(CollidersDict(names, cs), names[cs[i].owner]) == Some(JObj(ColliderFields(cs[i])))
    {
      assert forall j :: i < j < |es| ==> es[j].0 != es[i].0;
      PutAllLast([], es, i);
    }
  }

  method CreateCollidersDict(names: seq<string>, cs: seq<Collider>) returns (dst: Dict<Json>)
    requires forall i :: 0 <= i < |cs| ==> cs[i].owner < |names|
    ensures dst == CollidersDict(names, cs)
  {
    ghost var es := ColliderPairs(names, cs);
    dst := [];
    var i := 0;
    while i < |cs|
      invariant 0 <= i <= |cs|
      invariant dst == PutAll([], es[..i])
    {
      var props := ColliderToJson(cs[i]);
      PutAllSnoc([], es, i);
      dst := Put(dst, names[cs[i].owner], JObj(props));
      i := i + 1;
    }
    assert es[..i] == es;
  }

  /** `CreateDict`: the document, keyed by the root's name, the chains and the colliders. */
  function CreateDict(names: seq<string>, cs: seq<Collider>, bones: seq<Bone>): Dict<Json>
    requires |names| > 0
    requires GraphValid(names, cs, bones)
  {
    [("ObjectName", JStr(names[0])),
     ("DynamicBone", JObj(BonesDict(names, cs, bones))),
     ("Collider", JObj(CollidersDict(names, cs)))]
  }

  /** The document has exactly its three members, each holding its section. */
  lemma CreateDictShape(names: seq<string>, cs: seq<Collider>, bones: seq<Bone>)
    requires |names| > 0
    requires GraphValid(names, cs, bones)
    ensures UniqueKeys(CreateDict(names, cs, bones))
    ensures forall k :: HasKey(CreateDict(names, cs, bones), k) <==> k in {"ObjectName", "DynamicBone", "Collider"}
    ensures Get(CreateDict(names, cs, bones), "ObjectName") == Some(JStr(names[0]))
    ensures Get(CreateDict(names, cs, bones), "DynamicBone") == Some(JObj(BonesDict(names, cs, bones)))
    ensures Get(CreateDict(names, cs, bones), "Collider") == Some(JObj(CollidersDict(names, cs)))
  {
    var d := CreateDict(names, cs, bones);
    assert d[0].0 == "ObjectName" && d[1].0 == "DynamicBone" && d[2].0 == "Collider";
  }
}
