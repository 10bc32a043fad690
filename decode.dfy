/**
 * The token conversions of the import: `(float)`, `(bool)`, `ParseEnum`,
 * `deserializeVector3`, `deserializeAnimationCurve`, the name lookups of
 * `collectColliders` and of the `Exclusions` selection, and the field
 * `switch` of `DeserializeDynamicBone` applied to a chain.
 */
module Decode {
  import opened Wrappers
  import opened Json
  import opened Components
  import opened Fields
  import Names

  /** `(float)token`: a number converts; any other token fails the conversion. */
  function FloatOf(tok: Json): (r: Result<real, Failure>)
    ensures r.Ok? <==> tok.JNum?
    ensures r.Ok? ==> tok == JNum(r.value)
  {
    if tok.JNum? then Ok(tok.n) else Err(InvalidCast)
  }

  /** `(bool)token`: a boolean converts; any other token fails the conversion. */
  function BoolOf(tok: Json): (r: Result<bool, Failure>)
    ensures r.Ok? <==> tok.JBool?
    ensures r.Ok? ==> tok == JBool(r.value)
  {
    if tok.JBool? then Ok(tok.b) else Err(InvalidCast)
  }

  /** A member read through the object indexer: a missing member is a null reference. */
  function Present(o: Option<Json>): (r: Result<Json, Failure>)
    ensures r.Ok? <==> o.Some?
    ensures r.Err? ==> r.error == NullReference
  {
    if o.Some? then Ok(o.value) else Err(NullReference)
  }

  /** The position of the first member called `s`, or `|members|` when none is. */
  function MemberIndex(members: seq<string>, s: string): (i: nat)
    ensures i <= |members|
    ensures i < |members| ==> members[i] == s
    ensures forall j :: 0 <= j < i ==> members[j] != s
  {
    if members == [] then 0
    else if members[0] == s then 0
    else 1 + MemberIndex(members[1..], s)
  }

  /** An integral real and its value. */
  predicate IsIndex(n: real, bound: nat) {
    n == n.Floor as real && 0 <= n.Floor < bound
  }

  /**
   * `Enum.Parse(typeof(T), (string)token)` over an enumeration whose
   * members, by underlying value, are `members`: a member name gives its
   * value, and so does a number token (its string form is a numeral);
   * a null token is a null argument; a string or boolean that names no
   * member is refused; an array or object cannot be cast to a string.
   */
  function ParseEnum(members: seq<string>, tok: Json): (r: Result<nat, Failure>)
    ensures r.Ok? ==> r.value < |members|
    ensures tok.JStr? ==> (r.Ok? <==> tok.s in members) && (r.Ok? ==> members[r.value] == tok.s)
    ensures tok.JStr? && tok.s !in members ==> r == Err(UnknownEnumMember)
    ensures tok.JNum? ==> (r.Ok? <==> IsIndex(tok.n, |members|)) && (r.Ok? ==> r.value as real == tok.n)
    ensures tok.JNull? ==> r == Err(NullReference)
    ensures tok.JArr? || tok.JObj? ==> r == Err(InvalidCast)
  {
    match tok
    case JNull => Err(NullReference)
    case JStr(s) =>
      var i := MemberIndex(members, s);
      if i < |members| then Ok(i) else Err(UnknownEnumMember)
    case JNum(n) => if IsIndex(n, |members|) then Ok(n.Floor as nat) else Err(UnknownEnumMember)
    case JBool(_) => Err(UnknownEnumMember)
    case _ => Err(InvalidCast)
  }

  /** No member name repeats (true of every enumeration). */
  predicate Distinct(members: seq<string>) {
    forall i, j :: 0 <= i < j < |members| ==> members[i] != members[j]
  }

  /** The member names of every enumeration the component uses are distinct. */
  lemma EnumNamesDistinct()
    ensures Distinct(UpdateModeNames) && Distinct(FreezeAxisNames)
    ensures Distinct(DirectionNames) && Distinct(BoundNames)
  {
  }

  /** Parsing a member's name, or its value as a number, gives back that member. */
  lemma ParseEnumMember(members: seq<string>, v: nat)
    requires Distinct(members)
    requires v < |members|
    ensures ParseEnum(members, JStr(members[v])) == Ok(v)
    ensures ParseEnum(members, JNum(v as real)) == Ok(v)
  {
    var i := MemberIndex(members, members[v]);
    assert members[i] == members[v];
  }

  /** `token[i]`: an array element; past the end is out of range; other tokens have no elements. */
  function At(tok: Json, i: nat): (r: Result<Json, Failure>)
    ensures r.Ok? <==> tok.JArr? && i < |tok.items|
    ensures r.Ok? ==> r.value == tok.items[i]
    ensures tok.JArr? && i >= |tok.items| ==> r == Err(IndexOutOfRange)
  {
    if !tok.JArr? then Err(InvalidCast)
    else if i < |tok.items| then Ok(tok.items[i])
    else Err(IndexOutOfRange)
  }

  /** `deserializeVector3`: the first three elements, converted to floats left to right. */
  function Vector3Of(tok: Json): (r: Result<Vec3, Failure>)
    ensures r.Ok? <==> (tok.JArr? && |tok.items| >= 3
                        && tok.items[0].JNum? && tok.items[1].JNum? && tok.items[2].JNum?)
    ensures r.Ok? ==> r.value == Vec3(tok.items[0].n, tok.items[1].n, tok.items[2].n)
  {
    var t0 :- At(tok, 0);
    var x :- FloatOf(t0);
    var t1 :- At(tok, 1);
    var y :- FloatOf(t1);
    var t2 :- At(tok, 2);
    var z :- FloatOf(t2);
    Ok(Vec3(x, y, z))
  }

  /** `deserializeAnimationCurve`: an array holds the keyframes; anything else cannot be read as a curve. */
  function CurveOf(tok: Json): (r: Result<Curve, Failure>)
    ensures r.Ok? <==> tok.JArr?
    ensures r.Ok? ==> r.value == tok.items
  {
    if tok.JArr? then Ok(tok.items) else Err(Unreadable)
  }

  /**
   * The children the group loop enumerates, each then cast to an object:
   * an array its elements, a scalar none; the children of a non-empty
   * object are properties, which fail that cast.
   */
  function Elements(tok: Json): (r: Result<seq<Json>, Failure>)
    ensures tok.JArr? ==> r == Ok(tok.items)
    ensures r.Err? <==> tok.JObj? && tok.fields != []
    ensures r.Ok? && !tok.JArr? ==> r.value == []
  {
    match tok
    case JArr(items) => Ok(items)
    case JObj(fields) => if fields == [] then Ok([]) else Err(InvalidCast)
    case _ => Ok([])
  }

  /**
   * The tokens `transforms.get` casts when it is selected over the children
   * of a token: an array's elements; an object's children are properties,
   * which the string conversion unwraps to their values; a scalar has none.
   */
  function NameTokens(tok: Json): (toks: seq<Json>)
    ensures tok.JArr? ==> toks == tok.items
    ensures tok.JObj? ==> |toks| == |tok.fields| && forall i :: 0 <= i < |toks| ==> toks[i] == tok.fields[i].1
    ensures !tok.JArr? && !tok.JObj? ==> toks == []
  {
    match tok
    case JArr(items) => items
    case JObj(fields) => seq(|fields|, i requires 0 <= i < |fields| => fields[i].1)
    case _ => []
  }

  /** Whether a name token that casts to a string resolves to no node: it is null or not indexed. */
  predicate Unresolved(tr: map<string, NodeId>, tok: Json)
    requires Names.StringOf(tok).Ok?
  {
    Names.StringOf(tok).value.None? || Names.StringOf(tok).value.value !in tr
  }

  /** `transforms.get` on each name in turn, stopping at the first that fails. */
  function NodesOf(tr: map<string, NodeId>, toks: seq<Json>): (r: Result<seq<Option<NodeId>>, Failure>)
    ensures r.Ok? <==> forall i :: 0 <= i < |toks| ==> Names.Get(tr, toks[i]).Ok?
    ensures r.Ok? ==> (|r.value| == |toks|
      && forall i :: 0 <= i < |toks| ==> r.value[i] == Names.Get(tr, toks[i]).value)
    decreases |toks|
  {
    if toks == [] then Ok([])
    else
      var n :- Names.Get(tr, toks[0]);
      var rest :- NodesOf(tr, toks[1..]);
      assert forall i :: 1 <= i < |toks| ==> toks[i] == toks[1..][i - 1];
      Ok([n] + rest)
  }

  /** The `Exclusions` selection: each name resolved to its node, or null. */
  function ExclusionsOf(tr: map<string, NodeId>, tok: Json): (r: Result<seq<Option<NodeId>>, Failure>)
    ensures tok.JArr? ==> r == NodesOf(tr, tok.items)
    ensures r.Ok? <==> forall i :: 0 <= i < |NameTokens(tok)| ==> Names.StringOf(NameTokens(tok)[i]).Ok?
    ensures r.Ok? ==> (|r.value| == |NameTokens(tok)|
      && forall i :: 0 <= i < |NameTokens(tok)| ==>
           (r.value[i].None? <==> Unresolved(tr, NameTokens(tok)[i])))
  {
    NodesOf(tr, NameTokens(tok))
  }

  /** `GetComponent<DynamicBoneColliderBase>()` of a resolved node, or null. */
  function ColliderAt(cs: seq<Collider>, n: Option<NodeId>): Option<ColliderId> {
    if n.Some? then FirstColliderOf(cs, n.value) else None
  }

  /**
   * `collectColliders`: each name resolved to the first collider of its
   * node; null when the name does not resolve or its node has no collider.
   */
  function CollidersOf(tr: map<string, NodeId>, cs: seq<Collider>, tok: Json): (r: Result<seq<Option<ColliderId>>, Failure>)
    ensures r.Ok? <==> forall i :: 0 <= i < |NameTokens(tok)| ==> Names.StringOf(NameTokens(tok)[i]).Ok?
    ensures r.Ok? ==> (|r.value| == |NameTokens(tok)|
      && forall i :: 0 <= i < |NameTokens(tok)| ==>
           (r.value[i].None? <==> Unresolved(tr, NameTokens(tok)[i])
                                  || FirstColliderOf(cs, tr[Names.StringOf(NameTokens(tok)[i]).value.value]).None?))
    ensures r.Ok? ==> forall i :: 0 <= i < |r.value| && r.value[i].Some? ==> r.value[i].value < |cs|
  {
    var ns :- NodesOf(tr, NameTokens(tok));
    Ok(seq(|ns|, i requires 0 <= i < |ns| => ColliderAt(cs, ns[i])))
  }

  /** Every collider reference of `ch` is one of a list of `n` colliders. */
  predicate CollidersWithin(ch: Chain, n: nat) {
    forall i :: 0 <= i < |ch.colliders| && ch.colliders[i].Some? ==>
      ch.colliders[i].value.LocalCollider? && ch.colliders[i].value.collider < n
  }

  /** The conversion one `case` of the field `switch` applies to its value. */
  function DecodeValue(tr: map<string, NodeId>, cs: seq<Collider>, f: Field, tok: Json): (r: Result<Value, Failure>)
    ensures r.Ok? ==> Fits(f, r.value)
    ensures r.Ok? && f == CollidersField ==>
      forall i :: 0 <= i < |r.value.colliders| && r.value.colliders[i].Some? ==>
        r.value.colliders[i].value.LocalCollider? && r.value.colliders[i].value.collider < |cs|
  {
    match f
    case RootField | ReferenceObjectField =>
      var n :- Names.Get(tr, tok); Ok(VNode(LocalNode(n)))
    case UpdateRateField | DampingField | ElasticityField | StiffnessField | InertField
      | RadiusField | EndLengthField | DistanceToObjectField =>
      var x :- FloatOf(tok); Ok(VReal(x))
    case UpdateModeField =>
      var v :- ParseEnum(UpdateModeNames, tok); Ok(VMode(UpdateModeOf(v)))
    case DampingDistribField | ElasticityDistribField | StiffnessDistribField
      | InertDistribField | RadiusDistribField =>
      var c :- CurveOf(tok); Ok(VCurve(c))
    case EndOffsetField | GravityField | ForceField =>
      var v :- Vector3Of(tok); Ok(VVec(v))
    case CollidersField =>
      var refs :- CollidersOf(tr, cs, tok); Ok(VColliders(LocalColliders(refs)))
    case ExclusionsField =>
      var ns :- ExclusionsOf(tr, tok); Ok(VNodes(LocalNodes(ns)))
    case FreezeAxisField =>
      var v :- ParseEnum(FreezeAxisNames, tok); Ok(VAxis(FreezeAxisOf(v)))
    case DistantDisableField =>
      var b :- BoolOf(tok); Ok(VBool(b))
  }

  /** Assigning a field keeps the collider references in range when the value assigned to `m_Colliders` is. */
  lemma AssignWithin(ch: Chain, f: Field, v: Value, n: nat)
    requires Fits(f, v)
    requires f == CollidersField ==>
      forall i :: 0 <= i < |v.colliders| && v.colliders[i].Some? ==>
        v.colliders[i].value.LocalCollider? && v.colliders[i].value.collider < n
    ensures CollidersWithin(ch, n) ==> CollidersWithin(Assign(ch, f, v), n)
  {
    var r := Assign(ch, f, v);
    if f == CollidersField {
      assert r.colliders == v.colliders by { assert Project(r, CollidersField) == v; }
    } else {
      assert r.colliders == ch.colliders by { assert Project(r, CollidersField) == Project(ch, CollidersField); }
    }
  }

  /**
   * One iteration of the property loop of `DeserializeDynamicBone`: a
   * known key assigns its field and no other; an unknown key changes
   * nothing.
   */
  function ApplyProp(tr: map<string, NodeId>, cs: seq<Collider>, ch: Chain, prop: (string, Json)): (r: Result<Chain, Failure>)
    ensures FieldOf(prop.0).None? ==> r == Ok(ch)
    ensures r.Ok? ==> forall g :: FieldName(g) != prop.0 ==> Project(r.value, g) == Project(ch, g)
    ensures r.Ok? && CollidersWithin(ch, |cs|) ==> CollidersWithin(r.value, |cs|)
  {
    match FieldOf(prop.0)
    case None => Ok(ch)
    case Some(f) =>
      var v :- DecodeValue(tr, cs, f, prop.1);
      AssignWithin(ch, f, v, |cs|);
      Ok(Assign(ch, f, v))
  }

  /** The chain reached, and the exception that stopped the property loop, if any. */
  datatype Outcome = Outcome(chain: Chain, fault: Option<Failure>)

  /** The property loop of `DeserializeDynamicBone`, from the chain `ch`. */
  function ApplyProps(tr: map<string, NodeId>, cs: seq<Collider>, ch: Chain, props: seq<(string, Json)>): Outcome
    decreases |props|
  {
    if props == [] then Outcome(ch, None)
    else match ApplyProp(tr, cs, ch, props[0])
      case Err(e) => Outcome(ch, Some(e))
      case Ok(ch') => ApplyProps(tr, cs, ch', props[1..])
  }

  /** The loop over `a + b` is the loop over `a`, then, unless it stopped, the loop over `b`. */
  lemma {:induction false} ApplyPropsAppend(tr: map<string, NodeId>, cs: seq<Collider>, ch: Chain,
                                             a: seq<(string, Json)>, b: seq<(string, Json)>)
    ensures var o := ApplyProps(tr, cs, ch, a);
      ApplyProps(tr, cs, ch, a + b) == if o.fault.None? then ApplyProps(tr, cs, o.chain, b) else o
    decreases |a|
  {
    if a != [] {
      assert (a + b)[0] == a[0];
      assert (a + b)[1..] == a[1..] + b;
      match ApplyProp(tr, cs, ch, a[0])
      case Err(_) =>
      case Ok(ch') => ApplyPropsAppend(tr, cs, ch', a[1..], b);
    } else {
      assert a + b == b;
    }
  }

  /**
   * A field whose key the component does not carry keeps the value it had,
   * whether the loop completes or stops at an exception.
   */
  lemma {:induction false} AbsentKeyKept(tr: map<string, NodeId>, cs: seq<Collider>, ch: Chain,
                                          props: seq<(string, Json)>, f: Field)
    requires !HasKey(props, FieldName(f))
    ensures Project(ApplyProps(tr, cs, ch, props).chain, f) == Project(ch, f)
    decreases |props|
  {
    if props != [] {
      assert props[0].0 != FieldName(f);
      match ApplyProp(tr, cs, ch, props[0])
      case Err(_) =>
      case Ok(ch') =>
        forall i | 0 <= i < |props[1..]| ensures props[1..][i].0 != FieldName(f) {
          assert props[1..][i] == props[i + 1];
        }
        AbsentKeyKept(tr, cs, ch', props[1..], f);
    }
  }

  /** A component that carries only keys the `switch` does not list changes nothing. */
  lemma {:induction false} UnknownKeysIgnored(tr: map<string, NodeId>, cs: seq<Collider>, ch: Chain,
                                               props: seq<(string, Json)>)
    requires forall i :: 0 <= i < |props| ==> FieldOf(props[i].0).None?
    ensures ApplyProps(tr, cs, ch, props) == Outcome(ch, None)
    decreases |props|
  {
    if props != [] {
      assert forall i :: 0 <= i < |props[1..]| ==> props[1..][i] == props[i + 1];
      UnknownKeysIgnored(tr, cs, ch, props[1..]);
    }
  }

  /** `ParseEnum` of a named member of a collider object. */
  function MemberEnum(props: Dict<Json>, k: string, members: seq<string>): (r: Result<nat, Failure>)
    ensures r.Ok? ==> r.value < |members|
  {
    var tok :- Present(Get(props, k));
    ParseEnum(members, tok)
  }

  /** `deserializeVector3` of a named member of a collider object. */
  function MemberVector(props: Dict<Json>, k: string): Result<Vec3, Failure> {
    var tok :- Present(Get(props, k));
    Vector3Of(tok)
  }

  /** `(float)` of a named member of a collider object. */
  function MemberFloat(props: Dict<Json>, k: string): Result<real, Failure> {
    var tok :- Present(Get(props, k));
    FloatOf(tok)
  }

  /**
   * `Type.GetType((string)props["Type"] + ",Assembly-CSharp")`: the two
   * collider classes by name, as fresh components have them; an array or
   * object cannot be cast to a string; any other value names no class.
   */
  function ShapeOf(tok: Option<Json>): (r: Result<Shape, Failure>)
    ensures r.Ok? <==> tok == Some(JStr(ShapeTypeName(Capsule(0.5, 0.0)))) || tok == Some(JStr(ShapeTypeName(Plane)))
    ensures r.Ok? ==> tok == Some(JStr(ShapeTypeName(r.value)))
    ensures r.Err? && tok.Some? && (tok.value.JArr? || tok.value.JObj?) ==> r.error == InvalidCast
  {
    if tok.Some? && (tok.value.JArr? || tok.value.JObj?) then Err(InvalidCast)
    else if tok == Some(JStr("DynamicBoneCollider")) then Ok(Capsule(0.5, 0.0))
    else if tok == Some(JStr("DynamicBonePlaneCollider")) then Ok(Plane)
    else Err(UnknownType)
  }

  /** The collider reached, and the exception that stopped `DeserializeCollider`, if any. */
  datatype ColliderOutcome = ColliderOutcome(collider: Collider, fault: Option<Failure>)

  /**
   * The assignments of `DeserializeCollider` after the component is added:
   * direction, center and bound, then radius and height of a capsule, each
   * conversion able to stop the rest.
   */
  function SetColliderFields(props: Dict<Json>, c: Collider): (o: ColliderOutcome)
    ensures o.collider.owner == c.owner && o.collider.shape.Capsule? == c.shape.Capsule?
  {
    match MemberEnum(props, "Direction", DirectionNames)
    case Err(e) => ColliderOutcome(c, Some(e))
    case Ok(d) => SetFromCenter(props, c.(direction := DirectionOf(d)))
  }

  /** The assignments from `m_Center` on. */
  function SetFromCenter(props: Dict<Json>, c: Collider): (o: ColliderOutcome)
    ensures o.collider.owner == c.owner && o.collider.shape.Capsule? == c.shape.Capsule?
  {
    match MemberVector(props, "Center")
    case Err(e) => ColliderOutcome(c, Some(e))
    case Ok(v) => SetFromBound(props, c.(center := v))
  }

  /** The assignments from `m_Bound` on; only a capsule goes on to its dimensions. */
  function SetFromBound(props: Dict<Json>, c: Collider): (o: ColliderOutcome)
    ensures o.collider.owner == c.owner && o.collider.shape.Capsule? == c.shape.Capsule?
  {
    match MemberEnum(props, "Bound", BoundNames)
    case Err(e) => ColliderOutcome(c, Some(e))
    case Ok(b) =>
      var c3 := c.(bound := BoundOf(b));
      if !c3.shape.Capsule? then ColliderOutcome(c3, None) else SetFromRadius(props, c3)
  }

  /** The assignments of a capsule's `m_Radius` and `m_Height`. */
  function SetFromRadius(props: Dict<Json>, c: Collider): (o: ColliderOutcome)
    requires c.shape.Capsule?
    ensures o.collider.owner == c.owner && o.collider.shape.Capsule?
  {
    match MemberFloat(props, "Radius")
    case Err(e) => ColliderOutcome(c, Some(e))
    case Ok(r) => SetHeight(props, c.(shape := c.shape.(radius := r)))
  }

  /** The assignment of a capsule's `m_Height`. */
  function SetHeight(props: Dict<Json>, c: Collider): (o: ColliderOutcome)
    requires c.shape.Capsule?
    ensures o.collider.owner == c.owner && o.collider.shape.Capsule?
  {
    match MemberFloat(props, "Height")
    case Err(e) => ColliderOutcome(c, Some(e))
    case Ok(h) => ColliderOutcome(c.(shape := c.shape.(height := h)), None)
  }

  /** The component `DeserializeCollider` adds, if its class resolves, and the exception it stops at. */
  datatype Added = Added(collider: Option<Collider>, fault: Option<Failure>)

  /** `DeserializeCollider` of the object `props` onto the node `t`. */
  function DecodeCollider(props: Dict<Json>, t: NodeId): (a: Added)
    ensures a.collider.None? <==> ShapeOf(Get(props, "Type")).Err?
    ensures a.collider.None? ==> a.fault == Some(ShapeOf(Get(props, "Type")).error)
    ensures a.collider.Some? ==> (a.collider.value.owner == t
      && a.collider.value.shape.Capsule? == (Get(props, "Type") == Some(JStr(ShapeTypeName(Capsule(0.5, 0.0))))))
  {
    match ShapeOf(Get(props, "Type"))
    case Err(e) => Added(None, Some(e))
    case Ok(s) =>
      var o := SetColliderFields(props, NewCollider(t, s));
      Added(Some(o.collider), o.fault)
  }

  /**
   * A collider `DeserializeCollider` completes has Direction, Center and
   * Bound from the object; a capsule also has Radius and Height from it.
   */
  lemma DecodeColliderComplete(props: Dict<Json>, t: NodeId)
    requires DecodeCollider(props, t).fault.None?
    ensures var c := DecodeCollider(props, t).collider.value;
      && MemberEnum(props, "Direction", DirectionNames) == Ok(DirectionValue(c.direction))
      && MemberVector(props, "Center") == Ok(c.center)
      && MemberEnum(props, "Bound", BoundNames) == Ok(BoundValue(c.bound))
      && (c.shape.Capsule? ==> (MemberFloat(props, "Radius") == Ok(c.shape.radius)
                                && MemberFloat(props, "Height") == Ok(c.shape.height)))
  {
  }

  /** The property loop only ever stores references to the colliders it was given. */
  lemma {:induction false} ApplyPropsWithin(tr: map<string, NodeId>, cs: seq<Collider>, ch: Chain,
                                             props: seq<(string, Json)>)
    requires CollidersWithin(ch, |cs|)
    ensures CollidersWithin(ApplyProps(tr, cs, ch, props).chain, |cs|)
    decreases |props|
  {
    if props != [] {
      match ApplyProp(tr, cs, ch, props[0])
      case Err(_) =>
      case Ok(ch') => ApplyPropsWithin(tr, cs, ch', props[1..]);
    }
  }
}
