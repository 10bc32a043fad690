/**
 * The serialised fields of a `DynamicBone`, one constructor per JSON key,
 * with the projection of a chain onto a field and the assignment of a field.
 * Export writes the fields in `AllFields` order; import's `switch` dispatches
 * on `FieldOf`.
 */
module Fields {
  import opened Wrappers
  import opened Components

  datatype Field =
    | RootField | UpdateRateField | UpdateModeField
    | DampingField | DampingDistribField
    | ElasticityField | ElasticityDistribField
    | StiffnessField | StiffnessDistribField
    | InertField | InertDistribField
    | RadiusField | RadiusDistribField
    | EndLengthField | EndOffsetField | GravityField | ForceField
    | CollidersField | ExclusionsField
    | FreezeAxisField | DistantDisableField | ReferenceObjectField | DistanceToObjectField

  /** The fields in the order `DynamicBoneToJson` writes them. */
  const AllFields: seq<Field> := [
    RootField, UpdateRateField, UpdateModeField,
    DampingField, DampingDistribField,
    ElasticityField, ElasticityDistribField,
    StiffnessField, StiffnessDistribField,
    InertField, InertDistribField,
    RadiusField, RadiusDistribField,
    EndLengthField, EndOffsetField, GravityField, ForceField,
    CollidersField, ExclusionsField,
    FreezeAxisField, DistantDisableField, ReferenceObjectField, DistanceToObjectField]

  lemma AllFieldsComplete(f: Field)
    ensures f in AllFields
  {
  }

  /** The JSON key of a field. */
  function FieldName(f: Field): string {
    match f
    case RootField => "Root"
    case UpdateRateField => "UpdateRate"
    case UpdateModeField => "UpdateMode"
    case DampingField => "Damping"
    case DampingDistribField => "DampingDistrib"
    case ElasticityField => "Elasticity"
    case ElasticityDistribField => "ElasticityDistrib"
    case StiffnessField => "Stiffness"
    case StiffnessDistribField => "StiffnessDistrib"
    case InertField => "Inert"
    case InertDistribField => "InertDistrib"
    case RadiusField => "Radius"
    case RadiusDistribField => "RadiusDistrib"
    case EndLengthField => "EndLength"
    case EndOffsetField => "EndOffset"
    case GravityField => "Gravity"
    case ForceField => "Force"
    case CollidersField => "Colliders"
    case ExclusionsField => "Exclusions"
    case FreezeAxisField => "FreezeAxis"
    case DistantDisableField => "DistantDisable"
    case ReferenceObjectField => "ReferenceObject"
    case DistanceToObjectField => "DistanceToObject"
  }

  /** Distinct fields have distinct keys. */
  lemma FieldNamesDistinct()
    ensures forall i, j :: 0 <= i < j < |AllFields| ==> FieldName(AllFields[i]) != FieldName(AllFields[j])
  {
  }

  /** No field is listed twice. */
  lemma AllFieldsDistinct()
    ensures forall i, j :: 0 <= i < j < |AllFields| ==> AllFields[i] != AllFields[j]
  {
    FieldNamesDistinct();
  }

  lemma FieldNameInjective(f: Field, g: Field)
    requires FieldName(f) == FieldName(g)
    ensures f == g
  {
    FieldNamesDistinct();
  }

  /** The first of `fs` whose key is `key`. */
  function FindField(key: string, fs: seq<Field>): (r: Option<Field>)
    ensures r.Some? ==> r.value in fs && FieldName(r.value) == key
    ensures r.None? ==> forall f :: f in fs ==> FieldName(f) != key
  {
    if fs == [] then None
    else if FieldName(fs[0]) == key then Some(fs[0])
    else FindField(key, fs[1..])
  }

  /**
   * The `switch (prop.Key)` of `DeserializeDynamicBone`: the field a key
   * names, or none for a key the switch does not list.
   */
  function FieldOf(key: string): (r: Option<Field>)
    ensures r.Some? ==> FieldName(r.value) == key
    ensures r.None? <==> forall f: Field :: FieldName(f) != key
  {
    var r := FindField(key, AllFields);
    assert r.None? ==> forall f: Field :: FieldName(f) != key by {
      forall f: Field ensures r.None? ==> FieldName(f) != key { AllFieldsComplete(f); }
    }
    r
  }

  /** Every field's key selects that field. */
  lemma FieldOfName(f: Field)
    ensures FieldOf(FieldName(f)) == Some(f)
  {
    var r := FieldOf(FieldName(f));
    FieldNameInjective(r.value, f);
  }

  /** The value a field holds. */
  datatype Value =
    | VNode(node: Option<NodeRef>)
    | VReal(r: real)
    | VMode(mode: UpdateMode)
    | VCurve(curve: Curve)
    | VVec(vec: Vec3)
    | VColliders(colliders: seq<Option<ColliderRef>>)
    | VNodes(nodes: seq<Option<NodeRef>>)
    | VAxis(axis: FreezeAxis)
    | VBool(b: bool)

  /** The value of a field of a chain. */
  function Project(ch: Chain, f: Field): Value {
    match f
    case RootField => VNode(ch.root)
    case UpdateRateField => VReal(ch.updateRate)
    case UpdateModeField => VMode(ch.updateMode)
    case DampingField => VReal(ch.damping)
    case DampingDistribField => VCurve(ch.dampingDistrib)
    case ElasticityField => VReal(ch.elasticity)
    case ElasticityDistribField => VCurve(ch.elasticityDistrib)
    case StiffnessField => VReal(ch.stiffness)
    case StiffnessDistribField => VCurve(ch.stiffnessDistrib)
    case InertField => VReal(ch.inert)
    case InertDistribField => VCurve(ch.inertDistrib)
    case RadiusField => VReal(ch.radius)
    case RadiusDistribField => VCurve(ch.radiusDistrib)
    case EndLengthField => VReal(ch.endLength)
    case EndOffsetField => VVec(ch.endOffset)
    case GravityField => VVec(ch.gravity)
    case ForceField => VVec(ch.force)
    case CollidersField => VColliders(ch.colliders)
    case ExclusionsField => VNodes(ch.exclusions)
    case FreezeAxisField => VAxis(ch.freezeAxis)
    case DistantDisableField => VBool(ch.distantDisable)
    case ReferenceObjectField => VNode(ch.referenceObject)
    case DistanceToObjectField => VReal(ch.distanceToObject)
  }

  /** The kind of value a field holds. */
  predicate Fits(f: Field, v: Value) {
    match f
    case RootField | ReferenceObjectField => v.VNode?
    case UpdateRateField | DampingField | ElasticityField | StiffnessField | InertField
      | RadiusField | EndLengthField | DistanceToObjectField => v.VReal?
    case UpdateModeField => v.VMode?
    case DampingDistribField | ElasticityDistribField | StiffnessDistribField
      | InertDistribField | RadiusDistribField => v.VCurve?
    case EndOffsetField | GravityField | ForceField => v.VVec?
    case CollidersField => v.VColliders?
    case ExclusionsField => v.VNodes?
    case FreezeAxisField => v.VAxis?
    case DistantDisableField => v.VBool?
  }

  /** Every field's value has that field's kind. */
  lemma ProjectFits(ch: Chain, f: Field)
    ensures Fits(f, Project(ch, f))
  {
  }

  /** The field assignment of one `case` of the import's `switch`. */
  function Assign(ch: Chain, f: Field, v: Value): (r: Chain)
    requires Fits(f, v)
    ensures Project(r, f) == v
    ensures forall g :: g != f ==> Project(r, g) == Project(ch, g)
  {
    match f
    case RootField => ch.(root := v.node)
    case UpdateRateField => ch.(updateRate := v.r)
    case UpdateModeField => ch.(updateMode := v.mode)
    case DampingField => ch.(damping := v.r)
    case DampingDistribField => ch.(dampingDistrib := v.curve)
    case ElasticityField => ch.(elasticity := v.r)
    case ElasticityDistribField => ch.(elasticityDistrib := v.curve)
    case StiffnessField => ch.(stiffness := v.r)
    case StiffnessDistribField => ch.(stiffnessDistrib := v.curve)
    case InertField => ch.(inert := v.r)
    case InertDistribField => ch.(inertDistrib := v.curve)
    case RadiusField => ch.(radius := v.r)
    case RadiusDistribField => ch.(radiusDistrib := v.curve)
    case EndLengthField => ch.(endLength := v.r)
    case EndOffsetField => ch.(endOffset := v.vec)
    case GravityField => ch.(gravity := v.vec)
    case ForceField => ch.(force := v.vec)
    case CollidersField => ch.(colliders := v.colliders)
    case ExclusionsField => ch.(exclusions := v.nodes)
    case FreezeAxisField => ch.(freezeAxis := v.axis)
    case DistantDisableField => ch.(distantDisable := v.b)
    case ReferenceObjectField => ch.(referenceObject := v.node)
    case DistanceToObjectField => ch.(distanceToObject := v.r)
  }

  /** Chains that agree on every field agree on fields root to elasticity. */
  lemma AgreeDynamics(a: Chain, b: Chain)
    requires forall f :: Project(a, f) == Project(b, f)
    ensures a.root == b.root
    ensures a.updateRate == b.updateRate
    ensures a.updateMode == b.updateMode
    ensures a.damping == b.damping
    ensures a.dampingDistrib == b.dampingDistrib
    ensures a.elasticity == b.elasticity
  {
    assert a.root == b.root by { assert Project(a, RootField) == Project(b, RootField); }
    assert a.updateRate == b.updateRate by { assert Project(a, UpdateRateField) == Project(b, UpdateRateField); }
    assert a.updateMode == b.updateMode by { assert Project(a, UpdateModeField) == Project(b, UpdateModeField); }
    assert a.damping == b.damping by { assert Project(a, DampingField) == Project(b, DampingField); }
    assert a.dampingDistrib == b.dampingDistrib by { assert Project(a, DampingDistribField) == Project(b, DampingDistribField); }
    assert a.elasticity == b.elasticity by { assert Project(a, ElasticityField) == Project(b, ElasticityField); }
  }

  /** Chains that agree on every field agree on fields elasticityDistrib to radius. */
  lemma AgreeDistribs(a: Chain, b: Chain)
    requires forall f :: Project(a, f) == Project(b, f)
    ensures a.elasticityDistrib == b.elasticityDistrib
    ensures a.stiffness == b.stiffness
    ensures a.stiffnessDistrib == b.stiffnessDistrib
    ensures a.inert == b.inert
    ensures a.inertDistrib == b.inertDistrib
    ensures a.radius == b.radius
  {
    assert a.elasticityDistrib == b.elasticityDistrib by { assert Project(a, ElasticityDistribField) == Project(b, ElasticityDistribField); }
    assert a.stiffness == b.stiffness by { assert Project(a, StiffnessField) == Project(b, StiffnessField); }
    assert a.stiffnessDistrib == b.stiffnessDistrib by { assert Project(a, StiffnessDistribField) == Project(b, StiffnessDistribField); }
    assert a.inert == b.inert by { assert Project(a, InertField) == Project(b, InertField); }
    assert a.inertDistrib == b.inertDistrib by { assert Project(a, InertDistribField) == Project(b, InertDistribField); }
    assert a.radius == b.radius by { assert Project(a, RadiusField) == Project(b, RadiusField); }
  }

  /** Chains that agree on every field agree on fields radiusDistrib to colliders. */
  lemma AgreeShape(a: Chain, b: Chain)
    requires forall f :: Project(a, f) == Project(b, f)
    ensures a.radiusDistrib == b.radiusDistrib
    ensures a.endLength == b.endLength
    ensures a.endOffset == b.endOffset
    ensures a.gravity == b.gravity
    ensures a.force == b.force
    ensures a.colliders == b.colliders
  {
    assert a.radiusDistrib == b.radiusDistrib by { assert Project(a, RadiusDistribField) == Project(b, RadiusDistribField); }
    assert a.endLength == b.endLength by { assert Project(a, EndLengthField) == Project(b, EndLengthField); }
    assert a.endOffset == b.endOffset by { assert Project(a, EndOffsetField) == Project(b, EndOffsetField); }
    assert a.gravity == b.gravity by { assert Project(a, GravityField) == Project(b, GravityField); }
    assert a.force == b.force by { assert Project(a, ForceField) == Project(b, ForceField); }
    assert a.colliders == b.colliders by { assert Project(a, CollidersField) == Project(b, CollidersField); }
  }

  /** Chains that agree on every field agree on fields exclusions to distanceToObject. */
  lemma AgreeTargets(a: Chain, b: Chain)
    requires forall f :: Project(a, f) == Project(b, f)
    ensures a.exclusions == b.exclusions
    ensures a.freezeAxis == b.freezeAxis
    ensures a.distantDisable == b.distantDisable
    ensures a.referenceObject == b.referenceObject
    ensures a.distanceToObject == b.distanceToObject
  {
    assert a.exclusions == b.exclusions by { assert Project(a, ExclusionsField) == Project(b, ExclusionsField); }
    assert a.freezeAxis == b.freezeAxis by { assert Project(a, FreezeAxisField) == Project(b, FreezeAxisField); }
    assert a.distantDisable == b.distantDisable by { assert Project(a, DistantDisableField) == Project(b, DistantDisableField); }
    assert a.referenceObject == b.referenceObject by { assert Project(a, ReferenceObjectField) == Project(b, ReferenceObjectField); }
    assert a.distanceToObject == b.distanceToObject by { assert Project(a, DistanceToObjectField) == Project(b, DistanceToObjectField); }
  }

  /** Two chains that agree on every field are the same chain. */
  lemma ProjectExtensional(a: Chain, b: Chain)
    requires forall f :: Project(a, f) == Project(b, f)
    ensures a == b
  {
    AgreeDynamics(a, b);
    AgreeDistribs(a, b);
    AgreeShape(a, b);
    AgreeTargets(a, b);
  }

}
