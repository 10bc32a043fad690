/**
 * Export and import are inverse: what `DynamicBoneToJson` and
 * `ColliderToJson` write, read back by `DeserializeDynamicBone` and
 * `DeserializeCollider` onto fresh components, gives back the components
 * written. A chain's references are written as names and looked up again
 * in the importing hierarchy's index, so in general they read back as the
 * node carrying that name, or null (`Resolved`). They read back unchanged
 * when node names are unique (which `process` demands), every reference is
 * into the hierarchy, and every collider a chain refers to is the first on
 * its node (which is what `GetComponent` finds).
 */
module RoundTrip {
  import opened Wrappers
  import opened Json
  import opened Components
  import opened Fields
  import opened Export
  import opened Decode
  import Names

  /** `deserializeVector3` reads back what `ToArray` writes. */
  lemma VectorRoundTrip(v: Vec3)
    ensures Vector3Of(ToArray(v)) == Ok(v)
  {
  }

  /** The names of a hierarchy without duplicates are the names of distinct nodes. */
  lemma UniqueNames(names: seq<string>)
    requires Names.Duplicates(names) == {}
    ensures forall i, j :: 0 <= i < j < |names| ==> names[i] != names[j]
  {
    forall i, j | 0 <= i < j < |names| ensures names[i] != names[j] {
      assert names[i] !in Names.Duplicates(names);
    }
  }

  /** A written node reference read back through the index `tr`: the node indexed under its name, or null. */
  function ResolveNode(tr: map<string, NodeId>, names: seq<string>, r: Option<NodeRef>): Option<NodeRef>
    requires RefWithin(|names|, r)
  {
    if r.Some? && RefName(names, r.value) in tr then Some(Local(tr[RefName(names, r.value)])) else None
  }

  function ResolveNodes(tr: map<string, NodeId>, names: seq<string>, ns: seq<Option<NodeRef>>): (r: seq<Option<NodeRef>>)
    requires forall i :: 0 <= i < |ns| ==> RefWithin(|names|, ns[i])
    ensures |r| == |ns| && forall i :: 0 <= i < |ns| ==> r[i] == ResolveNode(tr, names, ns[i])
  {
    seq(|ns|, i requires 0 <= i < |ns| => ResolveNode(tr, names, ns[i]))
  }

  /**
   * A written collider reference read back through `tr`: the first collider
   * on the node indexed under its name, or null.
   */
  function ResolveCollider(tr: map<string, NodeId>, names: seq<string>, cs: seq<Collider>, r: Option<ColliderRef>): Option<ColliderRef>
    requires forall i :: 0 <= i < |cs| ==> cs[i].owner < |names|
    requires r.Some? && r.value.LocalCollider? ==> r.value.collider < |cs|
  {
    if r.Some? && ColliderRefName(names, cs, r.value) in tr
    then LocalColliderOf(FirstColliderOf(cs, tr[ColliderRefName(names, cs, r.value)]))
    else None
  }

  function ResolveColliders(tr: map<string, NodeId>, names: seq<string>, cs: seq<Collider>, refs: seq<Option<ColliderRef>>): (r: seq<Option<ColliderRef>>)
    requires forall i :: 0 <= i < |cs| ==> cs[i].owner < |names|
    requires forall i :: 0 <= i < |refs| && refs[i].Some? && refs[i].value.LocalCollider? ==> refs[i].value.collider < |cs|
    ensures |r| == |refs| && forall i :: 0 <= i < |refs| ==> r[i] == ResolveCollider(tr, names, cs, refs[i])
  {
    seq(|refs|, i requires 0 <= i < |refs| => ResolveCollider(tr, names, cs, refs[i]))
  }

  /** The chain an import through `tr` rebuilds from what `DynamicBoneToJson` writes for `ch`. */
  function Resolved(tr: map<string, NodeId>, names: seq<string>, cs: seq<Collider>, ch: Chain): Chain
    requires forall i :: 0 <= i < |cs| ==> cs[i].owner < |names|
    requires ChainRefsValid(|names|, cs, ch)
  {
    ch.(root := ResolveNode(tr, names, ch.root),
        colliders := ResolveColliders(tr, names, cs, ch.colliders),
        exclusions := ResolveNodes(tr, names, ch.exclusions),
        referenceObject := ResolveNode(tr, names, ch.referenceObject))
  }

  /** The four fields that hold references to scene objects. */
  predicate IsReference(f: Field) {
    f == RootField || f == CollidersField || f == ExclusionsField || f == ReferenceObjectField
  }

  /** Resolving the references leaves every other field as it was. */
  lemma ResolvedKeeps(tr: map<string, NodeId>, names: seq<string>, cs: seq<Collider>, ch: Chain, f: Field)
    requires forall i :: 0 <= i < |cs| ==> cs[i].owner < |names|
    requires ChainRefsValid(|names|, cs, ch)
    requires !IsReference(f)
    ensures Project(Resolved(tr, names, cs, ch), f) == Project(ch, f)
  {
  }

  /** A field `DynamicBoneToJson` leaves out reads back as the fresh component's value. */
  lemma UnwrittenResolved(tr: map<string, NodeId>, names: seq<string>, cs: seq<Collider>, ch: Chain, f: Field)
    requires forall i :: 0 <= i < |cs| ==> cs[i].owner < |names|
    requires ChainRefsValid(|names|, cs, ch)
    requires !Writes(ch, f)
    ensures Project(Resolved(tr, names, cs, ch), f) == Project(NewChain, f)
  {
    WritesIffDiffers(ch, f);
    if !IsReference(f) {
      ResolvedKeeps(tr, names, cs, ch, f);
    } else if f == ExclusionsField {
      assert ch.exclusions == [];
    } 
  }

  /**
   * A written node reference, looked up in any index, converts without
   * exception to the node indexed under the name written, or to null. In
   * particular an object outside the hierarchy whose name is not indexed
   * reads back as null.
   */
  lemma NodeRefBack(tr: map<string, NodeId>, names: seq<string>, r: Option<NodeRef>)
    requires RefWithin(|names|, r)
    ensures Names.Get(tr, NodeName(names, r)).Ok?
    ensures LocalNode(Names.Get(tr, NodeName(names, r)).value) == ResolveNode(tr, names, r)
    ensures r.Some? && r.value.Foreign? && r.value.name !in tr ==> Names.Get(tr, NodeName(names, r)) == Ok(None)
  {
  }

  /** A written `Exclusions` list converts, entry by entry, to its resolution. */
  lemma ExclusionsBack(tr: map<string, NodeId>, names: seq<string>, ns: seq<Option<NodeRef>>)
    requires forall i :: 0 <= i < |ns| ==> RefWithin(|names|, ns[i])
    ensures ExclusionsOf(tr, JArr(NodeNames(names, ns))).Ok?
    ensures LocalNodes(ExclusionsOf(tr, JArr(NodeNames(names, ns))).value) == ResolveNodes(tr, names, ns)
  {
    var toks := NodeNames(names, ns);
    forall i | 0 <= i < |ns| ensures Names.Get(tr, toks[i]).Ok? {
      NodeRefBack(tr, names, ns[i]);
    }
    var r := NodesOf(tr, toks);
    assert r.Ok?;
    forall i | 0 <= i < |ns| ensures LocalNodes(r.value)[i] == ResolveNodes(tr, names, ns)[i] {
      NodeRefBack(tr, names, ns[i]);
    }
  }

  /** A written `Colliders` list converts, entry by entry, to its resolution. */
  lemma CollidersBack(tr: map<string, NodeId>, names: seq<string>, cs: seq<Collider>, refs: seq<Option<ColliderRef>>)
    requires forall i :: 0 <= i < |cs| ==> cs[i].owner < |names|
    requires forall i :: 0 <= i < |refs| && refs[i].Some? && refs[i].value.LocalCollider? ==> refs[i].value.collider < |cs|
    ensures CollidersOf(tr, cs, JArr(ColliderNames(names, cs, refs))).Ok?
    ensures LocalColliders(CollidersOf(tr, cs, JArr(ColliderNames(names, cs, refs))).value) == ResolveColliders(tr, names, cs, refs)
  {
    var toks := ColliderNames(names, cs, refs);
    assert forall i :: 0 <= i < |refs| ==> Names.Get(tr, toks[i]).Ok?;
    var ns := NodesOf(tr, toks);
    assert ns.Ok?;
    var r := CollidersOf(tr, cs, JArr(toks));
    assert r == Ok(seq(|ns.value|, i requires 0 <= i < |ns.value| => ColliderAt(cs, ns.value[i])));
    forall i | 0 <= i < |refs| ensures LocalColliders(r.value)[i] == ResolveColliders(tr, names, cs, refs)[i] {
      assert ns.value[i] == Names.Get(tr, toks[i]).value;
    }
  }

  /** With unique names, a reference to a hierarchy node reads back as that node. */
  lemma NodeRoundTrip(names: seq<string>, n: Option<NodeRef>)
    requires Names.Duplicates(names) == {}
    requires RefWithin(|names|, n) && (n.Some? ==> n.value.Local?)
    ensures ResolveNode(Names.NameIndex(names), names, n) == n
  {
    if n.Some? {
      var m := Names.NameIndex(names);
      var k := names[n.value.node];
      UniqueNames(names);
      assert k in m;
      assert m[k] == n.value.node;
    }
  }

  /** An outside object whose name no hierarchy node carries reads back as null. */
  lemma ForeignRoundTrip(names: seq<string>, name: string)
    requires forall i :: 0 <= i < |names| ==> names[i] != name
    ensures ResolveNode(Names.NameIndex(names), names, Some(Foreign(name))) == None
  {
    assert name !in names;
  }

  /** With unique names, an `Exclusions` list into the hierarchy reads back as written. */
  lemma ExclusionsRoundTrip(names: seq<string>, ns: seq<Option<NodeRef>>)
    requires Names.Duplicates(names) == {}
    requires forall i :: 0 <= i < |ns| ==> RefWithin(|names|, ns[i]) && (ns[i].Some? ==> ns[i].value.Local?)
    ensures ResolveNodes(Names.NameIndex(names), names, ns) == ns
  {
    forall i | 0 <= i < |ns| ensures ResolveNodes(Names.NameIndex(names), names, ns)[i] == ns[i] {
      NodeRoundTrip(names, ns[i]);
    }
  }

  /** A collider list into the hierarchy in which every collider is the one `GetComponent` finds on its node. */
  predicate FirstOnTheirNodes(cs: seq<Collider>, refs: seq<Option<ColliderRef>>) {
    forall i :: 0 <= i < |refs| && refs[i].Some? ==>
      && refs[i].value.LocalCollider?
      && refs[i].value.collider < |cs|
      && FirstColliderOf(cs, cs[refs[i].value.collider].owner) == Some(refs[i].value.collider)
  }

  /** With unique names, a `Colliders` list of first colliders reads back as written. */
  lemma CollidersRoundTrip(names: seq<string>, cs: seq<Collider>, refs: seq<Option<ColliderRef>>)
    requires Names.Duplicates(names) == {}
    requires forall i :: 0 <= i < |cs| ==> cs[i].owner < |names|
    requires FirstOnTheirNodes(cs, refs)
    ensures ResolveColliders(Names.NameIndex(names), names, cs, refs) == refs
  {
    var tr := Names.NameIndex(names);
    forall i | 0 <= i < |refs| ensures ResolveColliders(tr, names, cs, refs)[i] == refs[i] {
      FirstColliderBack(names, cs, refs[i]);
    }
  }

  /** With unique names, a first collider reads back as itself. */
  lemma FirstColliderBack(names: seq<string>, cs: seq<Collider>, r: Option<ColliderRef>)
    requires Names.Duplicates(names) == {}
    requires forall i :: 0 <= i < |cs| ==> cs[i].owner < |names|
    requires r.Some? ==> r.value.LocalCollider? && r.value.collider < |cs|
    requires r.Some? ==> FirstColliderOf(cs, cs[r.value.collider].owner) == Some(r.value.collider)
    ensures ResolveCollider(Names.NameIndex(names), names, cs, r) == r
  {
    if r.Some? {
      var c := r.value.collider;
      var owner := cs[c].owner;
      NodeRoundTrip(names, Some(Local(owner)));
      assert ColliderRefName(names, cs, r.value) == names[owner];
    }
  }

  /** Every enumeration member's name reads back as that member. */
  lemma ModeRoundTrip(m: UpdateMode)
    ensures ParseEnum(UpdateModeNames, JStr(ModeName(m))) == Ok(UpdateModeValue(m))
    ensures UpdateModeOf(UpdateModeValue(m)) == m
  {
    EnumNamesDistinct();
    ParseEnumMember(UpdateModeNames, UpdateModeValue(m));
  }

  lemma AxisRoundTrip(a: FreezeAxis)
    ensures ParseEnum(FreezeAxisNames, JStr(AxisName(a))) == Ok(FreezeAxisValue(a))
    ensures FreezeAxisOf(FreezeAxisValue(a)) == a
  {
    EnumNamesDistinct();
    ParseEnumMember(FreezeAxisNames, FreezeAxisValue(a));
  }

  /** Every field reads back, through any index, as the resolved chain's value. */
  lemma DecodeEncode(tr: map<string, NodeId>, names: seq<string>, cs: seq<Collider>, ch: Chain, f: Field)
    requires forall i :: 0 <= i < |cs| ==> cs[i].owner < |names|
    requires ChainRefsValid(|names|, cs, ch)
    ensures DecodeValue(tr, cs, f, Encode(names, cs, ch, f)) == Ok(Project(Resolved(tr, names, cs, ch), f))
  {
    match f
    case RootField => NodeRefBack(tr, names, ch.root);
    case ReferenceObjectField => NodeRefBack(tr, names, ch.referenceObject);
    case UpdateModeField => ModeRoundTrip(ch.updateMode);
    case FreezeAxisField => AxisRoundTrip(ch.freezeAxis);
    case CollidersField => CollidersBack(tr, names, cs, ch.colliders);
    case ExclusionsField => ExclusionsBack(tr, names, ch.exclusions);
    case _ =>
  }

  /** No statement before statement `m` writes the key statement `m` writes. */
  lemma WrittenLacks(names: seq<string>, cs: seq<Collider>, ch: Chain, m: nat, f: Field)
    requires forall i :: 0 <= i < |cs| ==> cs[i].owner < |names|
    requires ChainRefsValid(|names|, cs, ch)
    requires m < |AllFields| && f == AllFields[m]
    ensures !HasKey(Written(names, cs, ch, m), FieldName(f))
  {
    WrittenShape(names, cs, ch, m);
    if HasKey(Written(names, cs, ch, m), FieldName(f)) {
      var i :| 0 <= i < m && Writes(ch, AllFields[i]) && FieldName(AllFields[i]) == FieldName(f);
      FieldNamesDistinct();
      assert false;
    }
  }

  /** A statement that writes its field appends its entry. */
  lemma WrittenAppends(names: seq<string>, cs: seq<Collider>, ch: Chain, m: nat, n: nat, f: Field)
    requires forall i :: 0 <= i < |cs| ==> cs[i].owner < |names|
    requires ChainRefsValid(|names|, cs, ch)
    requires n == m + 1 <= |AllFields| && f == AllFields[m] && Writes(ch, f)
    ensures Written(names, cs, ch, n) == Written(names, cs, ch, m) + [(FieldName(f), Encode(names, cs, ch, f))]
  {
    WrittenLacks(names, cs, ch, m, f);
    PutNew(Written(names, cs, ch, m), FieldName(f), Encode(names, cs, ch, f));
  }

  /** A statement of `DynamicBoneToJson` adds its entry at the end, since no earlier statement wrote that key. */
  lemma WrittenStep(names: seq<string>, cs: seq<Collider>, ch: Chain, m: nat, n: nat, f: Field)
    requires forall i :: 0 <= i < |cs| ==> cs[i].owner < |names|
    requires ChainRefsValid(|names|, cs, ch)
    requires n == m + 1 <= |AllFields| && f == AllFields[m]
    ensures Written(names, cs, ch, n) ==
      Written(names, cs, ch, m) + if Writes(ch, f) then [(FieldName(f), Encode(names, cs, ch, f))] else []
  {
    if Writes(ch, f) {
      WrittenAppends(names, cs, ch, m, n, f);
    } else {
      var d := Written(names, cs, ch, m);
      assert Written(names, cs, ch, n) == d;
      assert d + [] == d;
    }
  }

  /**
   * A single written entry read back onto any chain raises nothing, gives
   * its field the resolved chain's value and leaves the other fields alone.
   */
  lemma ReadBackOne(tr: map<string, NodeId>, names: seq<string>, cs: seq<Collider>, ch: Chain, o: Chain, f: Field)
    requires forall i :: 0 <= i < |cs| ==> cs[i].owner < |names|
    requires ChainRefsValid(|names|, cs, ch)
    ensures var r := ApplyProps(tr, cs, o, [(FieldName(f), Encode(names, cs, ch, f))]);
      && r.fault.None?
      && Project(r.chain, f) == Project(Resolved(tr, names, cs, ch), f)
      && forall g :: g != f ==> Project(r.chain, g) == Project(o, g)
  {
    var rc := Resolved(tr, names, cs, ch);
    var prop := (FieldName(f), Encode(names, cs, ch, f));
    FieldOfName(f);
    DecodeEncode(tr, names, cs, ch, f);
    ProjectFits(rc, f);
    assert ApplyProp(tr, cs, o, prop) == Ok(Assign(o, f, Project(rc, f)));
    assert [prop][1..] == [];
  }

  /**
   * Field `i` of the chain `o` read back from the first `n` statements
   * written for `ch`: the value `rc` holds when the field was written, else
   * the default.
   */
  predicate ReadBack(ch: Chain, rc: Chain, o: Chain, n: nat, i: nat)
    requires i < |AllFields|
  {
    Project(o, AllFields[i]) == if i < n && Writes(ch, AllFields[i]) then Project(rc, AllFields[i]) else Project(NewChain, AllFields[i])
  }

  /** Reading back statement `m`, which writes field `f`, extends `ReadBack` from `m` statements to `n`. */
  lemma ReadBackExtend(ch: Chain, rc: Chain, o: Chain, next: Chain, m: nat, n: nat, f: Field)
    requires n == m + 1 <= |AllFields| && f == AllFields[m]
    requires forall i :: 0 <= i < |AllFields| ==> ReadBack(ch, rc, o, m, i)
    requires Project(next, f) == if Writes(ch, f) then Project(rc, f) else Project(o, f)
    requires forall g :: g != f ==> Project(next, g) == Project(o, g)
    ensures forall i :: 0 <= i < |AllFields| ==> ReadBack(ch, rc, next, n, i)
  {
    AllFieldsDistinct();
    forall i | 0 <= i < |AllFields| ensures ReadBack(ch, rc, next, n, i) {
      assert ReadBack(ch, rc, o, m, i);
      if i != m { assert AllFields[i] != f; }
    }
  }

  /** Reading back `w` and then `tail`: the chain `tail` leaves when `w` raised nothing. */
  lemma ReadBackAppend(tr: map<string, NodeId>, cs: seq<Collider>, w: seq<(string, Json)>, tail: seq<(string, Json)>, next: Chain)
    requires ApplyProps(tr, cs, NewChain, w).fault.None?
    requires ApplyProps(tr, cs, ApplyProps(tr, cs, NewChain, w).chain, tail) == Outcome(next, None)
    ensures ApplyProps(tr, cs, NewChain, w + tail) == Outcome(next, None)
  {
    ApplyPropsAppend(tr, cs, NewChain, w, tail);
  }

  /**
   * Reading back the first `n` statements' entries onto a fresh component
   * raises nothing and sets exactly the fields written among them to the
   * resolved chain's values.
   */
  lemma {:induction false} WrittenReadsBack(tr: map<string, NodeId>, names: seq<string>, cs: seq<Collider>, ch: Chain, n: nat)
    requires forall i :: 0 <= i < |cs| ==> cs[i].owner < |names|
    requires ChainRefsValid(|names|, cs, ch)
    requires n <= |AllFields|
    ensures ApplyProps(tr, cs, NewChain, Written(names, cs, ch, n)).fault == None
    ensures var o := ApplyProps(tr, cs, NewChain, Written(names, cs, ch, n));
      forall i :: 0 <= i < |AllFields| ==> ReadBack(ch, Resolved(tr, names, cs, ch), o.chain, n, i)
  {
    var rc := Resolved(tr, names, cs, ch);
    if n > 0 {
      var m := n - 1;
      var f := AllFields[m];
      var w := Written(names, cs, ch, m);
      WrittenReadsBack(tr, names, cs, ch, m);
      WrittenStep(names, cs, ch, m, n, f);
      var o := ApplyProps(tr, cs, NewChain, w);
      if Writes(ch, f) {
        var tail := [(FieldName(f), Encode(names, cs, ch, f))];
        assert Written(names, cs, ch, n) == w + tail;
        var next := ApplyProps(tr, cs, o.chain, tail).chain;
        ReadBackOne(tr, names, cs, ch, o.chain, f);
        ReadBackAppend(tr, cs, w, tail, next);
        ReadBackExtend(ch, rc, o.chain, next, m, n, f);
      } else {
        assert Written(names, cs, ch, n) == w + [];
        assert w + [] == w;
        ReadBackExtend(ch, rc, o.chain, o.chain, m, n, f);
      }
    }
  }

  /**
   * The read-back of a chain: the properties `DynamicBoneToJson` writes,
   * applied by `DeserializeDynamicBone` to a freshly added component with
   * any name index, raise nothing and give the chain with its references
   * resolved by name, whatever they pointed at.
   */
  lemma ChainReadBack(tr: map<string, NodeId>, names: seq<string>, cs: seq<Collider>, ch: Chain)
    requires forall i :: 0 <= i < |cs| ==> cs[i].owner < |names|
    requires ChainRefsValid(|names|, cs, ch)
    ensures ApplyProps(tr, cs, NewChain, DynamicBoneToJson(names, cs, ch)) == Outcome(Resolved(tr, names, cs, ch), None)
  {
    var n := |AllFields|;
    var rc := Resolved(tr, names, cs, ch);
    WrittenReadsBack(tr, names, cs, ch, n);
    var o := ApplyProps(tr, cs, NewChain, Written(names, cs, ch, n));
    forall g ensures Project(o.chain, g) == Project(rc, g) {
      AllFieldsComplete(g);
      var i :| 0 <= i < n && AllFields[i] == g;
      assert ReadBack(ch, rc, o.chain, n, i);
      if !Writes(ch, g) { UnwrittenResolved(tr, names, cs, ch, g); }
    }
    ProjectExtensional(o.chain, rc);
  }

  /**
   * Every field that is not a reference survives the round trip, whatever
   * the references point at and whatever the names are.
   */
  lemma ValuesRoundTrip(tr: map<string, NodeId>, names: seq<string>, cs: seq<Collider>, ch: Chain, f: Field)
    requires forall i :: 0 <= i < |cs| ==> cs[i].owner < |names|
    requires ChainRefsValid(|names|, cs, ch)
    requires !IsReference(f)
    ensures ApplyProps(tr, cs, NewChain, DynamicBoneToJson(names, cs, ch)).fault.None?
    ensures Project(ApplyProps(tr, cs, NewChain, DynamicBoneToJson(names, cs, ch)).chain, f) == Project(ch, f)
  {
    ChainReadBack(tr, names, cs, ch);
    ResolvedKeeps(tr, names, cs, ch, f);
  }

  /** The chains whose references a round trip gives back unchanged. */
  predicate Restorable(names: seq<string>, cs: seq<Collider>, ch: Chain) {
    && Names.Duplicates(names) == {}
    && (forall i :: 0 <= i < |cs| ==> cs[i].owner < |names|)
    && ChainRefsValid(|names|, cs, ch)
    && (ch.root.Some? ==> ch.root.value.Local?)
    && (ch.referenceObject.Some? ==> ch.referenceObject.value.Local?)
    && (forall i :: 0 <= i < |ch.exclusions| && ch.exclusions[i].Some? ==> ch.exclusions[i].value.Local?)
    && FirstOnTheirNodes(cs, ch.colliders)
  }

  /** Resolving the references of a restorable chain through its own hierarchy's index changes nothing. */
  lemma ResolvedIdentity(names: seq<string>, cs: seq<Collider>, ch: Chain)
    requires Restorable(names, cs, ch)
    ensures Resolved(Names.NameIndex(names), names, cs, ch) == ch
  {
    var tr := Names.NameIndex(names);
    NodeRoundTrip(names, ch.root);
    NodeRoundTrip(names, ch.referenceObject);
    ExclusionsRoundTrip(names, ch.exclusions);
    CollidersRoundTrip(names, cs, ch.colliders);
  }

  /**
   * The round trip of a chain: with unique names, references only into the
   * hierarchy and only to first colliders, what `DynamicBoneToJson` writes,
   * read back onto a fresh component, raises nothing and restores every
   * field of the chain.
   */
  lemma ChainRoundTrip(names: seq<string>, cs: seq<Collider>, ch: Chain)
    requires Restorable(names, cs, ch)
    ensures ApplyProps(Names.NameIndex(names), cs, NewChain, DynamicBoneToJson(names, cs, ch)) == Outcome(ch, None)
  {
    ChainReadBack(Names.NameIndex(names), names, cs, ch);
    ResolvedIdentity(names, cs, ch);
  }

  /** The class `ColliderToJson` writes converts back to the collider's class, with default dimensions. */
  lemma ColliderTypeBack(c: Collider)
    ensures ShapeOf(Get(ColliderFields(c), "Type")) == Ok(if c.shape.Capsule? then Capsule(0.5, 0.0) else Plane)
  {
    ColliderKeys(c);
  }

  /** The direction `ColliderToJson` writes converts back. */
  lemma ColliderDirectionBack(c: Collider)
    ensures MemberEnum(ColliderFields(c), "Direction", DirectionNames) == Ok(DirectionValue(c.direction))
  {
    ColliderKeys(c);
    EnumNamesDistinct();
    ParseEnumMember(DirectionNames, DirectionValue(c.direction));
  }

  /** The bound `ColliderToJson` writes converts back. */
  lemma ColliderBoundBack(c: Collider)
    ensures MemberEnum(ColliderFields(c), "Bound", BoundNames) == Ok(BoundValue(c.bound))
  {
    ColliderKeys(c);
    EnumNamesDistinct();
    ParseEnumMember(BoundNames, BoundValue(c.bound));
  }

  /** The numeric members `ColliderToJson` writes convert back. */
  lemma ColliderNumbersBack(c: Collider)
    ensures MemberVector(ColliderFields(c), "Center") == Ok(c.center)
    ensures c.shape.Capsule? ==> MemberFloat(ColliderFields(c), "Radius") == Ok(c.shape.radius)
    ensures c.shape.Capsule? ==> MemberFloat(ColliderFields(c), "Height") == Ok(c.shape.height)
  {
    ColliderKeys(c);
    VectorRoundTrip(c.center);
  }

  /** Each member `ColliderToJson` writes converts back to the collider's own value. */
  lemma ColliderMembers(c: Collider)
    ensures ShapeOf(Get(ColliderFields(c), "Type")) == Ok(if c.shape.Capsule? then Capsule(0.5, 0.0) else Plane)
    ensures MemberEnum(ColliderFields(c), "Direction", DirectionNames) == Ok(DirectionValue(c.direction))
    ensures MemberVector(ColliderFields(c), "Center") == Ok(c.center)
    ensures MemberEnum(ColliderFields(c), "Bound", BoundNames) == Ok(BoundValue(c.bound))
    ensures c.shape.Capsule? ==> MemberFloat(ColliderFields(c), "Radius") == Ok(c.shape.radius)
    ensures c.shape.Capsule? ==> MemberFloat(ColliderFields(c), "Height") == Ok(c.shape.height)
  {
    ColliderTypeBack(c);
    ColliderDirectionBack(c);
    ColliderBoundBack(c);
    ColliderNumbersBack(c);
  }

  /**
   * The round trip of a collider: what `ColliderToJson` writes, read back
   * by `DeserializeCollider` onto the same node, adds the class written and
   * restores every field, without an exception.
   */
  lemma ColliderRoundTrip(c: Collider)
    ensures DecodeCollider(ColliderFields(c), c.owner) == Added(Some(c), None)
  {
    var props := ColliderFields(c);
    ColliderMembers(c);
    FieldsRestore(props, NewCollider(c.owner, c.shape), c);
  }

  /** An object whose members convert to the values of `c` sets a fresh collider of its class to `c`. */
  lemma FieldsRestore(props: Dict<Json>, n: Collider, c: Collider)
    requires n == NewCollider(c.owner, c.shape)
    requires MemberEnum(props, "Direction", DirectionNames) == Ok(DirectionValue(c.direction))
    requires MemberVector(props, "Center") == Ok(c.center)
    requires MemberEnum(props, "Bound", BoundNames) == Ok(BoundValue(c.bound))
    requires c.shape.Capsule? ==> MemberFloat(props, "Radius") == Ok(c.shape.radius)
    requires c.shape.Capsule? ==> MemberFloat(props, "Height") == Ok(c.shape.height)
    ensures SetColliderFields(props, n) == ColliderOutcome(c, None)
  {
    DirectionRoundTrip(c.direction);
    BoundRoundTrip(c.bound);
  }

  lemma DirectionRoundTrip(d: Direction)
    ensures DirectionOf(DirectionValue(d)) == d
  {
  }

  lemma BoundRoundTrip(b: Bound)
    ensures BoundOf(BoundValue(b)) == b
  {
  }
}
