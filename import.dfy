/**
 * The import driver (class `ImportProcess`): the name index over the
 * selected hierarchy, the removal of the components already there, then
 * the colliders of the document and, after them, its chains.
 */
module Import {
  import opened Wrappers
  import opened Json
  import opened Components
  import opened Fields
  import opened Decode
  import Names

  /** `transforms.get` of a member key; the key is a string, so the lookup cannot fail. */
  function NodeNamed(tr: map<string, NodeId>, k: string): (r: Option<NodeId>)
    ensures Names.Get(tr, JStr(k)) == Ok(r)
  {
    if k in tr then Some(tr[k]) else None
  }

  /** The components a loop has reached, and the exception that stopped it, if any. */
  datatype Progress<T> = Progress(items: seq<T>, fault: Option<Failure>)

  /**
   * `DeserializeColliders` over the members of the "Collider" object, onto
   * the colliders `cs`: a member whose key names no node is skipped; the
   * value of one that does must be an object, read by `DeserializeCollider`.
   */
  function ImportColliders(tr: map<string, NodeId>, cs: seq<Collider>, entries: seq<(string, Json)>): Progress<Collider>
    decreases |entries|
  {
    if entries == [] then Progress(cs, None)
    else
      var k := entries[0].0;
      var v := entries[0].1;
      match NodeNamed(tr, k)
      case None => ImportColliders(tr, cs, entries[1..])
      case Some(t) =>
        if !v.JObj? then Progress(cs, Some(InvalidCast))
        else
          var a := DecodeCollider(v.fields, t);
          var cs' := cs + if a.collider.Some? then [a.collider.value] else [];
          if a.fault.Some? then Progress(cs', a.fault) else ImportColliders(tr, cs', entries[1..])
  }

  /**
   * The inner loop of `DeserializeDynamicBones`: each element must be an
   * object, and each adds one chain to `t`, filled by `DeserializeDynamicBone`.
   */
  function ImportGroup(tr: map<string, NodeId>, cs: seq<Collider>, bones: seq<Bone>, t: NodeId, items: seq<Json>): Progress<Bone>
    decreases |items|
  {
    if items == [] then Progress(bones, None)
    else if !items[0].JObj? then Progress(bones, Some(InvalidCast))
    else
      var o := ApplyProps(tr, cs, NewChain, items[0].fields);
      var bones' := bones + [Bone(t, o.chain)];
      if o.fault.Some? then Progress(bones', o.fault) else ImportGroup(tr, cs, bones', t, items[1..])
  }

  /**
   * `DeserializeDynamicBones` over the members of the "DynamicBone" object:
   * a group whose key names no node is skipped whole.
   */
  function ImportBones(tr: map<string, NodeId>, cs: seq<Collider>, bones: seq<Bone>, groups: seq<(string, Json)>): Progress<Bone>
    decreases |groups|
  {
    if groups == [] then Progress(bones, None)
    else
      match NodeNamed(tr, groups[0].0)
      case None => ImportBones(tr, cs, bones, groups[1..])
      case Some(t) =>
        match Elements(groups[0].1)
        case Err(e) => Progress(bones, Some(e))
        case Ok(items) =>
          var p := ImportGroup(tr, cs, bones, t, items);
          if p.fault.Some? then p else ImportBones(tr, cs, p.items, groups[1..])
  }

  /**
   * `(JObject)jo[k]` and the `foreach` over it: a missing member is a null
   * reference by the time it is enumerated; a member that is not an object
   * fails the cast.
   */
  function Section(doc: Dict<Json>, k: string): (r: Result<Dict<Json>, Failure>)
    ensures r.Ok? <==> Get(doc, k).Some? && Get(doc, k).value.JObj?
    ensures r.Ok? ==> Get(doc, k) == Some(JObj(r.value))
    ensures Get(doc, k).None? ==> r == Err(NullReference)
  {
    match Get(doc, k)
    case None => Err(NullReference)
    case Some(v) => if v.JObj? then Ok(v.fields) else Err(InvalidCast)
  }

  /** The hierarchy's components after an import, and the exception that stopped it, if any. */
  datatype Imported = Imported(colliders: seq<Collider>, bones: seq<Bone>, fault: Option<Failure>)

  /**
   * The two deserialisation calls of `process`: every collider of the
   * document first, then, if that completed, every chain, resolving
   * collider names against the colliders by then present.
   */
  function ImportDocument(tr: map<string, NodeId>, cs: seq<Collider>, bones: seq<Bone>, doc: Dict<Json>): Imported {
    match Section(doc, "Collider")
    case Err(e) => Imported(cs, bones, Some(e))
    case Ok(centries) =>
      var pc := ImportColliders(tr, cs, centries);
      if pc.fault.Some? then Imported(pc.items, bones, pc.fault)
      else
        match Section(doc, "DynamicBone")
        case Err(e) => Imported(pc.items, bones, Some(e))
        case Ok(bentries) =>
          var pb := ImportBones(tr, pc.items, bones, bentries);
          Imported(pc.items, pb.items, pb.fault)
  }

  /** Some member of `entries` has a key naming the node `owner`. */
  predicate NamedBy(tr: map<string, NodeId>, entries: seq<(string, Json)>, owner: NodeId) {
    exists j :: 0 <= j < |entries| && entries[j].0 in tr && tr[entries[j].0] == owner
  }

  lemma NamedByHead(tr: map<string, NodeId>, entries: seq<(string, Json)>, owner: NodeId)
    requires entries != [] && entries[0].0 in tr && tr[entries[0].0] == owner
    ensures NamedBy(tr, entries, owner)
  {
  }

  lemma NamedByTail(tr: map<string, NodeId>, entries: seq<(string, Json)>, owner: NodeId)
    requires entries != [] && NamedBy(tr, entries[1..], owner)
    ensures NamedBy(tr, entries, owner)
  {
    var j :| 0 <= j < |entries[1..]| && entries[1..][j].0 in tr && tr[entries[1..][j].0] == owner;
    assert entries[j + 1] == entries[1..][j];
  }

  /**
   * The collider import only appends, one collider per member at most,
   * each on the node its member's key names; the colliders already there
   * stay, also when an exception stops the loop.
   */
  lemma ImportCollidersAppends(tr: map<string, NodeId>, cs: seq<Collider>, entries: seq<(string, Json)>)
    ensures var p := ImportColliders(tr, cs, entries);
      && cs <= p.items
      && |p.items| <= |cs| + |entries|
      && forall i :: |cs| <= i < |p.items| ==> NamedBy(tr, entries, p.items[i].owner)
  {
    ImportCollidersGrows(tr, cs, entries);
    ImportCollidersNamed(tr, cs, entries);
  }

  /** The collider import keeps the colliders already there and adds at most one per member. */
  lemma {:induction false} ImportCollidersGrows(tr: map<string, NodeId>, cs: seq<Collider>, entries: seq<(string, Json)>)
    ensures var p := ImportColliders(tr, cs, entries);
      cs <= p.items && |p.items| <= |cs| + |entries|
    decreases |entries|
  {
    if entries != [] {
      var k := entries[0].0;
      var v := entries[0].1;
      var rest := entries[1..];
      if k !in tr {
        ImportCollidersGrows(tr, cs, rest);
      } else if v.JObj? {
        var a := DecodeCollider(v.fields, tr[k]);
        var cs' := cs + if a.collider.Some? then [a.collider.value] else [];
        if a.fault.None? {
          ImportCollidersGrows(tr, cs', rest);
        }
      }
    }
  }

  /** Each collider the import adds sits on a node some member's key names. */
  lemma {:induction false} ImportCollidersNamed(tr: map<string, NodeId>, cs: seq<Collider>, entries: seq<(string, Json)>)
    ensures forall i :: |cs| <= i < |ImportColliders(tr, cs, entries).items| ==>
      NamedBy(tr, entries, ImportColliders(tr, cs, entries).items[i].owner)
    decreases |entries|
  {
    if entries != [] {
      var k := entries[0].0;
      var v := entries[0].1;
      var rest := entries[1..];
      var p := ImportColliders(tr, cs, entries);
      if k !in tr {
        assert p == ImportColliders(tr, cs, rest);
        ImportCollidersNamed(tr, cs, rest);
        forall i | |cs| <= i < |p.items| ensures NamedBy(tr, entries, p.items[i].owner) {
          NamedByTail(tr, entries, p.items[i].owner);
        }
      } else if v.JObj? {
        var t := tr[k];
        var a := DecodeCollider(v.fields, t);
        var cs' := cs + if a.collider.Some? then [a.collider.value] else [];
        assert p == if a.fault.Some? then Progress(cs', a.fault) else ImportColliders(tr, cs', rest);
        if a.fault.None? {
          ImportCollidersNamed(tr, cs', rest);
          ImportCollidersGrows(tr, cs', rest);
        }
        forall i | |cs| <= i < |p.items| ensures NamedBy(tr, entries, p.items[i].owner) {
          if i < |cs'| {
            assert p.items[i] == a.collider.value;
            NamedByHead(tr, entries, t);
          } else {
            NamedByTail(tr, entries, p.items[i].owner);
          }
        }
      }
    }
  }

  /**
   * A resolved group adds one chain per element, all on its node; the
   * chains already there stay, also when an exception stops the loop.
   */
  lemma {:induction false} ImportGroupAppends(tr: map<string, NodeId>, cs: seq<Collider>, bones: seq<Bone>, t: NodeId, items: seq<Json>)
    ensures var p := ImportGroup(tr, cs, bones, t, items);
      && bones <= p.items
      && |p.items| <= |bones| + |items|
      && (p.fault.None? ==> |p.items| == |bones| + |items|)
      && forall i :: |bones| <= i < |p.items| ==> p.items[i].owner == t
    decreases |items|
  {
    if items != [] && items[0].JObj? {
      var o := ApplyProps(tr, cs, NewChain, items[0].fields);
      if o.fault.None? {
        ImportGroupAppends(tr, cs, bones + [Bone(t, o.chain)], t, items[1..]);
      }
    }
  }

  /**
   * The chain import only appends, each chain on the node its group's key
   * names; a group whose key names no node adds nothing.
   */
  lemma {:induction false} ImportBonesAppends(tr: map<string, NodeId>, cs: seq<Collider>, bones: seq<Bone>, groups: seq<(string, Json)>)
    ensures var p := ImportBones(tr, cs, bones, groups);
      && bones <= p.items
      && forall i :: |bones| <= i < |p.items| ==> NamedBy(tr, groups, p.items[i].owner)
    decreases |groups|
  {
    if groups != [] {
      var k := groups[0].0;
      var rest := groups[1..];
      var p := ImportBones(tr, cs, bones, groups);
      if k !in tr {
        ImportBonesAppends(tr, cs, bones, rest);
        forall i | |bones| <= i < |p.items| ensures NamedBy(tr, groups, p.items[i].owner) {
          NamedByTail(tr, groups, p.items[i].owner);
        }
      } else if Elements(groups[0].1).Ok? {
        var items := Elements(groups[0].1).value;
        var q := ImportGroup(tr, cs, bones, tr[k], items);
        ImportGroupAppends(tr, cs, bones, tr[k], items);
        if q.fault.None? {
          ImportBonesAppends(tr, cs, q.items, rest);
        }
        assert q.items <= p.items;
        forall i | |bones| <= i < |p.items| ensures NamedBy(tr, groups, p.items[i].owner) {
          if i < |q.items| {
            assert groups[0].0 in tr && tr[groups[0].0] == p.items[i].owner;
          } else {
            NamedByTail(tr, groups, p.items[i].owner);
          }
        }
      }
    }
  }

  /** Every chain the chain import adds refers only to colliders of the list it was given. */
  lemma {:induction false} ImportGroupWithin(tr: map<string, NodeId>, cs: seq<Collider>, bones: seq<Bone>, t: NodeId, items: seq<Json>)
    ensures var p := ImportGroup(tr, cs, bones, t, items);
      forall i :: |bones| <= i < |p.items| ==> CollidersWithin(p.items[i].chain, |cs|)
    decreases |items|
  {
    if items != [] && items[0].JObj? {
      var o := ApplyProps(tr, cs, NewChain, items[0].fields);
      ApplyPropsWithin(tr, cs, NewChain, items[0].fields);
      if o.fault.None? {
        ImportGroupWithin(tr, cs, bones + [Bone(t, o.chain)], t, items[1..]);
        ImportGroupAppends(tr, cs, bones + [Bone(t, o.chain)], t, items[1..]);
      }
    }
  }

  lemma {:induction false} ImportBonesWithin(tr: map<string, NodeId>, cs: seq<Collider>, bones: seq<Bone>, groups: seq<(string, Json)>)
    ensures var p := ImportBones(tr, cs, bones, groups);
      forall i :: |bones| <= i < |p.items| ==> CollidersWithin(p.items[i].chain, |cs|)
    decreases |groups|
  {
    if groups != [] {
      match NodeNamed(tr, groups[0].0)
      case None =>
        assert ImportBones(tr, cs, bones, groups) == ImportBones(tr, cs, bones, groups[1..]);
        ImportBonesWithin(tr, cs, bones, groups[1..]);
      case Some(t) =>
        match Elements(groups[0].1)
        case Err(e) =>
        case Ok(items) =>
          var p := ImportGroup(tr, cs, bones, t, items);
          ImportGroupWithin(tr, cs, bones, t, items);
          ImportGroupAppends(tr, cs, bones, t, items);
          if p.fault.None? {
            ImportBonesWithin(tr, cs, p.items, groups[1..]);
            ImportBonesAppends(tr, cs, p.items, groups[1..]);
          }
    }
  }

  /**
   * Colliders come first: when the collider import stops at an exception
   * no chain is added, and every chain added refers only to colliders
   * present once all of the document's colliders were added.
   */
  lemma ImportDocumentOrder(tr: map<string, NodeId>, cs: seq<Collider>, bones: seq<Bone>, doc: Dict<Json>)
    ensures var r := ImportDocument(tr, cs, bones, doc);
      && cs <= r.colliders
      && bones <= r.bones
      && (|r.bones| > |bones| ==> (Section(doc, "Collider").Ok?
            && r.colliders == ImportColliders(tr, cs, Section(doc, "Collider").value).items
            && ImportColliders(tr, cs, Section(doc, "Collider").value).fault.None?))
      && forall i :: |bones| <= i < |r.bones| ==> CollidersWithin(r.bones[i].chain, |r.colliders|)
  {
    match Section(doc, "Collider")
    case Err(e) =>
    case Ok(centries) =>
      var pc := ImportColliders(tr, cs, centries);
      ImportCollidersAppends(tr, cs, centries);
      if pc.fault.None? {
        match Section(doc, "DynamicBone")
        case Err(e) =>
        case Ok(bentries) =>
          ImportBonesAppends(tr, pc.items, bones, bentries);
          ImportBonesWithin(tr, pc.items, bones, bentries);
      }
  }

  /** One iteration of the property loop, as the loop sees it. */
  lemma ApplyPropsStep(tr: map<string, NodeId>, cs: seq<Collider>, ch: Chain, props: seq<(string, Json)>, i: nat)
    requires i < |props|
    ensures ApplyProps(tr, cs, ch, props[i..]) ==
      match ApplyProp(tr, cs, ch, props[i])
      case Err(e) => Outcome(ch, Some(e))
      case Ok(ch') => ApplyProps(tr, cs, ch', props[i + 1..])
  {
    assert props[i..][0] == props[i] && props[i..][1..] == props[i + 1..];
  }

  /** One iteration of the inner loop of `DeserializeDynamicBones`, as the loop sees it. */
  lemma ImportGroupStep(tr: map<string, NodeId>, cs: seq<Collider>, bones: seq<Bone>, t: NodeId, items: seq<Json>, i: nat)
    requires i < |items|
    ensures ImportGroup(tr, cs, bones, t, items[i..]) ==
      if !items[i].JObj? then Progress(bones, Some(InvalidCast))
      else
        var o := ApplyProps(tr, cs, NewChain, items[i].fields);
        if o.fault.Some? then Progress(bones + [Bone(t, o.chain)], o.fault)
        else ImportGroup(tr, cs, bones + [Bone(t, o.chain)], t, items[i + 1..])
  {
    assert items[i..][0] == items[i] && items[i..][1..] == items[i + 1..];
  }

  /** One iteration of the outer loop of `DeserializeDynamicBones`, as the loop sees it. */
  lemma ImportBonesStep(tr: map<string, NodeId>, cs: seq<Collider>, bones: seq<Bone>, groups: seq<(string, Json)>, i: nat)
    requires i < |groups|
    ensures ImportBones(tr, cs, bones, groups[i..]) ==
      match NodeNamed(tr, groups[i].0)
      case None => ImportBones(tr, cs, bones, groups[i + 1..])
      case Some(t) =>
        match Elements(groups[i].1)
        case Err(e) => Progress(bones, Some(e))
        case Ok(items) =>
          var p := ImportGroup(tr, cs, bones, t, items);
          if p.fault.Some? then p else ImportBones(tr, cs, p.items, groups[i + 1..])
  {
    assert groups[i..][0] == groups[i] && groups[i..][1..] == groups[i + 1..];
  }

  /** One iteration of the loop of `DeserializeColliders`, as the loop sees it. */
  lemma ImportCollidersStep(tr: map<string, NodeId>, cs: seq<Collider>, entries: seq<(string, Json)>, i: nat)
    requires i < |entries|
    ensures ImportColliders(tr, cs, entries[i..]) ==
      match NodeNamed(tr, entries[i].0)
      case None => ImportColliders(tr, cs, entries[i + 1..])
      case Some(t) =>
        if !entries[i].1.JObj? then Progress(cs, Some(InvalidCast))
        else
          var a := DecodeCollider(entries[i].1.fields, t);
          var cs' := cs + if a.collider.Some? then [a.collider.value] else [];
          if a.fault.Some? then Progress(cs', a.fault) else ImportColliders(tr, cs', entries[i + 1..])
  {
    assert entries[i..][0] == entries[i] && entries[i..][1..] == entries[i + 1..];
  }

  /** The selected hierarchy: its nodes' names in traversal order, and the components on them. */
  class Hierarchy {
    const names: seq<string>
    var colliders: seq<Collider>
    var bones: seq<Bone>

    constructor (names: seq<string>, colliders: seq<Collider>, bones: seq<Bone>)
      ensures this.names == names && this.colliders == colliders && this.bones == bones
    {
      this.names := names;
      this.colliders := colliders;
      this.bones := bones;
    }
  }

  /** What `process` returns when it does not throw. */
  datatype Reply = Reply(success: bool, message: Option<string>)

  const SelectRoot := "Select root hierarchy."

  class ImportProcess {
    var transforms: Names.Transforms?

    constructor ()
      ensures transforms == null
    {
      transforms := null;
    }

    /**
     * `DeletePreComponents`, with the dialog's answer as `confirm`: with no
     * chain and no collider there is nothing to ask and nothing removed;
     * declining removes nothing; accepting removes every one of them.
     */
    static method DeletePreComponents(h: Hierarchy, confirm: bool) returns (yes: bool)
      modifies h
      ensures h.bones == (if yes && old(|h.bones| + |h.colliders|) > 0 then [] else old(h.bones))
      ensures h.colliders == (if yes && old(|h.bones| + |h.colliders|) > 0 then [] else old(h.colliders))
      ensures yes <==> old(|h.bones| + |h.colliders|) == 0 || confirm
    {
      if |h.bones| + |h.colliders| == 0 {
        return true;
      }
      if !confirm {
        return false;
      }
      while h.bones != []
        invariant h.colliders == old(h.colliders)
        decreases |h.bones|
      {
        h.bones := h.bones[1..];
      }
      while h.colliders != []
        invariant h.bones == []
        decreases |h.colliders|
      {
        h.colliders := h.colliders[1..];
      }
      return true;
    }

    /** `CollectHierarchies`: builds the name index; duplicated names are reported, sorted. */
    method CollectHierarchies(h: Hierarchy) returns (message: Option<string>)
      modifies this
      ensures transforms != null && fresh(transforms)
      ensures transforms.Valid() && transforms.names == h.names
      ensures message.Some? <==> Names.Duplicates(h.names) != {}
      ensures message.Some? ==> (transforms.duplications != []
        && message.value == Names.DuplicateMessage(transforms.duplications))
    {
      transforms := new Names.Transforms(h.names);
      if |transforms.duplications| > 0 {
        assert transforms.duplications[0] in Names.Duplicates(h.names);
        return Some(Names.DuplicateMessage(transforms.duplications));
      }
      assert forall k :: k !in Names.Duplicates(h.names);
      return None;
    }

    /**
     * `DeserializeDynamicBone`: adds a fresh chain to `target`, then assigns
     * the fields the component's keys name, in document order; an exception
     * leaves the chain as far as it got.
     */
    method DeserializeDynamicBone(h: Hierarchy, target: NodeId, component: Dict<Json>) returns (fault: Option<Failure>)
      requires transforms != null
      modifies h`bones
      ensures var o := ApplyProps(transforms.transforms, h.colliders, NewChain, component);
        h.bones == old(h.bones) + [Bone(target, o.chain)] && fault == o.fault
    {
      var tr := transforms.transforms;
      var cs := h.colliders;
      ghost var goal := ApplyProps(tr, cs, NewChain, component);
      var db := NewChain;
      h.bones := h.bones + [Bone(target, db)];
      var n := |h.bones| - 1;
      var i := 0;
      while i < |component|
        invariant 0 <= i <= |component|
        invariant h.bones == old(h.bones) + [Bone(target, db)]
        invariant ApplyProps(tr, cs, db, component[i..]) == goal
      {
        ApplyPropsStep(tr, cs, db, component, i);
        var r := ApplyProp(tr, cs, db, component[i]);
        if r.Err? {
          return Some(r.error);
        }
        db := r.value;
        h.bones := h.bones[n := Bone(target, db)];
        i := i + 1;
      }
      return None;
    }

    /**
     * `DeserializeDynamicBones`: for each group whose key names a node, one
     * chain per element, each element cast to an object first.
     */
    method DeserializeDynamicBones(h: Hierarchy, groups: Dict<Json>) returns (fault: Option<Failure>)
      requires transforms != null
      modifies h
      ensures var p := ImportBones(transforms.transforms, h.colliders, old(h.bones), groups);
        h.bones == p.items && fault == p.fault
      ensures h.colliders == old(h.colliders)
    {
      var tr := transforms.transforms;
      ghost var goal := ImportBones(tr, h.colliders, h.bones, groups);
      var i := 0;
      while i < |groups|
        invariant 0 <= i <= |groups|
        invariant h.colliders == old(h.colliders)
        invariant ImportBones(tr, h.colliders, h.bones, groups[i..]) == goal
      {
        ImportBonesStep(tr, h.colliders, h.bones, groups, i);
        var t := NodeNamed(tr, groups[i].0);
        if t.Some? {
          var children := Elements(groups[i].1);
          if children.Err? {
            return Some(children.error);
          }
          var items := children.value;
          ghost var group := ImportGroup(tr, h.colliders, h.bones, t.value, items);
          var j := 0;
          while j < |items|
            invariant 0 <= j <= |items|
            invariant h.colliders == old(h.colliders)
            invariant ImportGroup(tr, h.colliders, h.bones, t.value, items[j..]) == group
          {
            ImportGroupStep(tr, h.colliders, h.bones, t.value, items, j);
            if !items[j].JObj? {
              return Some(InvalidCast);
            }
            var f := DeserializeDynamicBone(h, t.value, items[j].fields);
            if f.Some? {
              return f;
            }
            j := j + 1;
          }
          assert group == Progress(h.bones, None);
        }
        i := i + 1;
      }
      assert goal == Progress(h.bones, None);
      return None;
    }

    /**
     * `DeserializeCollider`: adds a collider of the class the object names
     * to `t`, then reads direction, center and bound and, for a capsule,
     * radius and height; an exception leaves the collider as far as it got.
     */
    static method DeserializeCollider(h: Hierarchy, props: Dict<Json>, t: NodeId) returns (fault: Option<Failure>)
      modifies h`colliders
      ensures ShapeOf(Get(props, "Type")).Err? ==>
        h.colliders == old(h.colliders) && fault == Some(ShapeOf(Get(props, "Type")).error)
      ensures ShapeOf(Get(props, "Type")).Ok? ==>
        var o := SetColliderFields(props, NewCollider(t, ShapeOf(Get(props, "Type")).value));
        h.colliders == old(h.colliders) + [o.collider] && fault == o.fault
    {
      var shape := ShapeOf(Get(props, "Type"));
      if shape.Err? {
        return Some(shape.error);
      }
      h.colliders := h.colliders + [NewCollider(t, shape.value)];
      var n := |h.colliders| - 1;
      fault := SetColliderMembers(h, props, n);
      assert h.colliders == old(h.colliders) + [h.colliders[n]];
    }

    /**
     * The assignments of `DeserializeCollider` to the component at index
     * `n`, in place: direction, center and bound, then the dimensions of a
     * capsule; an exception leaves the later members as they were.
     */
    static method SetColliderMembers(h: Hierarchy, props: Dict<Json>, n: nat) returns (fault: Option<Failure>)
      requires n < |h.colliders|
      modifies h`colliders
      ensures var o := SetColliderFields(props, old(h.colliders[n]));
        h.colliders == old(h.colliders)[n := o.collider] && fault == o.fault
    {
      var c := h.colliders[n];
      ghost var goal := SetColliderFields(props, c);
      var direction := MemberEnum(props, "Direction", DirectionNames);
      if direction.Err? {
        return Some(direction.error);
      }
      c := c.(direction := DirectionOf(direction.value));
      h.colliders := h.colliders[n := c];
      assert goal == SetFromCenter(props, c);
      var center := MemberVector(props, "Center");
      if center.Err? {
        return Some(center.error);
      }
      c := c.(center := center.value);
      h.colliders := h.colliders[n := c];
      assert goal == SetFromBound(props, c);
      var bound := MemberEnum(props, "Bound", BoundNames);
      if bound.Err? {
        return Some(bound.error);
      }
      c := c.(bound := BoundOf(bound.value));
      h.colliders := h.colliders[n := c];
      if c.shape.Capsule? {
        assert goal == SetFromRadius(props, c);
        fault := SetCapsuleDimensions(h, props, n);
        return;
      }
      return None;
    }

    /**
     * The capsule part of `DeserializeCollider`: radius, then height, of
     * the capsule component at index `n`; an exception leaves the height.
     */
    static method SetCapsuleDimensions(h: Hierarchy, props: Dict<Json>, n: nat) returns (fault: Option<Failure>)
      requires n < |h.colliders| && h.colliders[n].shape.Capsule?
      modifies h`colliders
      ensures var o := SetFromRadius(props, old(h.colliders[n]));
        h.colliders == old(h.colliders)[n := o.collider] && fault == o.fault
    {
      var c := h.colliders[n];
      var radius := MemberFloat(props, "Radius");
      if radius.Err? {
        return Some(radius.error);
      }
      c := c.(shape := c.shape.(radius := radius.value));
      h.colliders := h.colliders[n := c];
      var height := MemberFloat(props, "Height");
      if height.Err? {
        return Some(height.error);
      }
      c := c.(shape := c.shape.(height := height.value));
      h.colliders := h.colliders[n := c];
      return None;
    }

    /**
     * `DeserializeColliders`: each member whose key names a node must hold
     * an object, read onto that node by `DeserializeCollider`.
     */
    method DeserializeColliders(h: Hierarchy, entries: Dict<Json>) returns (fault: Option<Failure>)
      requires transforms != null
      modifies h
      ensures var p := ImportColliders(transforms.transforms, old(h.colliders), entries);
        h.colliders == p.items && fault == p.fault
      ensures h.bones == old(h.bones)
    {
      var tr := transforms.transforms;
      ghost var goal := ImportColliders(tr, h.colliders, entries);
      var i := 0;
      while i < |entries|
        invariant 0 <= i <= |entries|
        invariant h.bones == old(h.bones)
        invariant ImportColliders(tr, h.colliders, entries[i..]) == goal
      {
        ImportCollidersStep(tr, h.colliders, entries, i);
        var t := NodeNamed(tr, entries[i].0);
        if t.Some? {
          if !entries[i].1.JObj? {
            return Some(InvalidCast);
          }
          var f := DeserializeCollider(h, entries[i].1.fields, t.value);
          if f.Some? {
            return f;
          }
        }
        i := i + 1;
      }
      assert goal == Progress(h.colliders, None);
      return None;
    }

    /**
     * `process`, with the selection, the dialog's answer and the parsed file
     * as inputs: no selection and duplicated names abort before anything is
     * touched; declining the deletion is a successful no-op; otherwise the
     * hierarchy is cleared and the document imported, colliders first, an
     * exception leaving whatever was imported before it.
     */
    method Process(h: Hierarchy, selected: bool, confirm: bool, doc: Json) returns (r: Result<Reply, Failure>)
      modifies this, h
      ensures !selected ==> r == Ok(Reply(false, Some(SelectRoot)))
      ensures !selected || Names.Duplicates(h.names) != {} || (old(|h.bones| + |h.colliders|) > 0 && !confirm) ==>
        h.bones == old(h.bones) && h.colliders == old(h.colliders)
      ensures selected && Names.Duplicates(h.names) != {} ==>
        && transforms != null && transforms.Valid() && transforms.names == h.names
        && r == Ok(Reply(false, Some(Names.DuplicateMessage(transforms.duplications))))
      ensures selected && Names.Duplicates(h.names) == {} && old(|h.bones| + |h.colliders|) > 0 && !confirm ==>
        r == Ok(Reply(true, None))
      ensures selected && Names.Duplicates(h.names) == {} && (old(|h.bones| + |h.colliders|) == 0 || confirm) ==>
        if !doc.JObj? then r == Err(Unreadable) && h.bones == [] && h.colliders == []
        else
          var im := ImportDocument(Names.NameIndex(h.names), [], [], doc.fields);
          && h.colliders == im.colliders && h.bones == im.bones
          && r == if im.fault.Some? then Err(im.fault.value) else Ok(Reply(true, None))
    {
      if !selected {
        return Ok(Reply(false, Some(SelectRoot)));
      }
      var message := CollectHierarchies(h);
      if message.Some? {
        return Ok(Reply(false, message));
      }
      var yes := DeletePreComponents(h, confirm);
      if !yes {
        return Ok(Reply(true, None));
      }
      if !doc.JObj? {
        return Err(Unreadable);
      }
      var jo := doc.fields;
      var colliders := Section(jo, "Collider");
      if colliders.Err? {
        return Err(colliders.error);
      }
      var fault := DeserializeColliders(h, colliders.value);
      if fault.Some? {
        return Err(fault.value);
      }
      var bones := Section(jo, "DynamicBone");
      if bones.Err? {
        return Err(bones.error);
      }
      fault := DeserializeDynamicBones(h, bones.value);
      if fault.Some? {
        return Err(fault.value);
      }
      return Ok(Reply(true, None));
    }
  }
}
