/**
  * The generic-entity construction path and the two access decisions of the
  * appointment material controller (aptMaterialController.php).
  */
module AptMaterialController {
  import opened Wrappers
  import opened Api
  import opened ConstructorBinding
  import opened ReferenceResolution
  import opened FinalCerts

  /** SECTION_ARRAY_NAME: the key that wraps a material list in a response. */
  const SectionArrayName: string := "materials"

  /**
    * A target entity class as the binder sees it: its name, its constructor's
    * parameters (`None` when the class declares no constructor), and whether it
    * implements AuthoredEntityInterface.
    */
  datatype EntityClass = EntityClass(name: string, ctorParams: Option<seq<Param>>, authored: bool)

  /** A constructed entity: its class, its constructor arguments and its author. */
  class Entity {
    const className: string
    const args: seq<Value>
    var author: Option<UserId>

    constructor (className: string, args: seq<Value>)
      ensures this.className == className && this.args == args && author == None
    {
      this.className := className;
      this.args := args;
      author := None;
    }
  }

  /** The notification event logged by the certificate manager. */
  datatype CertEvent = CertApproved(cert: int, material: EntityId, instructor: UserId)

  /**
    * The entity manager's unit of work: the instances registered with
    * `persist`, the number of `flush` calls, and the certificate events logged.
    */
  class UnitOfWork {
    var persisted: seq<Entity>
    var flushes: nat
    var events: seq<CertEvent>

    constructor ()
      ensures persisted == [] && flushes == 0 && events == []
    {
      persisted := [];
      flushes := 0;
      events := [];
    }
  }

  /** What construction yields: the arguments and the rest of the data map, or the missing parameter. */
  datatype Construction = Constructed(args: seq<Value>, rest: DataMap) | Rejected(param: string)

  /**
    * createEntity's decision: a class without a constructor is built from no
    * arguments and leaves the map alone; otherwise the parameters are bound.
    */
  function Construct(data: DataMap, cls: EntityClass): Construction {
    match cls.ctorParams
    case None => Constructed([], data)
    case Some(params) =>
      match Bind(data, params)
      case Bound(args, rest) => Constructed(args, rest)
      case MissingParam(name) => Rejected(name)
  }

  /**
    * PHP's array union `left + right`: every key of either side, and on a key
    * both sides hold, the left-hand value.
    */
  function ArrayUnion(left: DataMap, right: DataMap): (u: DataMap)
    ensures u.Keys == left.Keys + right.Keys
    ensures forall k :: k in left ==> u[k] == left[k]
    ensures forall k :: k in right && k !in left ==> u[k] == right[k]
  {
    right + left
  }

  /** The constructor arguments and the data left for the setter pass. */
  datatype Prepared = Prepared(cargs: DataMap, data: DataMap)

  /**
    * addEntityAction's argument assembly: the parent is seeded under
    * `parentField`, and, when there are rules, the helper's result is merged
    * in with `+=`. The parent always survives the merge, and the only other
    * arguments offered to the constructor are references the rules resolved.
    */
  function PrepareArgs(parent: Value, parentField: string, data: DataMap, rules: seq<FieldRule>, repo: Repository): (r: Result<Prepared>)
    ensures r.Err? <==> |rules| > 0 && Resolve(data, rules, repo).Unresolved?
    ensures r.Err? ==> r.error == ReferenceNotFound(Resolve(data, rules, repo).entityType, Resolve(data, rules, repo).field)
    ensures r.Ok? ==> parentField in r.value.cargs && r.value.cargs[parentField] == parent
    ensures r.Ok? && |rules| == 0 ==> r.value.cargs.Keys == {parentField}
    ensures r.Ok? && |rules| > 0 ==> r.value.cargs.Keys == {parentField} + Resolve(data, rules, repo).ret.Keys
    ensures r.Ok? ==> forall k :: k in r.value.cargs && k != parentField ==> r.value.cargs[k].Ref?
    ensures r.Ok? && |rules| == 0 ==> r.value.data == data
    ensures r.Ok? && |rules| > 0 ==>
      Resolve(data, rules, repo).Resolved? && r.value.data == Resolve(data, rules, repo).data
    ensures r.Ok? && |rules| > 0 ==> forall k :: k in Resolve(data, rules, repo).ret && k != parentField ==>
      k in r.value.cargs && r.value.cargs[k] == Resolve(data, rules, repo).ret[k]
  {
    var seed := map[parentField := parent];
    if |rules| == 0 then Ok(Prepared(seed, data))
    else
      match Resolve(data, rules, repo)
      case Unresolved(field, entityType) => Err(ReferenceNotFound(entityType, field))
      case Resolved(d, ret) =>
        ResolveFromReturnsRefs(data, map[], rules, repo);
        Ok(Prepared(ArrayUnion(seed, ret), d))
  }

  /**
    * For a rule table with distinct fields, distinct targets and no chaining:
    * the entity resolved for each applying rule is offered to the constructor
    * under the rule's new name (unless that name is the parent field, which the
    * parent keeps), and is in the data handed to the setter pass.
    */
  lemma ResolvedReferenceReachesConstructor(parent: Value, parentField: string, data: DataMap,
                                            rules: seq<FieldRule>, repo: Repository, i: int)
    requires PrepareArgs(parent, parentField, data, rules, repo).Ok?
    requires DistinctFields(rules) && DistinctTargets(rules) && NoChaining(rules)
    requires 0 <= i < |rules| && Applies(rules[i], data)
    ensures (rules[i].rule.entityType.value, data[rules[i].field]) in repo
    ensures var p := PrepareArgs(parent, parentField, data, rules, repo).value;
      var val := Ref(repo[(rules[i].rule.entityType.value, data[rules[i].field])]);
      && (Target(rules[i]) != parentField ==> Target(rules[i]) in p.cargs && p.cargs[Target(rules[i])] == val)
      && Target(rules[i]) in p.data && p.data[Target(rules[i])] == val
  {
    ResolveStoresEntity(data, rules, repo, i);
  }

  /**
    * For a rule table with distinct fields and no chaining, every constructor
    * argument other than the parent sits under the new name of a rule that
    * applied: a skipped rule offers nothing to the constructor.
    */
  lemma ConstructorArgsOnlyFromApplyingRules(parent: Value, parentField: string, data: DataMap,
                                             rules: seq<FieldRule>, repo: Repository)
    requires PrepareArgs(parent, parentField, data, rules, repo).Ok?
    requires DistinctFields(rules) && NoChaining(rules)
    ensures forall k :: k in PrepareArgs(parent, parentField, data, rules, repo).value.cargs && k != parentField ==>
      WrittenByApplied(rules, data, k)
  {
    if |rules| > 0 {
      ResolveWritesOnlyApplied(data, rules, repo);
    }
  }

  /**
    * A constructor parameter named like the parent field is always bound to
    * the parent, whatever the rules resolved.
    */
  lemma ParentReachesItsParameter(parent: Value, parentField: string, data: DataMap, rules: seq<FieldRule>,
                                  repo: Repository, params: seq<Param>, j: int)
    requires PrepareArgs(parent, parentField, data, rules, repo).Ok?
    requires DistinctNames(params) && 0 <= j < |params| && params[j].name == parentField
    requires Bind(PrepareArgs(parent, parentField, data, rules, repo).value.cargs, params).Bound?
    ensures var args := Bind(PrepareArgs(parent, parentField, data, rules, repo).value.cargs, params).args;
      |args| == |params| && args[j] == parent
  {
    BindOneArgumentPerParameter(PrepareArgs(parent, parentField, data, rules, repo).value.cargs, params);
  }

  /**
    * A request field that no rule names (neither as field nor as new name)
    * reaches the setter pass unchanged.
    */
  lemma SetterPassKeepsOtherFields(parent: Value, parentField: string, data: DataMap, rules: seq<FieldRule>,
                                   repo: Repository, k: string)
    requires PrepareArgs(parent, parentField, data, rules, repo).Ok?
    requires k !in Fields(rules) && k !in Targets(rules)
    ensures k in PrepareArgs(parent, parentField, data, rules, repo).value.data <==> k in data
    ensures k in data ==> PrepareArgs(parent, parentField, data, rules, repo).value.data[k] == data[k]
  {
    if |rules| > 0 {
      ResolveLeavesOtherKeys(data, rules, repo, k);
    }
  }

  /** The view of a certificate returned after approval. */
  datatype CertView = CertView(internalId: int, approved: bool, userData: Option<TemplateParams>)

  /** The response of a material list: the section key and the listed views. */
  datatype ListResponse = ListResponse(section: string, items: seq<DataMap>)

  /**
    * reallyList: the list is returned iff the user can edit the appointment or
    * is enrolled in it; otherwise not-found, and nothing is listed.
    */
  function ReallyList(canEdit: bool, enrolled: bool, listed: seq<DataMap>): (r: Result<ListResponse>)
    ensures r.Ok? <==> canEdit || enrolled
    ensures r.Ok? ==> r.value.section == SectionArrayName && r.value.items == listed
    ensures r.Err? ==> r.error == NotFound
  {
    if canEdit || enrolled then Ok(ListResponse(SectionArrayName, listed)) else Err(NotFound)
  }

  /** An entity built by createEntity and the by-reference data map afterwards. */
  datatype Created = Created(entity: Entity, rest: DataMap)

  /** An entity built by addEntityAction and the data handed to the setter pass. */
  datatype Added = Added(entity: Entity, setterData: DataMap)

  /** The controller, acting for the current user against one unit of work. */
  class Controller {
    const user: UserId
    const manager: UnitOfWork

    constructor (user: UserId, manager: UnitOfWork)
      ensures this.user == user && this.manager == manager
    {
      this.user := user;
      this.manager := manager;
    }

    /**
      * createEntity: bind, construct, set the author of an authored entity,
      * persist. A missing parameter aborts with bad data before anything is
      * constructed or persisted.
      */
    method CreateEntity(data: DataMap, cls: EntityClass) returns (r: Result<Created>)
      modifies manager
      ensures Construct(data, cls).Rejected? ==>
        r == Err(BadData(cls.name, Construct(data, cls).param)) && unchanged(manager)
      ensures Construct(data, cls).Constructed? ==>
        && r.Ok?
        && fresh(r.value.entity)
        && r.value.entity.className == cls.name
        && r.value.entity.args == Construct(data, cls).args
        && r.value.entity.author == (if cls.authored then Some(user) else None)
        && r.value.rest == Construct(data, cls).rest
        && manager.persisted == old(manager.persisted) + [r.value.entity]
        && manager.flushes == old(manager.flushes) && manager.events == old(manager.events)
    {
      var args: seq<Value>, rest := [], data;
      if cls.ctorParams.Some? {
        var b := BindParameters(data, cls.ctorParams.value);
        if b.MissingParam? {
          return Err(BadData(cls.name, b.name));
        }
        args, rest := b.args, b.rest;
      }
      var obj := new Entity(cls.name, args);
      if cls.authored {
        obj.author := Some(user);
      }
      manager.persisted := manager.persisted + [obj];
      return Ok(Created(obj, rest));
    }

    /**
      * addEntityAction's construction path, for a parent already looked up and
      * the outcome of its edit-permission check: not-found when the check
      * fails; otherwise resolve references, assemble the constructor arguments
      * and create the entity. The request data, rewritten by the helper, is
      * what the setter pass receives.
      */
    method AddEntity(parent: Value, parentEditable: bool, parentField: string, data: DataMap,
                     rules: seq<FieldRule>, repo: Repository, cls: EntityClass) returns (r: Result<Added>)
      modifies manager
      ensures !parentEditable ==> r == Err(NotFound) && unchanged(manager)
      ensures parentEditable && PrepareArgs(parent, parentField, data, rules, repo).Err? ==>
        r == Err(PrepareArgs(parent, parentField, data, rules, repo).error) && unchanged(manager)
      ensures parentEditable && PrepareArgs(parent, parentField, data, rules, repo).Ok? ==>
        var p := PrepareArgs(parent, parentField, data, rules, repo).value;
        && (Construct(p.cargs, cls).Rejected? ==>
              r == Err(BadData(cls.name, Construct(p.cargs, cls).param)) && unchanged(manager))
        && (Construct(p.cargs, cls).Constructed? ==>
              && r.Ok?
              && fresh(r.value.entity)
              && r.value.entity.className == cls.name
              && r.value.entity.args == Construct(p.cargs, cls).args
              && r.value.entity.author == (if cls.authored then Some(user) else None)
              && r.value.setterData == p.data
              && manager.persisted == old(manager.persisted) + [r.value.entity]
              && manager.flushes == old(manager.flushes) && manager.events == old(manager.events))
    {
      if !parentEditable {
        return Err(NotFound);
      }
      var d := data;
      var cargs := map[parentField := parent];
      if 0 < |rules| {
        var h := EntityCreateHelper(d, rules, repo);
        if h.Unresolved? {
          return Err(ReferenceNotFound(h.entityType, h.field));
        }
        d := h.data;
        cargs := ArrayUnion(cargs, h.ret);
      }
      assert PrepareArgs(parent, parentField, data, rules, repo) == Ok(Prepared(cargs, d));
      var c := CreateEntity(cargs, cls);
      if c.Err? {
        return Err(c.error);
      }
      return Ok(Added(c.value.entity, d));
    }

    /**
      * approveCertAction for the certificate found by internal id (`null` when
      * none). Not-found when the certificate or its material is missing or the
      * user may not edit the material. Otherwise an unapproved certificate is
      * approved with freshly rendered user data, the approval is logged and the
      * unit of work flushed; an approved one is left alone. The view is
      * returned either way.
      */
    method ApproveCert(cert: FinalCert?, canEdit: (EntityId, UserId) -> bool,
                       render: (EntityId, UserId, FinalCert) -> TemplateParams) returns (r: Result<CertView>)
      modifies manager, cert
      ensures (cert == null || cert.material.None? || !canEdit(cert.material.value, user)) ==>
        r == Err(NotFound) && unchanged(manager) && (cert != null ==> unchanged(cert))
      ensures cert != null && cert.material.Some? && canEdit(cert.material.value, user) ==>
        && cert.State() == Approve(old(cert.State()), render(cert.material.value, cert.recipient, cert))
        && r == Ok(CertView(cert.internalId, cert.approved, cert.userData))
        && manager.persisted == old(manager.persisted)
        && (old(cert.approved) ==> manager.flushes == old(manager.flushes) && manager.events == old(manager.events))
        && (!old(cert.approved) ==>
              && manager.flushes == old(manager.flushes) + 1
              && manager.events == old(manager.events) + [CertApproved(cert.internalId, cert.material.value, user)])
    {
      if cert == null || cert.material.None? || !canEdit(cert.material.value, user) {
        return Err(NotFound);
      }
      var material := cert.material.value;
      if !cert.approved {
        var params := render(material, cert.recipient, cert);
        cert.ApproveWith(params);
        manager.events := manager.events + [CertApproved(cert.internalId, material, user)];
        manager.flushes := manager.flushes + 1;
      }
      return Ok(CertView(cert.internalId, cert.approved, cert.userData));
    }
  }
}
