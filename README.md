# Generic entity construction in the appointment material controller

This project models, in Dafny, the part of `aptMaterialController.php` that
builds a generic child entity from untyped request data, together with two
small decisions of the same controller: certificate approval and read access
to an appointment's material list.

- **Reference pre-processing** (`entityCreateHelper`): a table of rules keyed
  by field name. A rule that is an array with an `entityType`, whose field is
  set (`isset`: present and not null) in the data, has its external id
  resolved through the repository of that type; the original key leaves the
  by-reference data map, the entity is stored under `newName` (default: the
  field name) both in the data and in the returned map. Later rules see the
  data as earlier rules left it. Module `ReferenceResolution`: the loop is the
  method `EntityCreateHelper`, proved equal to the function `Resolve`.
- **Constructor binding** (`createEntity`): reflection is replaced by an
  ordered list of parameter descriptors `(name, optional default)`. A name
  that is a key of the map (`array_key_exists`, so a null value counts) takes
  its value and the key is removed; else the default is used; else binding
  aborts with bad data. Module `ConstructorBinding`: the loop is the method
  `BindParameters`, proved equal to the function `Bind`, whose behaviour the
  lemmas characterise without reference to the loop.
- **Entity creation and argument assembly** (`createEntity`, `addEntityAction`):
  the parent is seeded under the parent field and the helper's result merged
  with PHP's array union `+=`, which keeps left-hand keys, so the parent is
  never overwritten. The built instance gets the current user as author only
  when its class is authored, and is registered with the unit of work; a
  binding failure registers nothing. Module `AptMaterialController`, class
  `Controller`.
- **Certificate approval** (`approveCertAction`): a missing certificate, a
  certificate without material, or a user who may not edit the material gives
  not-found; an unapproved certificate is approved with rendered user data, the
  approval is logged and the unit of work flushed; an approved certificate is
  left as it is. Module `FinalCerts` holds the state and the pure approval step.
- **Read access** (`reallyList`): the list is returned iff the user can edit
  the appointment or is enrolled in it.

One behaviour of the source worth knowing: `addEntityAction` passes `$cargs`
(the parent and the resolved references) to `createEntity`, and `$data` to the
setter pass. Keys consumed by the constructor are removed from `$cargs` only,
so the resolved references are still in the data the setter pass receives, and
a plain request field can reach the constructor only through a rule. The model
keeps this: `AddEntity` returns the helper-rewritten data as `setterData`, and
`PrepareArgs` states that every constructor argument other than the parent is a
resolved reference.

External collaborators are parameters: the repositories' `byUuid` is a partial
map `Repository`; the parent lookup and `canEdit`/`isUserEnrolled` answers are
booleans or functions passed in; the certificate manager's
`customTemplateParams($material, $cert->getUser(), $cert)` is the function
`render`, applied to the material, the recipient and the certificate; `logCertAction` appends a
`CertEvent`; `persist` and `flush` are recorded on the `UnitOfWork` object.

## Model

| member | source | states |
|---|---|---|
| `ConstructorBinding.BindParameters` | aptMaterialController.php:667-686 | the parameter loop returns exactly the binding `Bind` specifies: argument list and remaining map, or the missing parameter |
| `ConstructorBinding.BindFromSucceedsIff` | aptMaterialController.php:668-686 | binding from any partial state succeeds iff every remaining parameter has a key in the map or a default |
| `ConstructorBinding.BindFromBound` | aptMaterialController.php:668-677 | on success one argument per parameter is appended after those already bound, in declaration order, and exactly the parameters' keys leave the map |
| `ConstructorBinding.BindFromMissing` | aptMaterialController.php:678-685 | on failure the reported parameter is the first without key or default |
| `ConstructorBinding.BindSucceedsIff` | aptMaterialController.php:672-685 | binding succeeds iff each parameter's name is a key of the data (null values included) or it has a default |
| `ConstructorBinding.BindOneArgumentPerParameter` | aptMaterialController.php:668-677 | on success there are exactly as many arguments as parameters; argument i is the map's value for parameter i's name when present, else its default |
| `ConstructorBinding.BindConsumesExactlyParameterKeys` | aptMaterialController.php:672-677 | on success keys naming a parameter are removed and every other key keeps its value for the setter pass; defaults do not touch the map |
| `ConstructorBinding.BindReportsFirstMissing` | aptMaterialController.php:678-685 | a failure names the first parameter in declaration order that is neither in the map nor has a default |
| `ReferenceResolution.Rename` | aptMaterialController.php:654-655 | after the rewrite the new name holds the entity, the original field is gone unless it is the new name, every other key is untouched |
| `ReferenceResolution.EntityCreateHelper` | aptMaterialController.php:643-659 | the rule loop returns exactly the rewritten data and resolved map that `Resolve` specifies, or the unresolved field |
| `ReferenceResolution.ResolveFromFrame` | aptMaterialController.php:645-656 | a key that is no rule's field or target keeps its presence and value in the data and in the returned map |
| `ReferenceResolution.ResolveLeavesOtherKeys` | aptMaterialController.php:645-656 | a key named by no rule is unchanged in the data and never returned by the helper |
| `ReferenceResolution.ResolveFromRetKeys` | aptMaterialController.php:649-653 | every key the helper returns is the `newName` (or field) of one of its rules |
| `ReferenceResolution.ResolveSkipsUnsetFields` | aptMaterialController.php:646 | when no rule applies (not an array, no entityType, field absent or null) the data is untouched and nothing is returned |
| `ReferenceResolution.ResolveFromRetInData` | aptMaterialController.php:653-655 | for rules that do not read a field an earlier rule wrote, every returned entity is in the rewritten data under the same key |
| `ReferenceResolution.ResolveRetInData` | aptMaterialController.php:653-655 | the helper's returned map agrees with the rewritten data it leaves behind, for unchained rules |
| `ReferenceResolution.ResolveFromFailsIffMiss` | aptMaterialController.php:645-656 | for rules with distinct fields and no chaining, from any partial state: failure iff some rule applies and its id is unknown to the repository; the error names the first such rule's field and type |
| `ReferenceResolution.ResolveFailsIffMiss` | aptMaterialController.php:645-656 | for rules with distinct fields and no chaining, the helper fails iff an applying rule's id misses the repository, and reports the first such rule |
| `ReferenceResolution.ResolveFromWritesOnlyApplied` | aptMaterialController.php:645-656 | for rules with distinct fields and no chaining, from any partial state: a key whose presence or value changes in the data is the field or new name of an applying rule, and a key the returned map gains or changes is the new name of an applying rule |
| `ReferenceResolution.ResolveWritesOnlyApplied` | aptMaterialController.php:645-656 | for rules with distinct fields and no chaining, a rule whose field is absent or null (or that is no array, or has no entityType) writes nothing even when other rules apply: only applying rules' fields and new names change in `$data`, and `$ret` holds only applying rules' new names |
| `ReferenceResolution.ResolveFromKeepsAbsentUnlessApplied` | aptMaterialController.php:654-655 | for rules with distinct fields and no chaining, a key absent from the data stays absent unless an applying rule stores its entity under it |
| `ReferenceResolution.SkippedRuleDoesNotKeepField` | aptMaterialController.php:646-655 | with rules `a -> x` and `b -> a`, data `{a: "u1"}`, `b` absent: `a` is removed, `x` holds the entity, and only `x` is returned |
| `ReferenceResolution.ResolveFromKeepsAbsent` | aptMaterialController.php:654-655 | a key that no rule writes and that is absent from the data stays absent |
| `ReferenceResolution.ResolveFromStoresEntity` | aptMaterialController.php:646-655 | for rules with distinct fields and targets and no chaining, from any partial state, each applying rule's id is found and the entity found is under its new name in both the returned map and the data; the field is gone unless an applying rule's new name is that field |
| `ReferenceResolution.ResolveStoresEntity` | aptMaterialController.php:646-655 | for rules with distinct fields, distinct new names and no chaining, the helper stores, for every applying rule, `byUuid`'s entity for the rule's id under `newName` in `$ret` and in `$data`; the original field is gone from `$data` unless an applying rule's new name is that field (its own default new name included) |
| `AptMaterialController.ResolvedReferenceReachesConstructor` | aptMaterialController.php:628-634 | for rules with distinct fields, distinct new names and no chaining, each applying rule's resolved entity is a constructor argument under its new name (unless that name is the parent field) and is in the setter-pass data |
| `AptMaterialController.ArrayUnion` | aptMaterialController.php:630 | `+=` yields the keys of both sides, and the left-hand value wherever the left side has the key |
| `ReferenceResolution.ResolveFromReturnsRefs` | aptMaterialController.php:650-653 | every value the helper returns is a resolved entity |
| `AptMaterialController.PrepareArgs` | aptMaterialController.php:628-632 | the parent is under the parent field of the constructor arguments whatever the rules resolved; the argument keys are exactly the parent field plus the keys the helper returned, each of the latter (other than the parent field) with the helper's value; the setter data is the helper's rewritten data; failure iff a reference is unresolved |
| `AptMaterialController.ConstructorArgsOnlyFromApplyingRules` | aptMaterialController.php:628-630 | for rules with distinct fields and no chaining, every constructor argument other than the parent is under the new name of a rule that applied |
| `AptMaterialController.ParentReachesItsParameter` | aptMaterialController.php:628-633 | a constructor parameter named like the parent field is bound to the parent |
| `AptMaterialController.SetterPassKeepsOtherFields` | aptMaterialController.php:630-634 | a request field named by no rule reaches the setter pass unchanged |
| `AptMaterialController.ReallyList` | aptMaterialController.php:255-261 | the list is returned under `materials` iff the user can edit or is enrolled; otherwise not-found |
| `AptMaterialController.Controller.CreateEntity` | aptMaterialController.php:661-698 | a missing parameter gives bad data with nothing constructed or persisted; otherwise a fresh entity with the bound arguments, authored by the user iff its class is authored, is appended to the persisted instances |
| `AptMaterialController.Controller.AddEntity` | aptMaterialController.php:622-634 | not-found without edit permission; an unresolved reference or missing parameter changes nothing; otherwise the entity is built from the assembled arguments and the rewritten data goes to the setter pass |
| `AptMaterialController.Controller.ApproveCert` | aptMaterialController.php:770-786 | not-found for a missing certificate or material or a refused edit check, with nothing changed; otherwise the certificate ends approved, approval, log and flush happen only if it was not approved, and the view is returned |
| `FinalCerts.Approve` | aptMaterialController.php:777-780 | an approval step leaves the certificate approved; an approved one unchanged; an unapproved one with the rendered user data |
| `FinalCerts.ApproveIdempotent` | aptMaterialController.php:777-783 | approving an approved certificate again changes nothing |
| `FinalCerts.ApprovalIsMonotonic` | aptMaterialController.php:777 | once approved, any sequence of approval requests leaves the certificate as it is |
| `FinalCerts.ApproveAllTakesFirstParams` | aptMaterialController.php:777-781 | after any series of approval requests the certificate is approved, with the user data rendered by the first request that found it unapproved |
| `FinalCerts.FinalCert.ApproveWith` | aptMaterialController.php:780 | `approve()->setUserData(params)` sets the flag and the user data |

## Left out

- The HTTP actions and their setup (`setup`, `newSetup`, `setupHii`, `getRequestData`, JSON and empty responses): request and response plumbing.
- The material manager (`newMaterialFromData`, `editMaterial`, `deleteMaterial`, `updateMaterialsList`, `listMaterials`, `formatMaterialInfo`, `byUuidAndApt`) and the material converter: implemented outside this file, so the material list is a parameter of `ReallyList`.
- The type registry (`modeltype2Class`, `materialClassType`, `pluralName`, `materialDataSectionName`): an abstract lookup; entity classes are given as `EntityClass` values and repositories are keyed by the abstract type name.
- PHP reflection (`ReflectionClass`, `newInstanceArgs`): replaced by explicit parameter descriptors; PHP guarantees distinct parameter names, which the binding lemmas assume.
- Persistence beyond recording `persist` and `flush`, logging of the bad-data message, and `debug` output: external side effects.
- `customTemplateParams` and `logCertAction`: foreign calls, modelled as the `render` function and an appended `CertEvent`.
- `AptMaterialController.Controller.ApproveCert`: `render` is a pure function of the material, the recipient and the certificate object; it cannot depend on the certificate's mutable fields or on other heap state that `customTemplateParams` might read.
- `formatReply` and `allowedReadList`: not part of this model; the certificate view is a snapshot of its id, flag and user data.
- `storefrontUrl`, `storefrontCourseList` and the type callbacks: configuration and course-repository dependent formatting.
- The `method_exists` detach in `deleteEntityAction`, and `listEntitiesAction`, `editEntityAction`, `getEntityAction`: runtime probing and thin wrappers over repositories not shown.
- `getUserFileAction`: a thin wrapper over the user file manager.
- `entityUpdate` (the setter pass): not part of this model; `AddEntity` returns the data it would receive.
- `EntityCreateHelper`: a repository miss in `byUuid` is an opaque `ReferenceNotFound` error, since the repository code is not shown; the partial rewrite of `$data` before such a failure is not modelled, as the request then aborts.
- The reference-helper lemmas other than the frame and skip lemmas hold for rule tables with distinct fields and no chaining (no rule reads a field an earlier rule wrote), and the storing lemmas also for distinct new names: with two rules sharing a new name the later one overwrites the earlier, and a chained rule sees the earlier rule's entity instead of the request value; the loop itself (`EntityCreateHelper` equals `Resolve`) is proved for every table.
- PHP array order: data maps are Dafny maps, so the position of keys (for example the key the helper re-adds at the end) is not modelled; only the setter pass, not part of this model, could observe it.
- PHP's conversion of numeric string keys to integers is not modelled; keys are strings.
- `AddEntity`: the parent lookup by external id and the edit-permission check are inputs (the parent value and a boolean), not modelled calls.
