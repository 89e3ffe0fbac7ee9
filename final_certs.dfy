/**
  * The approval record of a final submission and its one-way approval step
  * (approveCertAction, aptMaterialController.php:770-786).
  */
module FinalCerts {
  import opened Wrappers
  import opened Api

  /** The template parameters rendered by the certificate manager (a foreign call). */
  type TemplateParams = map<string, string>

  /** The approval-relevant state of a certificate. */
  datatype CertState = CertState(approved: bool, userData: Option<TemplateParams>)

  /**
    * One approval step: an unapproved certificate becomes approved and takes
    * the rendered parameters as its user data; an approved one stays as it is.
    */
  function Approve(s: CertState, params: TemplateParams): (t: CertState)
    ensures t.approved
    ensures s.approved ==> t == s
    ensures !s.approved ==> t.userData == Some(params)
  {
    if s.approved then s else CertState(true, Some(params))
  }

  /** Approving twice is approving once, whatever the second call would render. */
  lemma ApproveIdempotent(s: CertState, p1: TemplateParams, p2: TemplateParams)
    ensures Approve(Approve(s, p1), p2) == Approve(s, p1)
  {
  }

  /** An approved certificate is never un-approved by any sequence of approvals. */
  lemma {:induction false} ApprovalIsMonotonic(s: CertState, params: seq<TemplateParams>)
    requires s.approved
    ensures ApproveAll(s, params) == s
    decreases |params|
  {
    if params != [] {
      ApprovalIsMonotonic(Approve(s, params[0]), params[1..]);
    }
  }

  /** Repeated approval requests, in order. */
  function ApproveAll(s: CertState, params: seq<TemplateParams>): CertState
    decreases |params|
  {
    if params == [] then s else ApproveAll(Approve(s, params[0]), params[1..])
  }

  /**
    * After any non-empty series of approval requests the certificate is
    * approved and carries the parameters rendered by the first request that
    * found it unapproved.
    */
  lemma {:induction false} ApproveAllTakesFirstParams(s: CertState, params: seq<TemplateParams>)
    requires params != []
    ensures ApproveAll(s, params).approved
    ensures !s.approved ==> ApproveAll(s, params).userData == Some(params[0])
    ensures s.approved ==> ApproveAll(s, params) == s
    decreases |params|
  {
    ApprovalIsMonotonic(Approve(s, params[0]), params[1..]);
  }

  /** A FinalCert entity: it refers to a material (maybe none) and its recipient. */
  class FinalCert {
    const internalId: int
    const material: Option<EntityId>
    const recipient: UserId
    var approved: bool
    var userData: Option<TemplateParams>

    constructor (internalId: int, material: Option<EntityId>, recipient: UserId)
      ensures this.internalId == internalId && this.material == material && this.recipient == recipient
      ensures !approved && userData == None
    {
      this.internalId := internalId;
      this.material := material;
      this.recipient := recipient;
      approved := false;
      userData := None;
    }

    function State(): CertState
      reads this
    {
      CertState(approved, userData)
    }

    /** `$cert->approve()->setUserData($params)`. */
    method ApproveWith(params: TemplateParams)
      modifies this
      ensures approved && userData == Some(params)
    {
      approved := true;
      userData := Some(params);
    }
  }
}
