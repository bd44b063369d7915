/** `LabClient`: the fields a login sets and a logout clears, and what the later
    calls may rely on. Replies of the control plane are parameters. */
module Clients {
  import opened Wrappers
  import opened Collections
  import opened ResourceIds
  import opened Ipv4
  import opened Pools
  import opened RoutePlans
  import opened Manifests

  datatype ClientError =
    | NotLoggedIn | Rejected | InvalidGrant | InvalidResponse | BindingMismatch | HashMismatch
    | BadEnvelope(error: EnvelopeError) | BadPlan(plan: PlanError)

  /** A well-typed login reply; `None` in its place is any other body. */
  datatype LoginReply = LoginReply(
    token: string, resource: string, expiresIn: int, gatewayPort: int,
    sessionId: Id, virtualIp: Addr, leaseGeneration: int, envelope: Envelope)

  datatype HeartbeatReply = HeartbeatReply(token: string, expiresIn: int, envelope: Envelope)

  class LabClient {
    const verifier: Verifier
    const digest: Base -> string
    const gatewayPort: int
    var token: Option<string>
    var resource: Option<string>
    var sessionId: Option<Id>
    var deviceId: Option<string>
    var binding: Option<Binding>
    var manifest: Option<Manifest>

    /** Logged in means: all fields are set, and the manifest is one that verified
        and belongs to the session of the binding. */
    predicate Valid()
      reads this
    {
      if binding == None then token == None && resource == None && sessionId == None && deviceId == None && manifest == None
      else
        var b := binding.value;
        && token.Some? && resource == Some(b.resourceId) && sessionId == Some(b.sessionId) && deviceId == Some(b.deviceId)
        && manifest.Some? && Bound(manifest.value, b) && digest(manifest.value.base) == manifest.value.hash
    }

    constructor (verifier: Verifier, digest: Base -> string, gatewayPort: int)
      requires 1 <= gatewayPort <= 65_535
      ensures Valid() && binding == None
    {
      this.verifier, this.digest, this.gatewayPort := verifier, digest, gatewayPort;
      token, resource, sessionId, deviceId, binding, manifest := None, None, None, None, None, None;
    }

    function BindingOf(reply: LoginReply, device: string): Binding
      requires reply.leaseGeneration >= 0
    {
      Binding(reply.sessionId, reply.virtualIp, device, reply.leaseGeneration, reply.resource)
    }

    /** Either every field is set from one reply that verifies and binds, or none changes. */
    method Login(status: int, reply: Option<LoginReply>, device: string, now: int) returns (r: Result<Binding, ClientError>)
      requires Valid()
      modifies this
      ensures Valid()
      ensures r.Ok? <==>
        && status == 200 && reply.Some? && reply.value.leaseGeneration > 0 && reply.value.token != ""
        && ResourceIdText(reply.value.resource) && reply.value.gatewayPort == gatewayPort && 1 <= reply.value.expiresIn <= 600
        && Verify(verifier, reply.value.envelope, digest, now).Ok?
        && Bound(reply.value.envelope.signed.manifest, Binding(reply.value.sessionId, reply.value.virtualIp, device,
                                                              reply.value.leaseGeneration, reply.value.resource))
      ensures r.Ok? ==>
        && binding == Some(r.value) && r.value == Binding(reply.value.sessionId, reply.value.virtualIp, device,
                                                          reply.value.leaseGeneration, reply.value.resource)
        && token == Some(reply.value.token) && resource == Some(reply.value.resource)
        && sessionId == Some(reply.value.sessionId) && deviceId == Some(device)
        && manifest == Some(reply.value.envelope.signed.manifest)
      ensures r.Err? ==> unchanged(this)
    {
      if status != 200 { return Err(Rejected); }
      if reply == None || reply.value.leaseGeneration <= 0 { return Err(InvalidGrant); }
      var body := reply.value;
      var verified := Verify(verifier, body.envelope, digest, now);
      if verified.Err? { return Err(InvalidGrant); }
      if body.token == "" || !ResourceIdText(body.resource) || body.gatewayPort != gatewayPort
         || !(1 <= body.expiresIn <= 600) { return Err(InvalidGrant); }
      var b := BindingOf(body, device);
      if !Bound(verified.value, b) { return Err(BindingMismatch); }
      token, resource, sessionId, deviceId := Some(body.token), Some(body.resource), Some(body.sessionId), Some(device);
      binding, manifest := Some(b), Some(verified.value);
      return Ok(b);
    }

    /** A heartbeat renews token and manifest together, for the same session, or not at all. */
    method Heartbeat(status: int, reply: Option<HeartbeatReply>, now: int) returns (r: Result<string, ClientError>)
      requires Valid()
      modifies this`token, this`manifest
      ensures Valid()
      ensures r.Ok? <==>
        && binding.Some? && status == 200 && reply.Some? && 1 <= reply.value.expiresIn <= 600
        && Verify(verifier, reply.value.envelope, digest, now).Ok? && Bound(reply.value.envelope.signed.manifest, binding.value)
      ensures r.Ok? ==> token == Some(reply.value.token) && manifest == Some(reply.value.envelope.signed.manifest)
      ensures r.Err? ==> unchanged(this)
    {
      if binding == None { return Err(NotLoggedIn); }
      if status != 200 { return Err(Rejected); }
      if reply == None || !(1 <= reply.value.expiresIn <= 600) { return Err(InvalidResponse); }
      var verified := Verify(verifier, reply.value.envelope, digest, now);
      if verified.Err? || !Bound(verified.value, binding.value) { return Err(InvalidResponse); }
      token, manifest := Some(reply.value.token), Some(verified.value);
      return Ok(reply.value.token);
    }

    /** `resources`: fetches the manifest anew. */
    method Resources(status: int, envelope: Option<Envelope>, now: int) returns (r: Result<Manifest, ClientError>)
      requires Valid()
      modifies this`manifest
      ensures Valid() && (r.Ok? ==> manifest == Some(r.value)) && (r.Err? ==> unchanged(this))
      ensures r.Ok? <==>
        && binding.Some? && status == 200 && envelope.Some?
        && Verify(verifier, envelope.value, digest, now).Ok? && Bound(envelope.value.signed.manifest, binding.value)
    {
      if binding == None { return Err(NotLoggedIn); }
      if status != 200 { return Err(Rejected); }
      if envelope == None { return Err(InvalidResponse); }
      var verified := Verify(verifier, envelope.value, digest, now);
      if verified.Err? { return Err(BadEnvelope(verified.error)); }
      if !Bound(verified.value, binding.value) { return Err(BindingMismatch); }
      manifest := Some(verified.value);
      return Ok(verified.value);
    }

    /** After a login the checks of `route_plan` on binding and hash never fire:
        what it answers is what `build_route_plan` makes of the stored manifest,
        and a plan's address is the session's. */
    method RoutePlan(names: seq<string>) returns (r: Result<RoutePlan, ClientError>)
      requires Valid() && (manifest.Some? ==> ListsKeys(names, manifest.value.base.dns))
      ensures r == Err(NotLoggedIn) <==> binding == None
      ensures binding.Some? ==> match Planned(RawOf(manifest.value, names))
        case Ok(plan) => r == Ok(plan) && plan.virtualIp == binding.value.virtualIp
        case Err(e) => r == Err(BadPlan(e))
    {
      if binding == None { return Err(NotLoggedIn); }
      var m := manifest.value;
      if !Bound(m, binding.value) { return Err(BindingMismatch); }
      if digest(m.base) != m.hash { return Err(HashMismatch); }
      var plan := BuildRoutePlan(RawOf(m, names));
      return match plan case Ok(p) => Ok(p) case Err(e) => Err(BadPlan(e));
    }

    method Logout(status: int) returns (r: Result<bool, ClientError>)
      requires Valid()
      modifies this
      ensures Valid() && (r.Ok? <==> old(binding).Some? && status == 200)
      ensures if r.Ok? then binding == None else unchanged(this)
    {
      if binding == None { return Err(NotLoggedIn); }
      if status != 200 { return Err(Rejected); }
      token, resource, sessionId, deviceId, binding, manifest := None, None, None, None, None, None;
      return Ok(true);
    }
  }
}
