/**
 Access policies as the Go control plane stores and checks them one by one, and as the Rust gateway evaluates
 the list it fetched. Times, versions, logging settings and rate limits play no part in either decision.
 */
module PolicyEvaluation {
  import opened Common

  datatype Selector = Selector(roles: seq<string>, users: seq<string>, groups: seq<string>)

  datatype PolicySpec = PolicySpec(
    name: string, subjects: Selector, providers: seq<string>, models: seq<string>, requestsPerMinute: int)

  datatype Policy = Policy(id: string, name: string, spec: PolicySpec)

  /** What the gateway decodes: omitted lists are absent, and groups are not read. */
  datatype GatewayPolicy = GatewayPolicy(
    id: string, name: string, roles: Option<seq<string>>, users: Option<seq<string>>,
    providers: seq<string>, models: seq<string>)

  datatype Request = Request(identity: string, roles: seq<string>, provider: string, model: string)

  datatype Verdict = Verdict(allowed: bool, policyId: string, policyName: string, reason: string)

  datatype EvaluationResult = EvaluationResult(allowed: bool, policyId: Option<string>, reason: string)

  // ---- The control plane ----

  /** The first complaint about a policy, if any. */
  function Validate(s: PolicySpec): Option<string> {
    if s.name == "" then Some("policy must have a name")
    else if s.subjects.roles == [] && s.subjects.users == [] && s.subjects.groups == [] then
      Some("policy must have at least one subject selector")
    else if s.providers == [] then Some("policy must specify at least one provider")
    else if s.models == [] then Some("policy must specify at least one model")
    else if s.requestsPerMinute <= 0 then Some("requests_per_minute must be positive")
    else None
  }

  predicate Named(s: PolicySpec) { |s.name| > 0 }

  predicate Selects(s: PolicySpec) { |s.subjects.roles| + |s.subjects.users| + |s.subjects.groups| > 0 }

  /** A policy is accepted exactly when five things hold; otherwise the complaint is about the first that does not. */
  lemma ValidateExactly(s: PolicySpec)
    ensures Validate(s) == None <==>
              Named(s) && Selects(s) && |s.providers| > 0 && |s.models| > 0 && s.requestsPerMinute > 0
    ensures Validate(s) == Some("policy must have a name") <==> !Named(s)
    ensures Validate(s) == Some("policy must have at least one subject selector") <==> Named(s) && !Selects(s)
    ensures Validate(s) == Some("policy must specify at least one provider") <==>
              Named(s) && Selects(s) && |s.providers| == 0
    ensures Validate(s) == Some("policy must specify at least one model") <==>
              Named(s) && Selects(s) && |s.providers| > 0 && |s.models| == 0
    ensures Validate(s) == Some("requests_per_minute must be positive") <==>
              Named(s) && Selects(s) && |s.providers| > 0 && |s.models| > 0 && s.requestsPerMinute <= 0
  {
    var complaints := ["policy must have a name", "policy must have at least one subject selector",
                       "policy must specify at least one provider", "policy must specify at least one model",
                       "requests_per_minute must be positive"];
    assert |complaints[0]| == 23 && |complaints[1]| == 46 && |complaints[4]| == 36;
    assert |complaints[2]| == 41 && |complaints[3]| == 38;
  }

  predicate SubjectListed(subjects: Selector, req: Request) {
    (exists r :: r in req.roles && r in subjects.roles) || req.identity in subjects.users
  }

  /** Subject, provider and model are all listed. */
  predicate Grants(p: Policy, req: Request) {
    SubjectListed(p.spec.subjects, req) && req.provider in p.spec.providers && req.model in p.spec.models
  }

  method EvaluatePolicy(p: Policy, req: Request) returns (v: Verdict)
    ensures v.allowed <==> Grants(p, req)
    ensures v.allowed ==> v == Verdict(true, p.id, p.name, "allowed by policy")
    ensures !v.allowed ==> v.policyId == "" && v.policyName == ""
    ensures v.reason == "subject not matched" <==> !SubjectListed(p.spec.subjects, req)
    ensures v.reason == "provider not allowed" <==>
              SubjectListed(p.spec.subjects, req) && req.provider !in p.spec.providers
    ensures v.reason == "model not allowed" <==>
              && SubjectListed(p.spec.subjects, req) && req.provider in p.spec.providers
              && req.model !in p.spec.models
  {
    var subjectMatch := false;
    for i := 0 to |req.roles|
      invariant subjectMatch <==> exists k :: 0 <= k < i && req.roles[k] in p.spec.subjects.roles
    {
      var found := InList(req.roles[i], p.spec.subjects.roles);
      if found {
        subjectMatch := true;
      }
    }
    if !subjectMatch {
      subjectMatch := InList(req.identity, p.spec.subjects.users);
    }
    if !subjectMatch {
      return Verdict(false, "", "", "subject not matched");
    }
    var providerMatch := InList(req.provider, p.spec.providers);
    if !providerMatch {
      return Verdict(false, "", "", "provider not allowed");
    }
    var modelMatch := InList(req.model, p.spec.models);
    if !modelMatch {
      return Verdict(false, "", "", "model not allowed");
    }
    return Verdict(true, p.id, p.name, "allowed by policy");
  }

  /** The search loops of the evaluation, which stop at the first hit. */
  method InList(x: string, list: seq<string>) returns (found: bool)
    ensures found <==> x in list
  {
    found := false;
    for i := 0 to |list|
      invariant found <==> x in list[..i]
    {
      if x == list[i] {
        return true;
      }
    }
  }

  // ---- The gateway ----

  predicate MatchesSubject(p: GatewayPolicy, req: Request) {
    || (p.roles.Some? && exists r :: r in req.roles && r in p.roles.value)
    || (p.users.Some? && req.identity in p.users.value)
  }

  /** An empty provider or model list lets every provider or model through. */
  predicate Matches(p: GatewayPolicy, req: Request) {
    && MatchesSubject(p, req)
    && (p.providers == [] || req.provider in p.providers)
    && (p.models == [] || req.model in p.models)
  }

  /** The position of the first policy that matches. */
  function FirstMatch(ps: seq<GatewayPolicy>, req: Request, from: nat): (r: Option<nat>)
    requires from <= |ps|
    ensures r.Some? ==> from <= r.value < |ps| && Matches(ps[r.value], req)
                        && forall i :: from <= i < r.value ==> !Matches(ps[i], req)
    ensures r.None? ==> forall i :: from <= i < |ps| ==> !Matches(ps[i], req)
    decreases |ps| - from
  {
    if from == |ps| then None
    else if Matches(ps[from], req) then Some(from)
    else FirstMatch(ps, req, from + 1)
  }

  method Evaluate(ps: seq<GatewayPolicy>, req: Request) returns (r: EvaluationResult)
    ensures r == match FirstMatch(ps, req, 0)
                 case Some(i) => EvaluationResult(true, Some(ps[i].id), "Access granted by policy")
                 case None => EvaluationResult(false, None,
                   if ps == [] then "No policies configured - fail closed" else "No matching policy found")
  {
    if |ps| == 0 {
      return EvaluationResult(false, None, "No policies configured - fail closed");
    }
    for i := 0 to |ps|
      invariant forall k :: 0 <= k < i ==> !Matches(ps[k], req)
    {
      if !MatchesSubject(ps[i], req) {
        continue;
      }
      if ps[i].providers != [] && req.provider !in ps[i].providers {
        continue;
      }
      if ps[i].models != [] && req.model !in ps[i].models {
        continue;
      }
      return EvaluationResult(true, Some(ps[i].id), "Access granted by policy");
    }
    return EvaluationResult(false, None, "No matching policy found");
  }

  // ---- The two agree ----

  function Present(list: seq<string>): Option<seq<string>> {
    if list == [] then None else Some(list)
  }

  /** A Go policy written as the gateway's record: empty role and user lists are absent there, the rest is as it is. */
  function ToGateway(p: Policy): GatewayPolicy {
    GatewayPolicy(p.id, p.name, Present(p.spec.subjects.roles), Present(p.spec.subjects.users),
                  p.spec.providers, p.spec.models)
  }

  function AllToGateway(ps: seq<Policy>): (gs: seq<GatewayPolicy>)
    ensures |gs| == |ps| && forall i :: 0 <= i < |ps| ==> gs[i] == ToGateway(ps[i])
  {
    seq(|ps|, i requires 0 <= i < |ps| => ToGateway(ps[i]))
  }

  /** The engines differ on a policy exactly when it lists no provider or no model and matches otherwise. */
  lemma WhereTheyDiffer(p: Policy, req: Request)
    ensures Grants(p, req) ==> Matches(ToGateway(p), req)
    ensures Matches(ToGateway(p), req) && !Grants(p, req) <==>
              && SubjectListed(p.spec.subjects, req)
              && (p.spec.providers == [] || p.spec.models == [])
              && (p.spec.providers == [] || req.provider in p.spec.providers)
              && (p.spec.models == [] || req.model in p.spec.models)
  {
  }

  /** On validated policies the gateway allows a request exactly when some policy does, and names the first one. */
  lemma EnginesAgree(ps: seq<Policy>, req: Request)
    requires forall i :: 0 <= i < |ps| ==> Validate(ps[i].spec).None?
    ensures FirstMatch(AllToGateway(ps), req, 0).Some? <==> exists i :: 0 <= i < |ps| && Grants(ps[i], req)
    ensures forall i :: 0 <= i < |ps| && Grants(ps[i], req) && (forall j :: 0 <= j < i ==> !Grants(ps[j], req)) ==>
              FirstMatch(AllToGateway(ps), req, 0) == Some(i)
  {
    var gs := AllToGateway(ps);
    forall i | 0 <= i < |ps| ensures Matches(gs[i], req) <==> Grants(ps[i], req) {
      assert Validate(ps[i].spec).None?;
      WhereTheyDiffer(ps[i], req);
    }
  }

  /** Unvalidated policies only ever widen what the gateway allows. */
  lemma GatewayAllowsAtLeast(ps: seq<Policy>, req: Request, i: nat)
    requires i < |ps| && Grants(ps[i], req)
    ensures FirstMatch(AllToGateway(ps), req, 0).Some? && FirstMatch(AllToGateway(ps), req, 0).value <= i
  {
    WhereTheyDiffer(ps[i], req);
    assert Matches(AllToGateway(ps)[i], req);
  }

  /** A validated policy can grant some request exactly when it lists a role or a user; groups alone reach nobody. */
  lemma GroupsReachNobody(p: Policy)
    requires Validate(p.spec).None?
    ensures (exists req :: Grants(p, req)) <==> p.spec.subjects.roles != [] || p.spec.subjects.users != []
  {
    var s := p.spec;
    if s.subjects.roles != [] || s.subjects.users != [] {
      var roles := if s.subjects.roles != [] then [s.subjects.roles[0]] else [];
      var identity := if s.subjects.users != [] then s.subjects.users[0] else "";
      var req := Request(identity, roles, s.providers[0], s.models[0]);
      assert s.subjects.roles != [] ==> roles[0] in req.roles && roles[0] in s.subjects.roles;
      assert Grants(p, req);
    }
  }
}
