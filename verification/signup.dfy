/** The waitlist signup route, `POST` in app/api/signup/route.js: a decision
    table over the parsed request, the two configuration variables and the
    outcome of one insert into the `pre_signups` table. */
module Signup {
  import opened Wrappers
  import opened Email

  /** What `body?.email` evaluates to once `req.json()` succeeded. A body that
      is not an object (a number, a string, `null`) has no `email` property
      and gives `Undefined`. Numbers are kept only as far as `||` looks at
      them: whether they are `0`/`NaN` (falsy) or not. */
  datatype JsonValue =
    | Undefined
    | Null
    | Boolean(b: bool)
    | Number(zeroOrNaN: bool)
    | Text(s: string)
    | Object
    | Array

  /** JavaScript truthiness, as `body?.email || ""` tests it. */
  predicate Truthy(v: JsonValue) {
    match v
    case Undefined => false
    case Null => false
    case Boolean(b) => b
    case Number(zeroOrNaN) => !zeroOrNaN
    case Text(s) => s != ""
    case Object => true
    case Array => true
  }

  /** The request body: `req.json()` either throws or yields the `email` field. */
  datatype Body = Unparseable | Parsed(email: JsonValue)

  /** The two environment variables; `None` is an unset variable. */
  datatype Env = Env(url: Option<string>, serviceKey: Option<string>)

  /** `!value` is false: the variable is set and not empty. */
  predicate Configured(v: Option<string>) {
    v.Some? && v.value != ""
  }

  /** The error object a failed insert reports. */
  datatype StoreError = StoreError(code: string, message: string)

  /** How the insert ends: the row went in, the store reported an error, or
      creating the client or awaiting the insert threw (an unusable
      `SUPABASE_URL`, say), which the `catch` of lines 42-44 answers. */
  datatype InsertResult = Inserted | Failed(error: StoreError) | Threw

  /** An outcome that has nothing to do with the row itself: a throw, or a
      reported error other than the unique violation, which only the
      table's own constraint raises. */
  type Fault = r: InsertResult | !r.Inserted? && !(r.Failed? && r.error.code == UniqueViolation) witness Threw

  /** The JSON payload of a response: `{ ok: true, message }` or `{ error }`. */
  datatype Payload = Ok(message: string) | Error(error: string)

  datatype Response = Response(status: int, payload: Payload)

  const InvalidRequest := "Invalid request."
  const InvalidEmail := "Please enter a valid email."
  const NotConfigured := "Server not configured: missing Supabase keys."
  const AlreadyJoined := "You're already on the waitlist \U{2705}"
  const Joined := "You're on the waitlist! \U{1F389}"
  const StoreErrorPrefix := "Supabase error: "
  /** PostgreSQL's SQLSTATE for a unique-constraint violation. */
  const UniqueViolation := "23505"

  /** `(body?.email || "").trim().toLowerCase()`: a falsy field becomes `""`;
      a truthy field that is not a string has no `trim` method, so the call
      throws (`None`). */
  function EmailOf(v: JsonValue): (r: Option<string>)
    ensures !Truthy(v) ==> r == Some("")
    ensures v.Text? ==> r == Some(Normalize(v.s))
    ensures r.None? <==> Truthy(v) && !v.Text?
    ensures r.Some? ==> IsTrimmed(r.value) && NoUpper(r.value)
  {
    if !Truthy(v) then Some(Normalize(""))
    else if v.Text? then Some(Normalize(v.s))
    else None
  }

  /** What the handler does before touching the store: answer at once, or
      go on to insert the normalised address. */
  datatype Stage = Reply(response: Response) | Insert(email: string)

  /** Lines 11-27: parse, normalise, validate, check configuration, in that
      order. */
  function Admit(body: Body, env: Env): (st: Stage)
    ensures body.Unparseable? ==> st == Reply(Response(400, Error(InvalidRequest)))
    ensures st.Insert? <==>
      && body.Parsed? && EmailOf(body.email).Some? && WellFormedAddress(EmailOf(body.email).value)
      && Configured(env.url) && Configured(env.serviceKey)
    ensures st.Insert? ==> st.email == EmailOf(body.email).value
    ensures st.Reply? ==> st.response.payload.Error? && st.response.status in {400, 500}
  {
    match body
    case Unparseable => Reply(Response(400, Error(InvalidRequest)))
    case Parsed(v) =>
      match EmailOf(v)
      case None => Reply(Response(400, Error(InvalidRequest)))
      case Some(email) =>
        if !IsValidEmail(email) then Reply(Response(400, Error(InvalidEmail)))
        else if !Configured(env.url) || !Configured(env.serviceKey) then Reply(Response(500, Error(NotConfigured)))
        else Insert(email)
  }

  /** Lines 33-44: the response for an insert outcome. A unique violation is
      reported as success; a throw is caught as an invalid request. */
  function ReportInsert(result: InsertResult): (r: Response)
    ensures r.status == 200 <==> result.Inserted? || (result.Failed? && result.error.code == UniqueViolation)
    ensures result.Threw? ==> r == Response(400, Error(InvalidRequest))
    ensures r.payload.Ok? <==> r.status == 200
    ensures result.Inserted? ==> r.payload == Ok(Joined)
    ensures result.Failed? && result.error.code == UniqueViolation ==> r.payload == Ok(AlreadyJoined)
    ensures result.Failed? && result.error.code != UniqueViolation ==>
      r.status == 500 && r.payload.Error?
      && |r.payload.error| == |StoreErrorPrefix| + |result.error.message|
      && r.payload.error[..|StoreErrorPrefix|] == StoreErrorPrefix
      && r.payload.error[|StoreErrorPrefix|..] == result.error.message
  {
    match result
    case Inserted => Response(200, Ok(Joined))
    case Failed(e) =>
      if e.code == UniqueViolation then Response(200, Ok(AlreadyJoined))
      else Response(500, Error(StoreErrorPrefix + e.message))
    case Threw => Response(400, Error(InvalidRequest))
  }

  /** The whole handler, given the outcome the insert would report. */
  function Post(body: Body, env: Env, outcome: InsertResult): (r: Response)
    ensures body.Unparseable? ==> r == Response(400, Error(InvalidRequest))
    ensures body.Parsed? && Truthy(body.email) && !body.email.Text? ==> r == Response(400, Error(InvalidRequest))
    ensures body.Parsed? && !Truthy(body.email) ==> r == Response(400, Error(InvalidEmail))
    ensures body.Parsed? && body.email.Text? && !WellFormedAddress(Normalize(body.email.s)) ==>
      r == Response(400, Error(InvalidEmail))
    ensures body.Parsed? && body.email.Text? && WellFormedAddress(Normalize(body.email.s))
            && !(Configured(env.url) && Configured(env.serviceKey)) ==>
      r == Response(500, Error(NotConfigured))
    ensures body.Parsed? && body.email.Text? && WellFormedAddress(Normalize(body.email.s))
            && Configured(env.url) && Configured(env.serviceKey) ==>
      r == ReportInsert(outcome)
    ensures r.status in {200, 400, 500}
    ensures r.payload.Ok? <==> r.status == 200
  {
    match Admit(body, env)
    case Reply(response) => response
    case Insert(_) => ReportInsert(outcome)
  }

  /** The rows of `pre_signups`, in insertion order. */
  type Table = seq<string>

  /** The table's unique constraint on `email`. */
  ghost predicate Unique(t: Table) {
    forall i, j :: 0 <= i < j < |t| ==> t[i] != t[j]
  }

  /** Every row is an address the handler would accept, in normal form. */
  ghost predicate WaitlistInvariant(t: Table) {
    && Unique(t)
    && forall i :: 0 <= i < |t| ==> IsTrimmed(t[i]) && NoUpper(t[i]) && WellFormedAddress(t[i])
  }

  const DuplicateKeyMessage := "duplicate key value violates unique constraint"

  /** One insert against the table. `fault` is an outcome that has nothing
      to do with the row (the service is unreachable, the key is wrong, the
      client throws, ...); otherwise the unique constraint decides. */
  function InsertRow(t: Table, email: string, fault: Option<Fault>): (res: (InsertResult, Table))
    ensures fault.Some? ==> res == (fault.value, t)
    ensures fault.None? ==> (res.0.Inserted? <==> email !in t)
    ensures fault.None? && !res.0.Inserted? ==> res.0.Failed? && res.0.error.code == UniqueViolation
    ensures res.0.Inserted? ==> res.1 == t + [email]
    ensures !res.0.Inserted? ==> res.1 == t
    ensures Unique(t) ==> Unique(res.1)
  {
    if fault.Some? then (fault.value, t)
    else if email in t then (Failed(StoreError(UniqueViolation, DuplicateKeyMessage)), t)
    else (Inserted, t + [email])
  }

  /** One request against the table: the handler with its insert carried out. */
  function Submit(t: Table, body: Body, env: Env, fault: Option<Fault>): (res: (Response, Table))
    ensures |t| <= |res.1| <= |t| + 1 && t <= res.1
    ensures res.1 != t ==>
      && res.0 == Response(200, Ok(Joined))
      && Admit(body, env).Insert?
      && res.1 == t + [Admit(body, env).email]
    ensures res.0.status != 200 ==> res.1 == t
  {
    match Admit(body, env)
    case Reply(response) => (response, t)
    case Insert(email) =>
      var (result, t') := InsertRow(t, email, fault);
      (ReportInsert(result), t')
  }

  /** A table of distinct, normalised, well-formed addresses stays one. */
  lemma SubmitKeepsInvariant(t: Table, body: Body, env: Env, fault: Option<Fault>)
    requires WaitlistInvariant(t)
    ensures WaitlistInvariant(Submit(t, body, env, fault).1)
  {
    var t' := Submit(t, body, env, fault).1;
    if t' != t {
      var e := Admit(body, env).email;
      assert IsTrimmed(e) && NoUpper(e) && WellFormedAddress(e);
      assert e !in t;
      AppendKeepsInvariant(t, e);
    }
  }

  lemma AppendKeepsInvariant(t: Table, e: string)
    requires WaitlistInvariant(t) && e !in t
    requires IsTrimmed(e) && NoUpper(e) && WellFormedAddress(e)
    ensures WaitlistInvariant(t + [e])
  {
    var t' := t + [e];
    forall i, j | 0 <= i < j < |t'|
      ensures t'[i] != t'[j]
    {
      if j < |t| {
        assert t'[i] == t[i] && t'[j] == t[j];
      } else {
        assert t'[i] == t[i];
      }
    }
    forall i | 0 <= i < |t'|
      ensures IsTrimmed(t'[i]) && NoUpper(t'[i]) && WellFormedAddress(t'[i])
    {
      if i < |t| {
        assert t'[i] == t[i];
      }
    }
  }

  /** A row is added only for a parsed string field, and it is that field
      normalised. */
  lemma SubmitStoresNormalForm(t: Table, body: Body, env: Env, fault: Option<Fault>)
    ensures Submit(t, body, env, fault).1 != t ==>
      body.Parsed? && body.email.Text? && Submit(t, body, env, fault).1 == t + [Normalize(body.email.s)]
  {
  }

  /** Submitting against a table answers as the decision table does for the
      outcome the table reports. */
  lemma SubmitFollowsPost(t: Table, body: Body, env: Env, fault: Option<Fault>)
    ensures Admit(body, env).Reply? ==>
      forall outcome :: Submit(t, body, env, fault).0 == Post(body, env, outcome)
    ensures Admit(body, env).Insert? ==>
      Submit(t, body, env, fault).0 == Post(body, env, InsertRow(t, Admit(body, env).email, fault).0)
  {
  }

  /** A string field whose normal form lacks an `@` or a dot is rejected as
      invalid, and the store is never written. */
  lemma MissingAtOrDotRejected(t: Table, s: string, env: Env, fault: Option<Fault>)
    requires '@' !in Normalize(s) || '.' !in Normalize(s)
    ensures Submit(t, Parsed(Text(s)), env, fault) == (Response(400, Error(InvalidEmail)), t)
  {
    MissingAtOrDot(Normalize(s));
    assert EmailOf(Text(s)) == Some(Normalize(s));
  }

  /** With either variable missing, every well-formed address gets the
      configuration error and the store is never written. */
  lemma UnconfiguredRejected(t: Table, s: string, env: Env, fault: Option<Fault>)
    requires WellFormedAddress(Normalize(s))
    requires !Configured(env.url) || !Configured(env.serviceKey)
    ensures Submit(t, Parsed(Text(s)), env, fault) == (Response(500, Error(NotConfigured)), t)
  {
    AdmitUnconfigured(s, env);
  }

  lemma AdmitUnconfigured(s: string, env: Env)
    requires WellFormedAddress(Normalize(s))
    requires !Configured(env.url) || !Configured(env.serviceKey)
    ensures Admit(Parsed(Text(s)), env) == Reply(Response(500, Error(NotConfigured)))
  {
    var st := Admit(Parsed(Text(s)), env);
    assert EmailOf(Text(s)) == Some(Normalize(s));
    assert IsValidEmail(Normalize(s));
  }

  /** A well-formed address with both variables set, whose client or insert
      throws: 400 "Invalid request.", and the table is unchanged. */
  lemma ThrowingStoreRejected(t: Table, s: string, env: Env)
    requires Configured(env.url) && Configured(env.serviceKey)
    requires WellFormedAddress(Normalize(s))
    ensures Submit(t, Parsed(Text(s)), env, Some(Threw)) == (Response(400, Error(InvalidRequest)), t)
  {
    AdmitAddress(env, s);
    SubmitThrew(t, Parsed(Text(s)), env, Normalize(s));
  }

  /** Once admitted, a throw is answered with 400 "Invalid request.". */
  lemma SubmitThrew(t: Table, body: Body, env: Env, e: string)
    requires Admit(body, env) == Insert(e)
    ensures Submit(t, body, env, Some(Threw)) == (Response(400, Error(InvalidRequest)), t)
  {
    SubmitFaulted(t, body, env, e, Threw);
  }

  /** Once admitted, a failure unrelated to the row is answered as that
      outcome, and the table is unchanged. */
  lemma SubmitFaulted(t: Table, body: Body, env: Env, e: string, f: Fault)
    requires Admit(body, env) == Insert(e)
    ensures Submit(t, body, env, Some(f)) == (ReportInsert(f), t)
    ensures Submit(t, body, env, Some(f)).0.status != 200
  {
    assert InsertRow(t, e, Some(f)) == (f, t);
  }

  /** "Already on the waitlist" is said only for an address the table
      holds: the duplicate answer comes from the constraint alone. */
  lemma AlreadyJoinedOnlyWhenStored(t: Table, body: Body, env: Env, fault: Option<Fault>)
    ensures Submit(t, body, env, fault).0 == Response(200, Ok(AlreadyJoined)) ==>
      Admit(body, env).Insert? && Admit(body, env).email in t
  {
    match Admit(body, env)
    case Reply(response) =>
    case Insert(e) =>
      if fault.Some? {
        SubmitFaulted(t, body, env, e, fault.value);
      }
  }

  /** One incoming request: its body and whatever unrelated failure the
      store would report for it. */
  datatype Request = Request(body: Body, fault: Option<Fault>)

  /** Requests handled one after another against the same table; a sequence
      is one interleaving of concurrent requests, the store's constraint
      check being atomic. */
  function SubmitAll(t: Table, env: Env, reqs: seq<Request>): (res: (seq<Response>, Table))
    ensures |res.0| == |reqs|
    ensures t <= res.1 && |res.1| <= |t| + |reqs|
    decreases |reqs|
  {
    if reqs == [] then ([], t)
    else
      var before := SubmitAll(t, env, reqs[..|reqs| - 1]);
      var last := reqs[|reqs| - 1];
      var after := Submit(before.1, last.body, env, last.fault);
      (before.0 + [after.0], after.1)
  }

  /** However requests interleave, the table keeps its invariant. */
  lemma {:induction false} SubmitAllKeepsInvariant(t: Table, env: Env, reqs: seq<Request>)
    requires WaitlistInvariant(t)
    ensures WaitlistInvariant(SubmitAll(t, env, reqs).1)
    decreases |reqs|
  {
    if reqs != [] {
      var init := reqs[..|reqs| - 1];
      var last := reqs[|reqs| - 1];
      SubmitAllKeepsInvariant(t, env, init);
      SubmitKeepsInvariant(SubmitAll(t, env, init).1, last.body, env, last.fault);
    }
  }

  /** A request carrying the string `s` as its `email` field, with no
      unrelated store failure. */
  predicate Carries(req: Request, address: string) {
    req.body.Parsed? && req.body.email.Text? && Normalize(req.body.email.s) == address && req.fault.None?
  }

  /** A well-formed address, with the store configured and reachable:
      joined if new, told it already is otherwise; the table gains it only
      in the first case. */
  lemma SubmitAddress(t: Table, env: Env, s: string)
    requires Configured(env.url) && Configured(env.serviceKey)
    requires WellFormedAddress(Normalize(s))
    ensures Submit(t, Parsed(Text(s)), env, None) ==
      if Normalize(s) in t then (Response(200, Ok(AlreadyJoined)), t)
      else (Response(200, Ok(Joined)), t + [Normalize(s)])
  {
    AdmitAddress(env, s);
    SubmitInsert(t, Parsed(Text(s)), env, Normalize(s));
  }

  /** A string field holding a well-formed address, with the store
      configured, goes on to the insert under its normal form. */
  lemma AdmitAddress(env: Env, s: string)
    requires Configured(env.url) && Configured(env.serviceKey)
    requires WellFormedAddress(Normalize(s))
    ensures Admit(Parsed(Text(s)), env) == Insert(Normalize(s))
  {
    var st := Admit(Parsed(Text(s)), env);
    assert EmailOf(Text(s)) == Some(Normalize(s));
    assert st.Insert?;
  }

  /** Once admitted, and with no unrelated failure, the table's unique
      constraint alone decides the answer. */
  lemma SubmitInsert(t: Table, body: Body, env: Env, e: string)
    requires Admit(body, env) == Insert(e)
    ensures Submit(t, body, env, None) ==
      if e in t then (Response(200, Ok(AlreadyJoined)), t)
      else (Response(200, Ok(Joined)), t + [e])
  {
    if e in t {
      assert InsertRow(t, e, None) == (Failed(StoreError(UniqueViolation, DuplicateKeyMessage)), t);
    } else {
      assert InsertRow(t, e, None) == (Inserted, t + [e]);
    }
  }

  /** The same address submitted twice, in any spelling that normalises the
      same: the first joins, the second is told it already has, and the
      table holds the address once. */
  lemma SubmitTwice(t: Table, env: Env, s1: string, s2: string)
    requires Configured(env.url) && Configured(env.serviceKey)
    requires Normalize(s1) == Normalize(s2) && WellFormedAddress(Normalize(s1))
    requires Normalize(s1) !in t
    ensures var (r1, t1) := Submit(t, Parsed(Text(s1)), env, None);
            var (r2, t2) := Submit(t1, Parsed(Text(s2)), env, None);
            && r1 == Response(200, Ok(Joined))
            && r2 == Response(200, Ok(AlreadyJoined))
            && t2 == t + [Normalize(s1)]
            && multiset(t2)[Normalize(s1)] == 1
  {
    var e := Normalize(s1);
    SubmitAddress(t, env, s1);
    SubmitAddress(t + [e], env, s2);
    OnceMore(t, e);
  }

  /** Appending an absent element makes its count one. */
  lemma OnceMore(t: Table, e: string)
    requires e !in t
    ensures multiset(t + [e])[e] == 1
  {
    assert multiset(t + [e]) == multiset(t) + multiset{e};
  }

  /** The first response says the address joined, every later one that it
      already had. */
  ghost predicate JoinedOnceThenAlready(rs: seq<Response>) {
    && |rs| > 0
    && rs[0] == Response(200, Ok(Joined))
    && forall k :: 0 < k < |rs| ==> rs[k] == Response(200, Ok(AlreadyJoined))
  }

  /** Any number of requests for one address, with nothing else failing:
      exactly the first is told it joined, every later one that it already
      had, and the table gains the address once. */
  lemma RepeatedSubmissions(t: Table, env: Env, address: string, reqs: seq<Request>)
    requires Configured(env.url) && Configured(env.serviceKey)
    requires WellFormedAddress(address) && address !in t
    requires |reqs| > 0 && forall k :: 0 <= k < |reqs| ==> Carries(reqs[k], address)
    ensures JoinedOnceThenAlready(SubmitAll(t, env, reqs).0)
    ensures SubmitAll(t, env, reqs).1 == t + [address]
    ensures multiset(SubmitAll(t, env, reqs).1)[address] == 1
  {
    RepeatedResponses(t, env, address, reqs);
    OnceMore(t, address);
  }

  lemma {:induction false} RepeatedResponses(t: Table, env: Env, address: string, reqs: seq<Request>)
    requires Configured(env.url) && Configured(env.serviceKey)
    requires WellFormedAddress(address) && address !in t
    requires |reqs| > 0 && forall k :: 0 <= k < |reqs| ==> Carries(reqs[k], address)
    ensures JoinedOnceThenAlready(SubmitAll(t, env, reqs).0)
    ensures SubmitAll(t, env, reqs).1 == t + [address]
    decreases |reqs|
  {
    if |reqs| == 1 {
      FirstSubmission(t, env, address, reqs);
    } else {
      var init := reqs[..|reqs| - 1];
      assert forall k :: 0 <= k < |init| ==> init[k] == reqs[k];
      RepeatedResponses(t, env, address, init);
      LaterSubmission(t, env, address, reqs);
    }
  }

  /** Base case of RepeatedSubmissions. */
  lemma FirstSubmission(t: Table, env: Env, address: string, reqs: seq<Request>)
    requires Configured(env.url) && Configured(env.serviceKey)
    requires WellFormedAddress(address) && address !in t
    requires |reqs| == 1 && Carries(reqs[0], address)
    ensures SubmitAll(t, env, reqs) == ([Response(200, Ok(Joined))], t + [address])
  {
    var req := reqs[0];
    assert reqs[..0] == [];
    var before := SubmitAll(t, env, []);
    assert before == ([], t);
    assert req == Request(Parsed(Text(req.body.email.s)), None);
    SubmitAddress(t, env, req.body.email.s);
    var after := Submit(t, req.body, env, req.fault);
    assert after == (Response(200, Ok(Joined)), t + [address]);
    assert SubmitAll(t, env, reqs) == (before.0 + [after.0], after.1);
    assert before.0 + [after.0] == [Response(200, Ok(Joined))];
  }

  /** Inductive step of RepeatedSubmissions. */
  lemma LaterSubmission(t: Table, env: Env, address: string, reqs: seq<Request>)
    requires Configured(env.url) && Configured(env.serviceKey)
    requires WellFormedAddress(address)
    requires |reqs| > 1 && Carries(reqs[|reqs| - 1], address)
    requires JoinedOnceThenAlready(SubmitAll(t, env, reqs[..|reqs| - 1]).0)
    requires SubmitAll(t, env, reqs[..|reqs| - 1]).1 == t + [address]
    ensures JoinedOnceThenAlready(SubmitAll(t, env, reqs).0)
    ensures SubmitAll(t, env, reqs).1 == t + [address]
  {
    var before := SubmitAll(t, env, reqs[..|reqs| - 1]);
    AlreadyOnTable(before.1, env, address, reqs[|reqs| - 1]);
    assert SubmitAll(t, env, reqs) == (before.0 + [Response(200, Ok(AlreadyJoined))], before.1);
    AlreadyExtends(before.0);
  }

  /** A request for an address the table already holds. */
  lemma AlreadyOnTable(t: Table, env: Env, address: string, req: Request)
    requires Configured(env.url) && Configured(env.serviceKey)
    requires WellFormedAddress(address) && address in t && Carries(req, address)
    ensures Submit(t, req.body, env, req.fault) == (Response(200, Ok(AlreadyJoined)), t)
  {
    assert req == Request(Parsed(Text(req.body.email.s)), None);
    SubmitAddress(t, env, req.body.email.s);
  }

  lemma AlreadyExtends(rs: seq<Response>)
    requires JoinedOnceThenAlready(rs)
    ensures JoinedOnceThenAlready(rs + [Response(200, Ok(AlreadyJoined))])
  {
    var rs' := rs + [Response(200, Ok(AlreadyJoined))];
    forall k | 0 < k < |rs'|
      ensures rs'[k] == Response(200, Ok(AlreadyJoined))
    {
      if k < |rs| {
        assert rs'[k] == rs[k];
      }
    }
  }

  /** A padded, mixed-case address joins once under its normal form and is
      then told it is already on the list. */
  lemma PaddedMixedCaseScenario(env: Env)
    requires Configured(env.url) && Configured(env.serviceKey)
    ensures var (r1, t1) := Submit([], Parsed(Text("  User@Example.com ")), env, None);
            var (r2, t2) := Submit(t1, Parsed(Text("  User@Example.com ")), env, None);
            && r1 == Response(200, Ok(Joined)) && r2 == Response(200, Ok(AlreadyJoined))
            && t2 == ["user@example.com"]
  {
    ExampleNormalized();
    ExampleIsWellFormed();
    SubmitTwice([], env, "  User@Example.com ", "  User@Example.com ");
  }

  lemma ExampleNormalized()
    ensures Normalize("  User@Example.com ") == "user@example.com"
  {
    var s := "  User@Example.com ";
    var core := "User@Example.com";
    assert s[2..18] == core && s[..2] == "  " && s[18..] == " ";
    assert IsTrimmed(core);
    assert PadSplit(s, core, 2, 18);
    TrimUnique(s, core);
    ExampleLowered();
  }

  lemma ExampleLowered()
    ensures ToLower("User@Example.com") == "user@example.com"
  {
    var core, e := "User@Example.com", "user@example.com";
    assert LowerChar('U') == 'u' && LowerChar('E') == 'e';
    forall i | 0 <= i < |core|
      ensures ToLower(core)[i] == e[i]
    {
      if i != 0 && i != 5 {
        assert !IsUpper(core[i]);
      }
    }
  }

  lemma ExampleIsWellFormed()
    ensures WellFormedAddress("user@example.com")
  {
    ExampleRuns();
    AssembledIsWellFormed("user", "example", "com");
    assert "user" + "@" + "example" + "." + "com" == "user@example.com";
  }

  lemma ExampleRuns()
    ensures AllAddressChars("user") && AllAddressChars("example") && AllAddressChars("com")
  {
    assert AllAddressChars("user");
    assert AllAddressChars("example");
  }

  /** A string without `@` is turned away before configuration is looked at. */
  lemma NotAnEmailScenario(env: Env, outcome: InsertResult)
    ensures Post(Parsed(Text("not-an-email")), env, outcome) == Response(400, Error(InvalidEmail))
  {
    NotAnEmailIsNormal();
    NotAnEmailIsMalformed();
    MalformedRejected("not-an-email", env, outcome);
  }

  /** A string field whose normal form is not an address gets 400, whatever
      the configuration and the store. */
  lemma MalformedRejected(s: string, env: Env, outcome: InsertResult)
    requires !WellFormedAddress(Normalize(s))
    ensures Post(Parsed(Text(s)), env, outcome) == Response(400, Error(InvalidEmail))
  {
  }

  lemma NotAnEmailIsNormal()
    ensures Normalize("not-an-email") == "not-an-email"
  {
    var s := "not-an-email";
    forall i | 0 <= i < |s|
      ensures !IsUpper(s[i])
    {
    }
    NormalizedIsFixed(s);
  }

  lemma NotAnEmailIsMalformed()
    ensures !WellFormedAddress("not-an-email")
  {
    var s := "not-an-email";
    forall i | 0 <= i < |s|
      ensures !AtSplit(s, i)
    {
      assert s[i] != '@';
    }
  }
}
