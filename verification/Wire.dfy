// internal/telemt/mutate.go: the requests an operation becomes, and the errors
// that come back. Bodies are abstract JSON values.
module Wire {
  import opened Options
  import opened Users
  import opened Configs

  datatype Json =
    | Null
    | Bool(value: bool)
    | Num(number: int)
    | Str(text: string)
    | Arr(items: seq<Json>)
    | Obj(fields: map<string, Json>)

  // The MergePatch algorithm of section 2 of RFC 7396.
  function MergePatch(target: Json, patch: Json): Json
    decreases patch
  {
    if patch.Obj? then
      var t, p := (if target.Obj? then target.fields else map[]), patch.fields;
      Obj(map k | k in t.Keys + p.Keys && !(k in p && p[k].Null?) ::
            if k in p then MergePatch(if k in t then t[k] else Null, p[k]) else t[k])
    else patch
  }

  // ---- Requests ----

  datatype Request = Post(body: Json) | PatchUser(name: string, body: Json) | DeleteUser(name: string)

  function JsonOf(v: Option<int>): Json { if v.Some? then Num(v.value) else Null }

  function JsonText(v: Option<string>): Json { if v.Some? then Str(v.value) else Null }

  // Fields with nothing to say are omitted from a create.
  function CreateBody(op: SyncOp): map<string, Json>
    requires op.Create?
  {
    map["username" := Str(op.username), "enabled" := Bool(true)]
    + (if op.secret != "" then map["secret" := Str(op.secret)] else map[])
    + (if op.maxTcpConns.Some? then map["max_tcp_conns" := Num(op.maxTcpConns.value)] else map[])
    + (if op.expiration.Some? then map["expiration_rfc3339" := Str(op.expiration.value)] else map[])
  }

  function PatchBody(f: PatchFields): map<string, Json> {
    (if f.setExpiration then map["expiration_rfc3339" := JsonText(f.expiration)] else map[])
    + (if f.setMaxTcpConns then map["max_tcp_conns" := JsonOf(f.maxTcpConns)] else map[])
    + (if f.enabled.Some? then map["enabled" := Bool(f.enabled.value)] else map[])
  }

  function RequestOf(op: SyncOp): Request {
    match op
    case Create(_, _, _, _) => Post(Obj(CreateBody(op)))
    case Patch(n, f) => PatchUser(n, Obj(PatchBody(f)))
    case Delete(n) => DeleteUser(n)
  }

  // A create names its user and enables it; what has nothing to say is not in the body.
  lemma CreateBodySays(op: SyncOp)
    requires op.Create?
    ensures var body := CreateBody(op);
            && "username" in body && body["username"] == Str(op.username)
            && "enabled" in body && body["enabled"] == Bool(true)
            && (if op.secret == "" then "secret" !in body else "secret" in body && body["secret"] == Str(op.secret))
            && (match op.maxTcpConns
                case None => "max_tcp_conns" !in body
                case Some(n) => "max_tcp_conns" in body && body["max_tcp_conns"] == Num(n))
            && (match op.expiration
                case None => "expiration_rfc3339" !in body
                case Some(e) => "expiration_rfc3339" in body && body["expiration_rfc3339"] == Str(e))
            && body.Keys <= {"username", "enabled", "secret", "max_tcp_conns", "expiration_rfc3339"}
  {
  }

  // A patch names what is to change and nothing else; null is how a limit is taken away.
  lemma PatchBodyNames(f: PatchFields)
    ensures var body := PatchBody(f);
            && body.Keys == (if f.setExpiration then {"expiration_rfc3339"} else {})
                            + (if f.setMaxTcpConns then {"max_tcp_conns"} else {})
                            + (if f.enabled.Some? then {"enabled"} else {})
            && (f.setExpiration ==> body["expiration_rfc3339"] ==
                                    match f.expiration case None => Null case Some(e) => Str(e))
            && (f.setMaxTcpConns ==> body["max_tcp_conns"] ==
                                     match f.maxTcpConns case None => Null case Some(n) => Num(n))
            && (f.enabled.Some? ==> body["enabled"] == Bool(f.enabled.value))
  {
  }

  method BuildRequest(op: SyncOp) returns (req: Request)
    ensures req == RequestOf(op)
  {
    match op
    case Create(username, secret, expiration, conns) =>
      req := Post(Obj(CreateBody(op)));
    case Patch(username, fields) =>
      var body: map<string, Json> := map[];
      if fields.setExpiration {
        body := body["expiration_rfc3339" := JsonText(fields.expiration)];
      }
      if fields.setMaxTcpConns {
        body := body["max_tcp_conns" := JsonOf(fields.maxTcpConns)];
      }
      if fields.enabled.Some? {
        body := body["enabled" := Bool(fields.enabled.value)];
      }
      assert body == PatchBody(fields);
      req := PatchUser(username, Obj(body));
    case Delete(username) =>
      req := DeleteUser(username);
  }

  // ---- What a body means to telemt ----

  function Field(j: Json, name: string): Json {
    if j.Obj? && name in j.fields then j.fields[name] else Null
  }

  function RecordOf(j: Json): Record {
    var secret, enabled := Field(j, "secret"), Field(j, "enabled");
    var expiration, conns := Field(j, "expiration_rfc3339"), Field(j, "max_tcp_conns");
    Record(if secret.Str? then secret.text else "",
           if enabled.Bool? then enabled.value else true,
           if expiration.Str? then Some(expiration.text) else None,
           if conns.Num? then Some(conns.number) else None)
  }

  function JsonOfRecord(r: Record): Json {
    Obj(map["secret" := Str(r.secret), "enabled" := Bool(r.enabled)]
        + (if r.maxTcpConns.Some? then map["max_tcp_conns" := Num(r.maxTcpConns.value)] else map[])
        + (if r.expiration.Some? then map["expiration_rfc3339" := Str(r.expiration.value)] else map[]))
  }

  // Null removes a member, anything else is merged into the target's, and others stay.
  lemma MergeMember(t: map<string, Json>, p: map<string, Json>, name: string)
    ensures Field(MergePatch(Obj(t), Obj(p)), name) ==
            if name !in p then Field(Obj(t), name)
            else if p[name] == Null then Null
            else MergePatch(Field(Obj(t), name), p[name])
  {
  }

  // A member of the patch that is no object replaces the target's, null removes it,
  // and other members stay.
  lemma FieldOfMerge(t: map<string, Json>, p: map<string, Json>, name: string)
    requires name in p ==> !p[name].Obj?
    ensures Field(MergePatch(Obj(t), Obj(p)), name) == if name in p then p[name] else Field(Obj(t), name)
  {
  }

  // What a patch body says, member by member.
  predicate Says(p: map<string, Json>, f: PatchFields) {
    && (forall k :: k in p ==> k in ["enabled", "expiration_rfc3339", "max_tcp_conns"] && !p[k].Obj?)
    && ("enabled" in p <==> f.enabled.Some?)
    && (f.enabled.Some? ==> p["enabled"] == Bool(f.enabled.value))
    && ("expiration_rfc3339" in p <==> f.setExpiration)
    && (f.setExpiration ==> p["expiration_rfc3339"] == JsonText(f.expiration))
    && ("max_tcp_conns" in p <==> f.setMaxTcpConns)
    && (f.setMaxTcpConns ==> p["max_tcp_conns"] == JsonOf(f.maxTcpConns))
  }

  // An object that agrees with a patch body where that speaks and with the stored one
  // elsewhere holds the patched record.
  lemma SaidIsPatched(stored: Json, merged: Json, p: map<string, Json>, f: PatchFields)
    requires Says(p, f)
    requires forall k :: Field(merged, k) == if k in p then p[k] else Field(stored, k)
    ensures RecordOf(merged) == Patched(RecordOf(stored), f)
  {
  }

  lemma PatchBodySays(f: PatchFields)
    ensures Says(PatchBody(f), f)
  {
  }

  // Merging the patch body into any stored object is the typed patch on the record it
  // holds: a field set to null is removed, a field left alone stays, and so does every
  // member the operation does not know.
  lemma PatchBodyRefines(stored: map<string, Json>, f: PatchFields)
    ensures RecordOf(MergePatch(Obj(stored), Obj(PatchBody(f)))) == Patched(RecordOf(Obj(stored)), f)
    ensures forall k :: k !in ["enabled", "expiration_rfc3339", "max_tcp_conns"] ==>
              Field(MergePatch(Obj(stored), Obj(PatchBody(f))), k) == Field(Obj(stored), k)
  {
    var p := PatchBody(f);
    PatchBodySays(f);
    forall k
      ensures Field(MergePatch(Obj(stored), Obj(p)), k) == if k in p then p[k] else Field(Obj(stored), k)
    {
      FieldOfMerge(stored, p, k);
    }
    SaidIsPatched(Obj(stored), MergePatch(Obj(stored), Obj(p)), p, f);
  }

  // Every record can be stored: its object reads back as itself.
  lemma RecordRoundTrip(r: Record)
    ensures RecordOf(JsonOfRecord(r)) == r
  {
  }

  // A create body, omitted fields and all, gives the record the diff treats as equal.
  lemma CreateBodyRefines(op: SyncOp)
    requires op.Create?
    ensures Field(Obj(CreateBody(op)), "username") == Str(op.username)
    ensures Some(RecordOf(Obj(CreateBody(op)))) == Touch(op, None)
  {
  }

  // ---- Errors ----

  datatype CallError = ApiError(status: int, body: string) | Transport

  predicate OccursAt(s: string, t: string, i: nat) {
    i + |t| <= |s| && s[i..i + |t|] == t
  }

  predicate Contains(s: string, t: string) {
    exists i :: 0 <= i <= |s| && OccursAt(s, t, i)
  }

  predicate RevisionConflict(e: CallError) {
    e.ApiError? && e.status == 409 && Contains(e.body, "revision")
  }

  predicate ReadOnly(e: CallError) {
    e.ApiError? && e.status == 403 && Contains(e.body, "read_only")
  }

  predicate AlreadyDone(e: CallError) {
    e.ApiError? && (e.status == 404 || (e.status == 409 && Contains(e.body, "user_exists")))
  }

  // What telemt refuses a request for. The answer has a status, and a body that holds a
  // code somewhere in its text.
  datatype Refusal = StaleRevision | UserExists | NoSuchUser | LastUser | BadRequest

  function StatusOf(r: Refusal): int {
    match r
    case StaleRevision | UserExists | LastUser => 409
    case NoSuchUser => 404
    case BadRequest => 400
  }

  function CodeOf(r: Refusal): string {
    match r
    case StaleRevision => "revision_conflict"
    case UserExists => "user_exists"
    case NoSuchUser => "not_found"
    case LastUser => "last_user_forbidden"
    case BadRequest => "bad_request"
  }

  predicate Carries(e: CallError, r: Refusal) {
    e.ApiError? && e.status == StatusOf(r) && Contains(e.body, CodeOf(r))
  }

  // A body whose text around the code does not hold the words another code of the same
  // status is known by.
  predicate Tells(e: CallError, r: Refusal) {
    && Carries(e, r)
    && (r == StaleRevision || r == LastUser ==> !Contains(e.body, "user_exists"))
    && (r == LastUser ==> !Contains(e.body, "revision"))
  }

  // The answer falls into the class it is meant for, in the order the classes are asked.
  predicate ClassedAs(e: CallError, r: Refusal) {
    match r
    case UserExists | NoSuchUser => AlreadyDone(e)
    case StaleRevision => !AlreadyDone(e) && !ReadOnly(e) && RevisionConflict(e)
    case LastUser | BadRequest => !AlreadyDone(e) && !ReadOnly(e) && !RevisionConflict(e)
  }

  // Containing a text is being that text with something before and after it.
  lemma ContainsIsSplit(s: string, t: string)
    ensures Contains(s, t) <==> exists a: string, b: string :: s == a + t + b
  {
    if Contains(s, t) {
      var i :| 0 <= i <= |s| && OccursAt(s, t, i);
      assert s == s[..i] + t + s[i + |t|..];
    }
    forall a: string, b: string | s == a + t + b
      ensures Contains(s, t)
    {
      assert OccursAt(s, t, |a|);
    }
  }

  lemma ContainsStart(s: string, t: string, n: nat)
    requires Contains(s, t) && n <= |t|
    ensures Contains(s, t[..n])
  {
    var i :| 0 <= i <= |s| && OccursAt(s, t, i);
    assert s[i..i + n] == s[i..i + |t|][..n];
    assert OccursAt(s, t[..n], i);
  }

  // Whatever the text around its code, an answer is classed as meant exactly when it does
  // not hold the other words: only then is a stale revision retried, and the refusal to
  // delete the last user, which is in no class, counted as a failure.
  lemma ClassesOf(e: CallError, r: Refusal)
    requires Carries(e, r)
    ensures ClassedAs(e, r) <==> Tells(e, r)
  {
    if r == StaleRevision {
      ContainsStart(e.body, "revision_conflict", 8);
      assert "revision_conflict"[..8] == "revision";
    }
  }

  // Such an answer tells one thing only.
  lemma TellsOneThing(e: CallError, r: Refusal, q: Refusal)
    requires Tells(e, r) && Tells(e, q)
    ensures r == q
  {
    ClassesOf(e, r);
    ClassesOf(e, q);
  }

  lemma Lacks(s: string, t: string, k: nat)
    requires k < |t| && t[k] !in s
    ensures !Contains(s, t)
  {
    forall i | 0 <= i <= |s|
      ensures !OccursAt(s, t, i)
    {
      if i + |t| <= |s| {
        assert s[i..i + |t|][k] == s[i + k];
      }
    }
  }

  lemma StaleCode()
    ensures !Contains("revision_conflict", "user_exists")
  {
    assert 'u' !in "revision_conflict";
    Lacks("revision_conflict", "user_exists", 0);
  }

  lemma LastUserCode()
    ensures !Contains("last_user_forbidden", "user_exists") && !Contains("last_user_forbidden", "revision")
  {
    var s := "last_user_forbidden";
    assert 'x' !in s && 'v' !in s;
    Lacks(s, "user_exists", 6);
    Lacks(s, "revision", 2);
  }

  lemma OtherCodes()
    ensures !Contains("not_found", "user_exists") && !Contains("bad_request", "user_exists")
  {
    assert 'x' !in "not_found" && 'x' !in "bad_request";
    Lacks("not_found", "user_exists", 6);
    Lacks("bad_request", "user_exists", 6);
  }

  lemma ContainsItself(s: string)
    ensures Contains(s, s)
  {
    assert OccursAt(s, s, 0);
  }

  // The bare code is an answer.
  lemma CodeTells(r: Refusal)
    ensures Tells(ApiError(StatusOf(r), CodeOf(r)), r)
  {
    ContainsItself(CodeOf(r));
    match r
    case StaleRevision => StaleCode();
    case UserExists =>
    case LastUser => LastUserCode();
    case NoSuchUser | BadRequest => OtherCodes();
  }
}
