// The users of internal/telemtsync: what PostgreSQL wants, what a node reports,
// and the operations between them.
module Users {
  import opened Options
  import opened Rfc3339

  datatype DesiredUser = DesiredUser(username: string, secret: string,
                                     expiration: Option<string>, maxTcpConns: Option<int>)

  datatype RemoteUser = RemoteUser(username: string, enabled: bool,
                                   expiration: Option<string>, maxTcpConns: Option<int>)

  // The set flags tell "set to null" from "leave alone"; enabled None leaves it alone.
  datatype PatchFields = PatchFields(setExpiration: bool, expiration: Option<string>,
                                     setMaxTcpConns: bool, maxTcpConns: Option<int>,
                                     enabled: Option<bool>)

  datatype SyncOp =
    | Create(username: string, secret: string, expiration: Option<string>, maxTcpConns: Option<int>)
    | Patch(username: string, fields: PatchFields)
    | Delete(username: string)

  datatype OpKind = OpCreate | OpPatch | OpDelete

  function KindOf(op: SyncOp): OpKind {
    match op
    case Create(_, _, _, _) => OpCreate
    case Patch(_, _) => OpPatch
    case Delete(_) => OpDelete
  }

  predicate ExpirationEquals(a: Option<string>, b: Option<string>) {
    if a.None? && b.None? then true
    else if a.None? || b.None? then false
    else if a.value == b.value then true
    else
      var ta, tb := Parse(a.value), Parse(b.value);
      if ta.None? || tb.None? then a.value == b.value else ta.value == tb.value
  }

  // Normal form of an expiration: no limit, a moment, or a text that is no timestamp.
  datatype Meaning = Never | Moment(instant: Instant) | Raw(text: string)

  function MeaningOf(e: Option<string>): Meaning {
    if e.None? then Never
    else
      var t := Parse(e.value);
      if t.Some? then Moment(t.value) else Raw(e.value)
  }

  // Equality of expirations is equality of meaning, hence an equivalence.
  lemma ExpirationEqualsIsMeaning(a: Option<string>, b: Option<string>)
    ensures ExpirationEquals(a, b) <==> MeaningOf(a) == MeaningOf(b)
  {
  }

  // Two instants printed in any two legal zones are equal expirations exactly
  // when they fall in the same second.
  lemma PrintedExpirationsEqual(t: Instant, z: Zone, u: Instant, w: Zone)
    requires LegalZone(z) && 0 <= StampOf(t, z).date.year <= 9999
    requires LegalZone(w) && 0 <= StampOf(u, w).date.year <= 9999
    ensures LegalStamp(StampOf(t, z)) && LegalStamp(StampOf(u, w))
    ensures ExpirationEquals(Some(Render(StampOf(t, z))), Some(Render(StampOf(u, w)))) <==> t.seconds == u.seconds
  {
    PrintedInAnyZone(t, z);
    PrintedInAnyZone(u, w);
  }

  predicate IntEqual(a: Option<int>, b: Option<int>) {
    if a.None? && b.None? then true
    else if a.None? || b.None? then false
    else a.value == b.value
  }

  // The node's user is as desired, as far as a listing shows.
  predicate Matches(d: DesiredUser, r: RemoteUser) {
    r.enabled && ExpirationEquals(d.expiration, r.expiration) && IntEqual(d.maxTcpConns, r.maxTcpConns)
  }

  // The fields of d that r does not have.
  function Changes(d: DesiredUser, r: RemoteUser): PatchFields {
    var e, m := !ExpirationEquals(d.expiration, r.expiration), !IntEqual(d.maxTcpConns, r.maxTcpConns);
    PatchFields(e, if e then d.expiration else None, m, if m then d.maxTcpConns else None,
                if r.enabled then None else Some(true))
  }

  method PatchFieldsFor(d: DesiredUser, r: RemoteUser) returns (f: PatchFields, changed: bool)
    ensures f == Changes(d, r)
    ensures changed <==> !Matches(d, r)
  {
    f, changed := PatchFields(false, None, false, None, None), false;
    if !ExpirationEquals(d.expiration, r.expiration) {
      f := f.(setExpiration := true, expiration := d.expiration);
      changed := true;
    }
    if !IntEqual(d.maxTcpConns, r.maxTcpConns) {
      f := f.(setMaxTcpConns := true, maxTcpConns := d.maxTcpConns);
      changed := true;
    }
    if !r.enabled {
      f := f.(enabled := Some(true));
      changed := true;
    }
  }
}
