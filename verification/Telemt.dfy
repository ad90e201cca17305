// One telemt node as SyncNode meets it: a user table behind a machine API with
// optimistic concurrency, other writers, and an unreliable connection.
//
// Assumptions about telemt, which is not part of this model: the revision is a
// collision-free digest of the whole table and never empty; If-Match is checked
// before anything else; an error reply classed "conflict" or "already done" is
// only ever the node's true answer.
module Telemt {
  import opened Options
  import opened Users
  import opened Configs
  import opened Diff
  import opened DiffTheory
  import opened Wire

  datatype Revision = NoRevision | Digest(config: Config)

  datatype Reply = Done(revision: Revision) | Failure(error: CallError)

  // What becomes of a request that reaches telemt: the table it leaves, or why not.
  datatype Answer = Accept(config: Config) | Refuse(refusal: Refusal)

  function Handle(c: Config, req: Request, ifMatch: Revision): Answer {
    if ifMatch != NoRevision && ifMatch != Digest(c) then Refuse(StaleRevision)
    else
      match req
      case Post(body) =>
        var n := Field(body, "username");
        if !n.Str? then Refuse(BadRequest)
        else if n.text in c then Refuse(UserExists)
        else Accept(c[n.text := RecordOf(body)])
      case PatchUser(n, body) =>
        if n !in c then Refuse(NoSuchUser)
        else Accept(c[n := RecordOf(MergePatch(JsonOfRecord(c[n]), body))])
      case DeleteUser(n) =>
        if n !in c then Refuse(NoSuchUser)
        else if c.Keys == {n} then Refuse(LastUser)
        else Accept(c - {n})
  }

  predicate Admits(c: Config, ifMatch: Revision) {
    ifMatch == NoRevision || ifMatch == Digest(c)
  }

  predicate IsLast(c: Config, op: SyncOp) { op.Delete? && c.Keys == {op.username} }

  // The wire format carries exactly the operation: the node's answer to an encoded
  // operation in terms of the operation itself.
  lemma HandleRefines(c: Config, op: SyncOp, ifMatch: Revision)
    ensures Handle(c, RequestOf(op), ifMatch) ==
            if !Admits(c, ifMatch) then Refuse(StaleRevision)
            else if !Fits(op, c) then Refuse(if op.Create? then UserExists else NoSuchUser)
            else if IsLast(c, op) then Refuse(LastUser)
            else Accept(Effect(c, op))
  {
    match op
    case Create(n, _, _, _) =>
      CreateBodyRefines(op);
    case Patch(n, f) =>
      if n in c {
        RecordRoundTrip(c[n]);
        PatchBodyRefines(JsonOfRecord(c[n]).fields, f);
      }
    case Delete(n) =>
  }

  // ---- What happens to a call on its way ----

  datatype Fate = Delivered | Refused(error: CallError) | ReplyLost(error: CallError)

  // foreign counts the writes of others since the previous event of the log.
  datatype Call = Call(foreign: nat, before: Config, request: Request, ifMatch: Revision,
                       fate: Fate, reply: Reply, after: Config)

  predicate Unclassified(e: CallError) {
    !AlreadyDone(e) && !RevisionConflict(e) && !ReadOnly(e)
  }

  predicate Possible(fate: Fate) {
    match fate
    case Delivered => true
    case Refused(e) => !AlreadyDone(e) && !RevisionConflict(e)
    case ReplyLost(e) => Unclassified(e)
  }

  predicate Refuses(reply: Reply, r: Refusal) {
    reply.Failure? && Tells(reply.error, r)
  }

  function TableAfter(c: Config, a: Answer): Config {
    if a.Accept? then a.config else c
  }

  // Delivered and answered; failed without effect (read-only included); or handled
  // with the answer lost.
  predicate Served(k: Call) {
    var answer := Handle(k.before, k.request, k.ifMatch);
    && Possible(k.fate)
    && match k.fate
       case Delivered =>
         && k.after == TableAfter(k.before, answer)
         && if answer.Accept? then k.reply == Done(Digest(k.after)) else Refuses(k.reply, answer.refusal)
       case Refused(e) => k.reply == Failure(e) && k.after == k.before
       case ReplyLost(e) => k.reply == Failure(e) && k.after == TableAfter(k.before, answer)
  }

  // A successful listing and the mutations up to the next one.
  datatype Session = Session(foreign: nat, listed: Config, listing: seq<RemoteUser>, calls: seq<Call>)

  function StateAfter(listed: Config, calls: seq<Call>): Config {
    if calls == [] then listed else calls[|calls| - 1].after
  }

  function End(s: Session): Config { StateAfter(s.listed, s.calls) }

  // Every call was served, and the table only changed between calls if others wrote.
  predicate ValidCalls(listed: Config, calls: seq<Call>) {
    calls == [] ||
    var front, k := calls[..|calls| - 1], calls[|calls| - 1];
    ValidCalls(listed, front) && Served(k) && (k.foreign == 0 ==> k.before == StateAfter(listed, front))
  }

  predicate ValidSession(s: Session) {
    Lists(s.listing, s.listed) && ValidCalls(s.listed, s.calls)
  }

  predicate Linked(earlier: seq<Session>, s: Session) {
    earlier != [] && s.foreign == 0 ==> s.listed == End(earlier[|earlier| - 1])
  }

  predicate ValidLog(log: seq<Session>) {
    log == [] ||
    var front, s := log[..|log| - 1], log[|log| - 1];
    ValidLog(front) && ValidSession(s) && Linked(front, s)
  }

  lemma SessionWithCall(s: Session, k: Call)
    requires ValidSession(s) && Served(k) && (k.foreign == 0 ==> k.before == End(s))
    ensures ValidSession(s.(calls := s.calls + [k])) && End(s.(calls := s.calls + [k])) == k.after
  {
  }

  lemma NewSession(s: Session)
    requires Lists(s.listing, s.listed) && s.calls == []
    ensures ValidSession(s) && End(s) == s.listed
  {
  }

  lemma LogSnoc(log: seq<Session>, s: Session)
    requires ValidLog(log) && ValidSession(s) && Linked(log, s)
    ensures ValidLog(log + [s])
  {
  }

  // One more call of the last session.
  lemma LogGrows(past: seq<Session>, s: Session, k: Call)
    requires ValidLog(past + [s]) && Served(k) && (k.foreign == 0 ==> k.before == End(s))
    ensures var t := s.(calls := s.calls + [k]); ValidLog(past + [t]) && End(t) == k.after
  {
    assert (past + [s])[..|past|] == past;
    SessionWithCall(s, k);
    LogSnoc(past, s.(calls := s.calls + [k]));
  }

  lemma {:induction false} LogSuffix(base: seq<Session>, run: seq<Session>)
    requires ValidLog(base + run)
    ensures ValidLog(run)
  {
    if run != [] {
      var front := run[..|run| - 1];
      assert (base + run)[..|base + run| - 1] == base + front;
      LogSuffix(base, front);
    }
  }

  // The users of a table but for some names.
  function Except(c: Config, names: set<string>): map<string, RemoteUser> {
    map n | n in c && n !in names :: View(n, c[n])
  }

  lemma ReportStep(c: Config, names: set<string>, listing: seq<RemoteUser>, n: string)
    requires DistinctRemote(listing) && RemoteIndex(listing) == Except(c, names) && n in names && n in c
    ensures var more := listing + [View(n, c[n])];
            DistinctRemote(more) && RemoteIndex(more) == Except(c, names - {n})
  {
    var more := listing + [View(n, c[n])];
    assert more[..|listing|] == listing;
    forall i | 0 <= i < |listing|
      ensures listing[i].username != n
    {
      IndexNames(listing, n);
    }
    assert Except(c, names - {n}) == Except(c, names)[n := View(n, c[n])];
  }

  // The users of a table, each once, in any order.
  method Report(c: Config) returns (listing: seq<RemoteUser>)
    ensures Lists(listing, c)
  {
    listing := [];
    var names := c.Keys;
    while names != {}
      invariant names <= c.Keys
      invariant DistinctRemote(listing)
      invariant RemoteIndex(listing) == Except(c, names)
      decreases names
    {
      var n :| n in names;
      ReportStep(c, names, listing, n);
      listing := listing + [View(n, c[n])];
      names := names - {n};
    }
    assert Except(c, {}) == Observed(c);
  }

  method PickFate() returns (fate: Fate)
    ensures Possible(fate)
  {
    fate := *;
    match fate {
      case Delivered =>
      case Refused(e) =>
        if AlreadyDone(e) || RevisionConflict(e) {
          fate := Refused(Transport);
        }
      case ReplyLost(e) =>
        if !Unclassified(e) {
          fate := ReplyLost(Transport);
        }
    }
  }

  // telemt's words for a refusal.
  method Phrase(r: Refusal) returns (e: CallError)
    ensures Tells(e, r)
  {
    var body: string := *;
    e := ApiError(StatusOf(r), body);
    if !Tells(e, r) {
      CodeTells(r);
      e := ApiError(StatusOf(r), CodeOf(r));
    }
  }

  // A call on its way to the table and back.
  method Serve(foreign: nat, before: Config, request: Request, ifMatch: Revision) returns (k: Call)
    ensures Served(k) && k.foreign == foreign && k.before == before && k.request == request && k.ifMatch == ifMatch
  {
    var fate := PickFate();
    var answer := Handle(before, request, ifMatch);
    var reply := Done(NoRevision);
    if !fate.Delivered? {
      reply := Failure(fate.error);
    } else if answer.Accept? {
      reply := Done(Digest(answer.config));
    } else {
      var e := Phrase(answer.refusal);
      reply := Failure(e);
    }
    k := Call(foreign, before, request, ifMatch, fate, reply,
              if fate.Refused? then before else TableAfter(before, answer));
  }

  class Node {
    var config: Config
    // A record of what happened: the finished sessions, the one under way, and the writes
    // of others since its last event.
    var past: seq<Session>
    var current: Option<Session>
    var foreign: nat

    function Log(): seq<Session>
      reads this
    {
      past + if current.Some? then [current.value] else []
    }

    ghost predicate Valid()
      reads this
    {
      && ValidLog(Log())
      && (current.None? ==> past == [])
      && (current.Some? && foreign == 0 ==> config == End(current.value))
    }

    lemma LogEnd()
      requires Valid() && Log() != [] && foreign == 0
      ensures config == End(Log()[|Log()| - 1])
    {
      assert current.Some? ==> Log()[|Log()| - 1] == current.value;
    }

    constructor (config: Config)
      ensures Valid() && this.config == config && Log() == []
    {
      this.config := config;
      past, current, foreign := [], None, 0;
    }

    // Other writers may leave the table in any state, the same one included.
    method Interfere()
      requires Valid()
      modifies this
      ensures Valid() && past == old(past) && current == old(current)
      ensures foreign >= old(foreign) && (foreign == old(foreign) ==> config == old(config))
    {
      var writes: nat := *;
      if writes > 0 {
        var c: Config := *;
        config := c;
        foreign := foreign + writes;
      }
    }

    // A new session of the record.
    method Open(listing: seq<RemoteUser>)
      requires Valid() && Lists(listing, config)
      modifies this`past, this`current, this`foreign
      ensures Valid() && past == old(Log()) && current == Some(Session(old(foreign), config, listing, []))
    {
      var log, s := Log(), Session(foreign, config, listing, []);
      if log != [] && foreign == 0 {
        LogEnd();
      }
      NewSession(s);
      LogSnoc(log, s);
      past, current, foreign := log, Some(s), 0;
    }

    // GET /v1/users: every user once, in an order of the node's choosing; None on an error.
    method ListUsers() returns (r: Option<(seq<RemoteUser>, Revision)>)
      requires Valid()
      modifies this
      ensures Valid()
      ensures r.None? ==> past == old(past) && current == old(current)
      ensures r.Some? ==> past == old(Log()) && current.Some?
                          && current.value.listing == r.value.0 && current.value.calls == []
                          && r.value.1 == Digest(current.value.listed)
    {
      Interfere();
      var reached: bool := *;
      if !reached {
        return None;
      }
      var listing := Report(config);
      Open(listing);
      r := Some((listing, Digest(config)));
    }

    // POST, PATCH or DELETE; the log keeps it with the latest listing.
    method Mutate(request: Request, ifMatch: Revision) returns (reply: Reply, k: Call)
      requires Valid() && current.Some?
      modifies this
      ensures Valid() && Served(k) && k.request == request && k.ifMatch == ifMatch && k.reply == reply
      ensures past == old(past)
      ensures current == Some(old(current).value.(calls := old(current).value.calls + [k]))
    {
      Interfere();
      k := Serve(foreign, config, request, ifMatch);
      reply, config := k.reply, k.after;
      LogGrows(past, current.value, k);
      current, foreign := Some(current.value.(calls := current.value.calls + [k])), 0;
    }
  }

  // Client.ApplyOp: encode, then send with the revision to match.
  method ApplyOp(node: Node, op: SyncOp, ifMatch: Revision) returns (reply: Reply, k: Call)
    requires node.Valid() && node.current.Some?
    modifies node
    ensures node.Valid() && Served(k) && k.request == RequestOf(op) && k.ifMatch == ifMatch && k.reply == reply
    ensures node.past == old(node.past)
    ensures node.current == Some(old(node.current).value.(calls := old(node.current).value.calls + [k]))
  {
    var request := BuildRequest(op);
    reply, k := node.Mutate(request, ifMatch);
  }
}
