// internal/store/store.go: the desired users out of the users table.
module Store {
  import opened Options
  import opened Users
  import opened Configs
  import opened Diff
  import opened DiffTheory
  import opened DiffMeaning
  import opened Rfc3339

  datatype Row = Row(username: string, secret: string, expiration: Option<Instant>,
                     maxTcpConns: Option<int>, enabled: bool)

  // usernames are unique, so the table is a map.
  type Table = map<string, Row>

  predicate ValidTable(t: Table) {
    forall n :: n in t ==> t[n].username == n
  }

  // A row added or replaced under its own username keeps a table valid.
  lemma PutKeepsValid(t: Table, r: Row)
    ensures ValidTable(map[]) && (ValidTable(t) ==> ValidTable(t[r.username := r]))
  {
  }

  function EnabledRows(t: Table): set<Row> {
    set n | n in t && t[n].enabled :: t[n]
  }

  // What the query answers: every enabled row once, in whatever order the database
  // sorts usernames.
  predicate Selects(rows: seq<Row>, t: Table) {
    multiset(rows) == multiset(EnabledRows(t))
  }

  function DesiredOf(r: Row): DesiredUser {
    DesiredUser(r.username, r.secret,
                if r.expiration.Some? then Some(PrintUtc(r.expiration.value)) else None,
                r.maxTcpConns)
  }

  // query is None when it fails, a row None when it cannot be scanned.
  method ListDesired(query: Option<seq<Option<Row>>>, iterationFails: bool) returns (out: Option<seq<DesiredUser>>)
    ensures out.Some? <==> query.Some? && (forall r :: r in query.value ==> r.Some?) && !iterationFails
    ensures out.Some? ==> |out.value| == |query.value|
    ensures out.Some? ==> forall i :: 0 <= i < |out.value| ==> out.value[i] == DesiredOf(query.value[i].value)
  {
    if query.None? {
      return None;
    }
    var rows := query.value;
    var users: seq<DesiredUser> := [];
    for i := 0 to |rows|
      invariant |users| == i
      invariant forall j :: 0 <= j < i ==> rows[j].Some? && users[j] == DesiredOf(rows[j].value)
    {
      if rows[i].None? {
        assert rows[i] in rows;
        return None;
      }
      var row := rows[i].value;
      var expiration: Option<string> := None;
      if row.expiration.Some? {
        expiration := Some(PrintUtc(row.expiration.value));
      }
      users := users + [DesiredUser(row.username, row.secret, expiration, row.maxTcpConns)];
    }
    if iterationFails {
      return None;
    }
    out := Some(users);
  }

  function DesiredOfAll(rows: seq<Row>): (des: seq<DesiredUser>)
    ensures |des| == |rows| && forall i :: 0 <= i < |rows| ==> des[i] == DesiredOf(rows[i])
  {
    seq(|rows|, i requires 0 <= i < |rows| => DesiredOf(rows[i]))
  }

  // Every table has an answer.
  lemma {:induction false} SomeAnswer(s: set<Row>) returns (rows: seq<Row>)
    ensures multiset(rows) == multiset(s)
  {
    rows := [];
    if s != {} {
      var r :| r in s;
      rows := SomeAnswer(s - {r});
      assert multiset(s) == multiset(s - {r}) + multiset{r};
      rows := rows + [r];
    }
  }

  lemma Answerable(t: Table) returns (rows: seq<Row>)
    ensures Selects(rows, t)
  {
    rows := SomeAnswer(EnabledRows(t));
  }

  lemma SelectedRows(rows: seq<Row>, t: Table, r: Row)
    requires Selects(rows, t)
    ensures r in rows <==> r in EnabledRows(t)
  {
    assert r in rows <==> r in multiset(rows);
    assert r in multiset(EnabledRows(t)) <==> r in EnabledRows(t);
  }

  lemma {:induction false} Twice(rows: seq<Row>, i: nat, j: nat)
    requires i < j < |rows| && rows[i] == rows[j]
    ensures multiset(rows)[rows[i]] >= 2
  {
    var front, r := rows[..j], rows[j];
    assert rows == front + [r] + rows[j + 1..];
    assert front[i] == r;
    assert r in multiset(front);
  }

  // The table is keyed by username, so no two of the answers share one.
  lemma SelectedAreDistinct(rows: seq<Row>, t: Table)
    requires ValidTable(t) && Selects(rows, t)
    ensures DistinctDesired(DesiredOfAll(rows))
  {
    forall i, j | 0 <= i < j < |rows|
      ensures rows[i].username != rows[j].username
    {
      SelectedRows(rows, t, rows[i]);
      SelectedRows(rows, t, rows[j]);
      assert multiset(EnabledRows(t))[rows[i]] <= 1;
      if rows[i] == rows[j] {
        Twice(rows, i, j);
      }
    }
  }

  // A node's expiration text equals the printed one exactly when it is a timestamp of
  // the same second, or, past the years RFC 3339 can write, the very same text.
  lemma PrintedMatches(t: Instant, e: Option<string>)
    ensures ExpirationEquals(Some(PrintUtc(t)), e) <==>
            e.Some? && if 0 <= StampOf(t, Zulu).date.year <= 9999 then Parse(e.value) == Some(Truncated(t))
                       else e.value == PrintUtc(t)
  {
    UtcRoundTrip(t);
  }

  // The node has what the table wants of it: the user of every enabled row, enabled, with
  // the row's limit and expiration, and no other managed user.
  predicate Mirrors(t: Table, prefix: string, c: Config) {
    && (forall n :: n in t && t[n].enabled ==> n in c && Matches(DesiredOf(t[n]), View(n, c[n])))
    && (forall n :: n in c && HasPrefix(n, prefix) ==> n in t && t[n].enabled)
  }

  // A node is converged to the rows the query answers, in any order, exactly when it
  // mirrors the table.
  lemma ConvergedIsMirroring(rows: seq<Row>, t: Table, prefix: string, c: Config)
    requires ValidTable(t) && Selects(rows, t)
    ensures Converged(DesiredOfAll(rows), prefix, c) <==> Mirrors(t, prefix, c)
  {
    var des := DesiredOfAll(rows);
    forall n
      ensures n in DesiredNames(des) <==> n in t && t[n].enabled
    {
      DesiredOfTable(rows, t, n);
    }
    forall d: DesiredUser
      ensures d in des <==> d.username in t && t[d.username].enabled && d == DesiredOf(t[d.username])
    {
      DesiredOfTable(rows, t, d.username);
    }
    if Mirrors(t, prefix, c) {
      assert Converged(des, prefix, c);
    }
    if Converged(des, prefix, c) {
      forall n | n in t && t[n].enabled
        ensures n in c && Matches(DesiredOf(t[n]), View(n, c[n]))
      {
        assert DesiredOf(t[n]) in des;
      }
    }
  }

  // A user is desired exactly by the enabled row of its name.
  lemma DesiredOfTable(rows: seq<Row>, t: Table, n: string)
    requires ValidTable(t) && Selects(rows, t)
    ensures n in DesiredNames(DesiredOfAll(rows)) <==> n in t && t[n].enabled
    ensures forall d: DesiredUser :: d.username == n ==>
              (d in DesiredOfAll(rows) <==> n in t && t[n].enabled && d == DesiredOf(t[n]))
  {
    var des := DesiredOfAll(rows);
    if n in t && t[n].enabled {
      SelectedRows(rows, t, t[n]);
      var i :| 0 <= i < |rows| && rows[i] == t[n];
      assert des[i] == DesiredOf(t[n]);
    }
    forall i | 0 <= i < |des| && des[i].username == n
      ensures n in t && t[n].enabled && des[i] == DesiredOf(t[n])
    {
      SelectedRows(rows, t, rows[i]);
    }
  }

  // A user the node does not have is created as its row says, secret included.
  lemma CreatedFromTable(rows: seq<Row>, t: Table, listing: seq<RemoteUser>, prefix: string, c: Config, n: string)
    requires ValidTable(t) && Selects(rows, t) && Lists(listing, c)
    requires n in t && t[n].enabled && n !in c
    ensures At(EffectAll(c, DiffOf(DesiredOfAll(rows), listing, prefix)), n) ==
            Some(Record(t[n].secret, true,
                        if t[n].expiration.Some? then Some(PrintUtc(t[n].expiration.value)) else None,
                        t[n].maxTcpConns))
  {
    var des := DesiredOfAll(rows);
    SelectedAreDistinct(rows, t);
    DesiredOfTable(rows, t, n);
    DesiredForEach(des, DesiredOf(t[n]));
    DiffOutcome(des, listing, prefix, c, n);
  }

  // In terms of instants: the user of an enabled row has no expiration, or one in the
  // row's second; in years RFC 3339 cannot write, the very text that is printed.
  lemma MirroredExpiration(t: Table, prefix: string, c: Config, n: string)
    requires Mirrors(t, prefix, c) && n in t && t[n].enabled
    ensures n in c && c[n].enabled && c[n].maxTcpConns == t[n].maxTcpConns
    ensures match t[n].expiration
            case None => c[n].expiration == None
            case Some(x) =>
              c[n].expiration.Some?
              && if 0 <= StampOf(x, Zulu).date.year <= 9999 then Parse(c[n].expiration.value) == Some(Truncated(x))
                 else c[n].expiration.value == PrintUtc(x)
  {
    if t[n].expiration.Some? {
      PrintedMatches(t[n].expiration.value, c[n].expiration);
    }
  }
}
