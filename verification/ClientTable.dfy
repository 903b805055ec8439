/**
  The client records of the server as a value, what each request does to
  them, and what every run keeps.  Records are keyed by their confirmation
  token, the table's unique index.
 */
module ClientTable {
  import opened Wrappers
  import opened Bytes

  type Token = ByteString

  datatype Callback = Callback(program: nat, rnetid: string, raddr: string, ident: nat)

  datatype Client = Client(
    principal: Option<string>,
    verifier: ByteString,
    id: string,
    clientid: nat,
    callback: Callback,
    token: Token,
    confirmed: bool,
    renewed: real,
    courtesy: bool)

  datatype Error = ClidInuse | StaleClientid | Expired

  type Db = map<Token, Client>

  /** The records and the last client id handed out. */
  datatype Table = Table(db: Db, last: nat)

  const LEASE_TIME := 90

  /** Whole seconds since the last renewal. */
  function Idle(c: Client, now: real): int { (now - c.renewed).Floor }

  function ById(db: Db, id: string): set<Token> { set t | t in db && db[t].id == id }

  function ByClientid(db: Db, clientid: nat): set<Token> { set t | t in db && db[t].clientid == clientid }

  function Without(db: Db, gone: set<Token>): Db { map t | t in db && t !in gone :: db[t] }

  // ------------------------------------------------------------ invariant

  /** Two records of one table: what they may share. */
  predicate Consistent(a: Client, b: Client)
  {
    && (a.id == b.id <==> a.clientid == b.clientid)
    && (a.id == b.id && a.token != b.token ==> a.confirmed != b.confirmed && a.principal == b.principal)
  }

  /**
    Per id string at most one confirmed and one unconfirmed record, sharing
    client id and principal; different id strings never share a client id;
    no client id is above the last one handed out.
   */
  predicate Valid(t: Table)
  {
    && (forall k :: k in t.db ==> t.db[k].token == k && t.db[k].clientid <= t.last)
    && (forall j, k :: j in t.db && k in t.db ==> Consistent(t.db[j], t.db[k]))
  }

  /** An unconfirmed record was renewed no earlier than the confirmed one it is to replace. */
  predicate Ordered(t: Table)
  {
    forall j, k :: j in t.db && k in t.db && t.db[j].id == t.db[k].id && t.db[j].confirmed && !t.db[k].confirmed ==>
      t.db[j].renewed <= t.db[k].renewed
  }

  predicate NoFuture(t: Table, now: real)
  {
    forall k :: k in t.db ==> t.db[k].renewed <= now
  }

  // ------------------------------------------------------------ SETCLIENTID

  predicate InUse(t: Table, id: string, principal: Option<string>)
  {
    exists k :: k in ById(t.db, id) && t.db[k].confirmed && t.db[k].principal != principal
  }

  function Unconfirmed(db: Db, id: string): set<Token>
  {
    set k | k in db && db[k].id == id && !db[k].confirmed
  }

  /** The client id a new record for `id` gets: that of the records it has, or the next one. */
  ghost function ClientidFor(t: Table, id: string): nat
  {
    if ById(t.db, id) == {} then t.last + 1
    else
      var k :| k in ById(t.db, id);
      t.db[k].clientid
  }

  ghost function NewClient(t: Table, verifier: ByteString, id: string, callback: Callback, principal: Option<string>,
                           token: Token, now: real): Client
  {
    Client(principal, verifier, id, ClientidFor(t, id), callback, token, false, now, false)
  }

  /** The table after an admitted `upsert_client`. */
  ghost function Registered(t: Table, c: Client): Table
  {
    Table(Without(t.db, Unconfirmed(t.db, c.id))[c.token := c],
          if ById(t.db, c.id) == {} then t.last + 1 else t.last)
  }

  ghost function Upsert(t: Table, verifier: ByteString, id: string, callback: Callback, principal: Option<string>,
                        token: Token, now: real): Table
  {
    if InUse(t, id, principal) then t
    else Registered(t, NewClient(t, verifier, id, callback, principal, token, now))
  }

  // ------------------------------------------------------------ SETCLIENTID_CONFIRM

  predicate PrincipalDiffers(t: Table, clientid: nat, principal: Option<string>)
  {
    exists k :: k in ByClientid(t.db, clientid) && t.db[k].principal != principal
  }

  /** The confirmed records that a confirmation with another token removes. */
  function Superseded(db: Db, clientid: nat, token: Token): set<Token>
  {
    set k | k in db && db[k].clientid == clientid && db[k].confirmed && k != token
  }

  function Confirm(t: Table, clientid: nat, token: Token, principal: Option<string>): (Table, Result<Client, Error>)
  {
    if ByClientid(t.db, clientid) == {} then (t, Err(StaleClientid))
    else if PrincipalDiffers(t, clientid, principal) then (t, Err(ClidInuse))
    else
      var kept := Without(t.db, Superseded(t.db, clientid, token));
      if token in t.db && t.db[token].clientid == clientid then
        var c := t.db[token].(confirmed := true);
        (t.(db := kept[token := c]), Ok(c))
      else (t.(db := kept), Err(StaleClientid))
  }

  // ------------------------------------------------------------ RENEW

  /** A courtesy client past the courtesy window: more than two lease times idle. */
  predicate PastRenewal(t: Table, clientid: nat, now: real)
  {
    exists k :: k in ByClientid(t.db, clientid)
      && t.db[k].confirmed && t.db[k].courtesy && Idle(t.db[k], now) > 2 * LEASE_TIME
  }

  predicate NoRepeats(order: seq<Token>)
  {
    forall i, j :: 0 <= i < j < |order| ==> order[i] != order[j]
  }

  /** The order in which the index yields some records: each of them once. */
  predicate Listing(tokens: set<Token>, order: seq<Token>)
  {
    && NoRepeats(order)
    && (forall i :: 0 <= i < |order| ==> order[i] in tokens)
    && (forall k :: k in tokens ==> k in order)
  }

  /** Clock readings one after the other, none before `from`. */
  predicate Rising(from: real, readings: seq<real>)
  {
    && (forall i :: 0 <= i < |readings| ==> from <= readings[i])
    && (forall i, j :: 0 <= i < j < |readings| ==> readings[i] <= readings[j])
  }

  /** The records of `order`, each renewed at its own reading of the clock. */
  function RenewedDb(db: Db, order: seq<Token>, readings: seq<real>): Db
    requires |order| == |readings|
    decreases |order|
  {
    if order == [] then db
    else
      var last := |order| - 1;
      var before := RenewedDb(db, order[..last], readings[..last]);
      if order[last] in before
      then before[order[last] := before[order[last]].(renewed := readings[last], courtesy := false)]
      else before
  }

  function Renew(t: Table, clientid: nat, now: real, order: seq<Token>, readings: seq<real>): (Table, Option<Error>)
    requires |order| == |readings|
  {
    if ByClientid(t.db, clientid) == {} then (t, Some(StaleClientid))
    else if PastRenewal(t, clientid, now) then (t, Some(Expired))
    else (t.(db := RenewedDb(t.db, order, readings)), None)
  }

  /** What the loop leaves: the listed records have their own readings, the others are as they were. */
  lemma {:induction false} RenewedAt(db: Db, order: seq<Token>, readings: seq<real>)
    requires |order| == |readings| && NoRepeats(order) && forall i :: 0 <= i < |order| ==> order[i] in db
    ensures RenewedDb(db, order, readings).Keys == db.Keys
    ensures forall k :: k in db && k !in order ==> RenewedDb(db, order, readings)[k] == db[k]
    ensures forall i :: 0 <= i < |order| ==>
              RenewedDb(db, order, readings)[order[i]] == db[order[i]].(renewed := readings[i], courtesy := false)
    decreases |order|
  {
    if order != [] {
      var last := |order| - 1;
      var init := order[..last];
      assert forall i :: 0 <= i < last ==> init[i] == order[i];
      assert order[last] !in init;
      assert order == init + [order[last]];
      RenewedAt(db, init, readings[..last]);
    }
  }

  // ------------------------------------------------------------ the lease sweep

  predicate Lapses(c: Client, now: real)
  {
    c.confirmed && !c.courtesy && Idle(c, now) >= LEASE_TIME
  }

  predicate Expires(c: Client, now: real)
  {
    c.confirmed && c.courtesy && Idle(c, now) >= 2 * LEASE_TIME
  }

  function Lapsing(db: Db, now: real): set<nat> { set k | k in db && Lapses(db[k], now) :: db[k].clientid }

  function Expiring(db: Db, now: real): set<nat> { set k | k in db && Expires(db[k], now) :: db[k].clientid }

  function Sweep(t: Table, now: real): Table
  {
    var lapsing, expiring := Lapsing(t.db, now), Expiring(t.db, now);
    t.(db := map k | k in t.db && t.db[k].clientid !in expiring ::
        if t.db[k].clientid in lapsing then t.db[k].(courtesy := true) else t.db[k])
  }

  function Revoke(t: Table, clientid: nat): Table
  {
    t.(db := Without(t.db, ByClientid(t.db, clientid)))
  }

  // ------------------------------------------------------------ steps and runs

  datatype Event =
    | DoUpsert(at: real, verifier: ByteString, id: string, callback: Callback, principal: Option<string>, token: Token)
    | DoConfirm(at: real, clientid: nat, token: Token, principal: Option<string>)
    | DoRenew(at: real, clientid: nat, order: seq<Token>, readings: seq<real>, until: real)
    | DoSweep(at: real)
    | DoRevoke(at: real, clientid: nat)

  function Done(e: Event): real { if e.DoRenew? then e.until else e.at }

  /** The random token is not in use, and a renewal reads the clock once per record, in the order of the index. */
  predicate Enabled(t: Table, e: Event)
  {
    match e
    case DoUpsert(_, _, _, _, _, token) => token !in t.db
    case DoRenew(at, clientid, order, readings, until) =>
      && at <= until && Listing(ByClientid(t.db, clientid), order) && |readings| == |order| && Rising(at, readings)
      && forall i :: 0 <= i < |readings| ==> readings[i] <= until
    case _ => true
  }

  ghost function Step(t: Table, e: Event): Table
    requires Enabled(t, e)
  {
    match e
    case DoUpsert(at, verifier, id, callback, principal, token) =>
      Upsert(t, verifier, id, callback, principal, token, at)
    case DoConfirm(_, clientid, token, principal) => Confirm(t, clientid, token, principal).0
    case DoRenew(at, clientid, order, readings, _) => Renew(t, clientid, at, order, readings).0
    case DoSweep(at) => Sweep(t, at)
    case DoRevoke(_, clientid) => Revoke(t, clientid)
  }

  /** A run in time order, every event possible where it happens. */
  ghost predicate Run(t: Table, from: real, events: seq<Event>)
    decreases |events|
  {
    events == [] ||
    (from <= events[0].at && Enabled(t, events[0]) && Run(Step(t, events[0]), Done(events[0]), events[1..]))
  }

  /** The table after the first `n` events. */
  ghost function After(t: Table, from: real, events: seq<Event>, n: nat): Table
    requires Run(t, from, events) && n <= |events|
    decreases n
  {
    if n == 0 then t else After(Step(t, events[0]), Done(events[0]), events[1..], n - 1)
  }

  // ------------------------------------------------------------ every step keeps the invariant

  lemma ClientidShared(t: Table, id: string, k: Token)
    requires Valid(t) && k in ById(t.db, id)
    ensures ClientidFor(t, id) == t.db[k].clientid
  {
  }

  lemma UpsertKeeps(t: Table, c: Client)
    requires Valid(t) && c.token !in t.db && !c.confirmed && !InUse(t, c.id, c.principal)
    requires c.clientid == ClientidFor(t, c.id)
    ensures Valid(Registered(t, c))
  {
    var r := Registered(t, c);
    forall k | k in r.db ensures Consistent(c, r.db[k]) && Consistent(r.db[k], c) {
      if k != c.token {
        assert r.db[k] == t.db[k];
        if ById(t.db, c.id) == {} {
          assert k !in ById(t.db, c.id);
        } else {
          var j :| j in ById(t.db, c.id);
          ClientidShared(t, c.id, j);
          assert Consistent(t.db[j], t.db[k]);
          if k in ById(t.db, c.id) {
            assert t.db[k].confirmed;
          }
        }
      }
    }
    assert c.clientid <= r.last by {
      if j :| j in ById(t.db, c.id) {
        ClientidShared(t, c.id, j);
      } else {
        assert ById(t.db, c.id) == {};
      }
    }
  }

  lemma ConfirmKeeps(t: Table, clientid: nat, token: Token, principal: Option<string>)
    requires Valid(t)
    ensures Valid(Confirm(t, clientid, token, principal).0)
  {
    var r := Confirm(t, clientid, token, principal).0;
    forall j, k | j in r.db && k in r.db ensures Consistent(r.db[j], r.db[k]) {
      assert Consistent(t.db[j], t.db[k]);
    }
  }

  lemma ListedRenewed(t: Table, clientid: nat, order: seq<Token>, readings: seq<real>)
    requires Listing(ByClientid(t.db, clientid), order) && |readings| == |order|
    ensures var db := RenewedDb(t.db, order, readings);
            && db.Keys == t.db.Keys
            && (forall k :: k in t.db && t.db[k].clientid != clientid ==> db[k] == t.db[k])
            && (forall i :: 0 <= i < |order| ==> order[i] in t.db && t.db[order[i]].clientid == clientid)
            && (forall i :: 0 <= i < |order| ==>
                db[order[i]] == t.db[order[i]].(renewed := readings[i], courtesy := false))
  {
    RenewedAt(t.db, order, readings);
  }

  /** A renewed record is the old one but for its reading and its mark. */
  lemma RenewedRecord(t: Table, clientid: nat, order: seq<Token>, readings: seq<real>, k: Token)
    requires Listing(ByClientid(t.db, clientid), order) && |readings| == |order| && k in t.db
    ensures var db := RenewedDb(t.db, order, readings);
            k in db && db[k] == t.db[k].(renewed := db[k].renewed, courtesy := db[k].courtesy)
  {
    ListedRenewed(t, clientid, order, readings);
    if t.db[k].clientid == clientid {
      assert k in ByClientid(t.db, clientid);
      var i :| 0 <= i < |order| && order[i] == k;
    }
  }

  /** A renewal changes nothing but stamps and marks, and those of one client alone. */
  lemma RenewStepIs(t: Table, e: Event, k: Token)
    requires e.DoRenew? && Enabled(t, e)
    ensures var r := Step(t, e);
            && r.last == t.last && r.db.Keys == t.db.Keys
            && (k in t.db ==> r.db[k] == t.db[k].(renewed := r.db[k].renewed, courtesy := r.db[k].courtesy))
            && (k in t.db && t.db[k].clientid != e.clientid ==> r.db[k] == t.db[k])
            && (k in t.db && r.db[k].courtesy ==> r.db[k] == t.db[k])
  {
    var r := Step(t, e);
    if r != t {
      ListedRenewed(t, e.clientid, e.order, e.readings);
      if k in t.db {
        RenewedRecord(t, e.clientid, e.order, e.readings, k);
        if t.db[k].clientid == e.clientid {
          assert k in ByClientid(t.db, e.clientid);
          var i :| 0 <= i < |e.order| && e.order[i] == k;
        }
      }
    }
  }

  lemma RenewKeeps(t: Table, clientid: nat, now: real, order: seq<Token>, readings: seq<real>)
    requires Valid(t) && Listing(ByClientid(t.db, clientid), order) && |readings| == |order|
    ensures Valid(Renew(t, clientid, now, order, readings).0)
  {
    var r := Renew(t, clientid, now, order, readings).0;
    if r != t {
      ListedRenewed(t, clientid, order, readings);
      forall k | k in r.db
        ensures k in t.db && r.db[k] == t.db[k].(renewed := r.db[k].renewed, courtesy := r.db[k].courtesy)
      {
        RenewedRecord(t, clientid, order, readings, k);
      }
      forall j, k | j in r.db && k in r.db ensures Consistent(r.db[j], r.db[k]) {
        assert Consistent(t.db[j], t.db[k]);
      }
    }
  }

  lemma SweepKeeps(t: Table, now: real)
    requires Valid(t)
    ensures Valid(Sweep(t, now))
  {
    var r := Sweep(t, now);
    forall j, k | j in r.db && k in r.db ensures Consistent(r.db[j], r.db[k]) {
      assert Consistent(t.db[j], t.db[k]);
    }
  }

  lemma StepKeeps(t: Table, e: Event)
    requires Valid(t) && Enabled(t, e)
    ensures Valid(Step(t, e))
  {
    match e
    case DoUpsert(at, verifier, id, callback, principal, token) =>
      if !InUse(t, id, principal) {
        UpsertKeeps(t, NewClient(t, verifier, id, callback, principal, token, at));
      }
    case DoConfirm(_, clientid, token, principal) => ConfirmKeeps(t, clientid, token, principal);
    case DoRenew(at, clientid, order, readings, _) => RenewKeeps(t, clientid, at, order, readings);
    case DoSweep(at) => SweepKeeps(t, at);
    case DoRevoke(_, clientid) =>
  }

  /** The table invariant holds at every moment of every run. */
  lemma {:induction false} RunKeeps(t: Table, from: real, events: seq<Event>, n: nat)
    requires Valid(t) && Run(t, from, events) && n <= |events|
    ensures Valid(After(t, from, events, n))
    decreases n
  {
    if n > 0 {
      StepKeeps(t, events[0]);
      RunKeeps(Step(t, events[0]), Done(events[0]), events[1..], n - 1);
    }
  }

  // ------------------------------------------------------------ client ids

  /** `clientid` has been handed out, and only to `id`. */
  predicate OwnedBy(t: Table, clientid: nat, id: string)
  {
    clientid <= t.last && forall k :: k in t.db && t.db[k].clientid == clientid ==> t.db[k].id == id
  }

  lemma StepKeepsOwner(t: Table, e: Event, clientid: nat, id: string)
    requires Valid(t) && Enabled(t, e) && OwnedBy(t, clientid, id)
    ensures OwnedBy(Step(t, e), clientid, id)
  {
    if e.DoRenew? {
      var r := Step(t, e);
      RenewStepIs(t, e, []);
      forall k | k in r.db && r.db[k].clientid == clientid ensures r.db[k].id == id {
        RenewStepIs(t, e, k);
      }
    }
    if e.DoUpsert? && ById(t.db, e.id) != {} {
      var k :| k in ById(t.db, e.id);
      ClientidShared(t, e.id, k);
    }
  }

  lemma {:induction false} OwnerStays(t: Table, from: real, events: seq<Event>, n: nat, clientid: nat, id: string)
    requires Valid(t) && Run(t, from, events) && n <= |events| && OwnedBy(t, clientid, id)
    ensures OwnedBy(After(t, from, events, n), clientid, id)
    decreases n
  {
    if n > 0 {
      StepKeeps(t, events[0]);
      StepKeepsOwner(t, events[0], clientid, id);
      OwnerStays(Step(t, events[0]), Done(events[0]), events[1..], n - 1, clientid, id);
    }
  }

  /** A client id, once handed out, is never reissued to another id string, not even after a purge. */
  lemma ClientidNeverReissued(t: Table, from: real, events: seq<Event>, n: nat, j: Token, k: Token)
    requires Valid(t) && Run(t, from, events) && n <= |events|
    requires j in t.db && k in After(t, from, events, n).db
    requires t.db[j].clientid == After(t, from, events, n).db[k].clientid
    ensures t.db[j].id == After(t, from, events, n).db[k].id
  {
    forall i | i in t.db && t.db[i].clientid == t.db[j].clientid ensures t.db[i].id == t.db[j].id {
      assert Consistent(t.db[i], t.db[j]);
    }
    OwnerStays(t, from, events, n, t.db[j].clientid, t.db[j].id);
  }

  // ------------------------------------------------------------ order of renewals

  predicate ComesFirst(db: Db, j: Token, k: Token)
  {
    j in db && k in db && db[j].confirmed && !db[k].confirmed
  }

  /** The index yields the confirmed record before the unconfirmed one. */
  predicate ConfirmedFirst(t: Table, order: seq<Token>)
  {
    forall i, j :: 0 <= i < |order| && 0 <= j < |order| ==> ComesFirst(t.db, order[i], order[j]) ==> i < j
  }

  /** In that order every renewal keeps the order of the renewals. */
  lemma ConfirmedFirstOrders(t: Table, clientid: nat, order: seq<Token>, readings: seq<real>, from: real)
    requires Valid(t) && Ordered(t) && Listing(ByClientid(t.db, clientid), order) && |readings| == |order|
    requires Rising(from, readings) && ConfirmedFirst(t, order)
    ensures Ordered(t.(db := RenewedDb(t.db, order, readings)))
  {
    var db := RenewedDb(t.db, order, readings);
    ListedRenewed(t, clientid, order, readings);
    forall j, k | j in db && k in db && db[j].id == db[k].id && db[j].confirmed && !db[k].confirmed
      ensures db[j].renewed <= db[k].renewed
    {
      RenewedRecord(t, clientid, order, readings, j);
      RenewedRecord(t, clientid, order, readings, k);
      assert Consistent(t.db[j], t.db[k]);
      if t.db[j].clientid == clientid {
        assert j in ByClientid(t.db, clientid) && k in ByClientid(t.db, clientid);
        var x :| 0 <= x < |order| && order[x] == j;
        var y :| 0 <= y < |order| && order[y] == k;
        assert ComesFirst(t.db, order[x], order[y]);
      }
    }
  }

  /** Readings one second apart. */
  function Ticking(from: real, n: nat): (readings: seq<real>)
    ensures |readings| == n && Rising(from, readings)
    ensures forall i, j :: 0 <= i < j < n ==> readings[i] < readings[j]
  {
    seq(n, i requires 0 <= i < n => from + i as real)
  }

  /** In the other order a clock that ticks between the two records breaks it. */
  lemma UnconfirmedFirstDisorders(t: Table, clientid: nat, order: seq<Token>, from: real)
    requires Valid(t) && Listing(ByClientid(t.db, clientid), order) && !ConfirmedFirst(t, order)
    ensures !Ordered(t.(db := RenewedDb(t.db, order, Ticking(from, |order|))))
  {
    var readings := Ticking(from, |order|);
    var db := RenewedDb(t.db, order, readings);
    ListedRenewed(t, clientid, order, readings);
    var i, j :| 0 <= i < |order| && 0 <= j < |order| && ComesFirst(t.db, order[i], order[j]) && i >= j;
    assert i != j && readings[j] < readings[i];
    assert Consistent(t.db[order[i]], t.db[order[j]]);
    assert db[order[i]].renewed > db[order[j]].renewed;
  }

  /**
    Whatever the clock shows, a renewal keeps the unconfirmed record renewed no
    earlier than the confirmed one, exactly when the index yields the confirmed
    record first.
   */
  lemma RenewOrdersIff(t: Table, clientid: nat, now: real, order: seq<Token>)
    requires Valid(t) && Ordered(t) && Listing(ByClientid(t.db, clientid), order)
    requires ByClientid(t.db, clientid) != {} && !PastRenewal(t, clientid, now)
    ensures (forall readings :: |readings| == |order| && Rising(now, readings) ==>
               Ordered(Renew(t, clientid, now, order, readings).0)) <==> ConfirmedFirst(t, order)
  {
    if ConfirmedFirst(t, order) {
      forall readings | |readings| == |order| && Rising(now, readings)
        ensures Ordered(Renew(t, clientid, now, order, readings).0)
      {
        ConfirmedFirstOrders(t, clientid, order, readings, now);
      }
    } else {
      var readings := Ticking(now, |order|);
      UnconfirmedFirstDisorders(t, clientid, order, now);
      assert |readings| == |order| && Rising(now, readings);
    }
  }

  lemma ConfirmOrders(t: Table, clientid: nat, token: Token, principal: Option<string>)
    requires Valid(t) && Ordered(t)
    ensures Ordered(Confirm(t, clientid, token, principal).0)
  {
    var r := Confirm(t, clientid, token, principal).0;
    forall j, k | j in r.db && k in r.db && r.db[j].id == r.db[k].id && r.db[j].confirmed && !r.db[k].confirmed
      ensures r.db[j].renewed <= r.db[k].renewed
    {
      assert Consistent(t.db[j], t.db[k]);
    }
  }

  lemma UpsertOrders(t: Table, c: Client)
    requires Valid(t) && Ordered(t) && NoFuture(t, c.renewed) && !c.confirmed
    ensures Ordered(Registered(t, c)) && NoFuture(Registered(t, c), c.renewed)
  {
  }

  lemma SweepOrders(t: Table, now: real)
    requires Ordered(t)
    ensures Ordered(Sweep(t, now))
  {
    var r := Sweep(t, now);
    forall k | k in r.db
      ensures r.db[k].renewed == t.db[k].renewed && r.db[k].id == t.db[k].id && r.db[k].confirmed == t.db[k].confirmed
    {
    }
  }

  lemma RenewKeepsPast(t: Table, clientid: nat, order: seq<Token>, readings: seq<real>, until: real)
    requires Listing(ByClientid(t.db, clientid), order) && |readings| == |order| && NoFuture(t, until)
    requires forall i :: 0 <= i < |readings| ==> readings[i] <= until
    ensures NoFuture(t.(db := RenewedDb(t.db, order, readings)), until)
  {
    var db := RenewedDb(t.db, order, readings);
    ListedRenewed(t, clientid, order, readings);
    forall k | k in db ensures db[k].renewed <= until {
      if t.db[k].clientid == clientid {
        assert k in ByClientid(t.db, clientid);
        var i :| 0 <= i < |order| && order[i] == k;
      }
    }
  }

  lemma StepKeepsPast(t: Table, from: real, e: Event)
    requires NoFuture(t, from) && from <= e.at && Enabled(t, e)
    ensures NoFuture(Step(t, e), Done(e))
  {
    if e.DoRenew? {
      RenewKeepsPast(t, e.clientid, e.order, e.readings, e.until);
    }
  }

  lemma StepOrders(t: Table, from: real, e: Event)
    requires Valid(t) && Ordered(t) && NoFuture(t, from) && from <= e.at && Enabled(t, e)
    requires e.DoRenew? ==> ConfirmedFirst(t, e.order)
    ensures Ordered(Step(t, e))
  {
    match e
    case DoUpsert(at, verifier, id, callback, principal, token) =>
      if !InUse(t, id, principal) {
        UpsertOrders(t, NewClient(t, verifier, id, callback, principal, token, at));
      }
    case DoConfirm(_, clientid, token, principal) => ConfirmOrders(t, clientid, token, principal);
    case DoRenew(at, clientid, order, readings, _) => ConfirmedFirstOrders(t, clientid, order, readings, at);
    case DoSweep(at) => SweepOrders(t, at);
    case DoRevoke(_, clientid) =>
  }

  /** At every renewal of the run the index yields the confirmed record first. */
  ghost predicate AlwaysConfirmedFirst(t: Table, from: real, events: seq<Event>)
    requires Run(t, from, events)
    decreases |events|
  {
    events == [] ||
    ((events[0].DoRenew? ==> ConfirmedFirst(t, events[0].order)) &&
     AlwaysConfirmedFirst(Step(t, events[0]), Done(events[0]), events[1..]))
  }

  /**
    Then an unconfirmed record is at every moment renewed no earlier than the confirmed
    one, whatever the clock shows.
   */
  lemma {:induction false} RunOrders(t: Table, from: real, events: seq<Event>, n: nat)
    requires Valid(t) && Ordered(t) && NoFuture(t, from)
    requires Run(t, from, events) && AlwaysConfirmedFirst(t, from, events) && n <= |events|
    ensures Ordered(After(t, from, events, n))
    decreases n
  {
    if n > 0 {
      StepKeeps(t, events[0]);
      StepOrders(t, from, events[0]);
      StepKeepsPast(t, from, events[0]);
      RunOrders(Step(t, events[0]), Done(events[0]), events[1..], n - 1);
    }
  }

  /** A client with a new id string gets the next client id. */
  lemma NewRegistration(t: Table, c: Client)
    requires ById(t.db, c.id) == {} && c.clientid == t.last + 1 && !c.confirmed && !c.courtesy
    ensures Upsert(t, c.verifier, c.id, c.callback, c.principal, c.token, c.renewed) ==
            Table(t.db[c.token := c], c.clientid)
  {
    assert Unconfirmed(t.db, c.id) == {};
    assert Without(t.db, {}) == t.db;
  }

  lemma FirstConfirmation(x: Client, c: Client)
    requires x.clientid == 1 && c.clientid == 2 && x.token != c.token
    ensures Confirm(Table(map[x.token := x, c.token := c], 2), 2, c.token, c.principal).0 ==
            Table(map[x.token := x, c.token := c.(confirmed := true)], 2)
  {
    var t := Table(map[x.token := x, c.token := c], 2);
    assert c.token in ByClientid(t.db, 2);
    assert Superseded(t.db, 2, c.token) == {};
    assert Without(t.db, {}) == t.db;
  }

  lemma FirstRevocation(x: Client, c: Client)
    requires x.clientid == 1 && c.clientid == 2 && x.token != c.token
    ensures Revoke(Table(map[x.token := x, c.token := c], 2), 1) == Table(map[c.token := c], 2)
  {
    var t := Table(map[x.token := x, c.token := c], 2);
    assert ByClientid(t.db, 1) == {x.token};
    assert Without(t.db, {x.token}) == map[c.token := c];
  }

  lemma SecondRegistration(c: Client, u: Client)
    requires c.clientid == 2 && c.confirmed && u.clientid == 2 && !u.confirmed && !u.courtesy
    requires c.id == u.id && c.principal == u.principal && c.token != u.token
    ensures Upsert(Table(map[c.token := c], 2), u.verifier, u.id, u.callback, u.principal, u.token, u.renewed) ==
            Table(map[c.token := c, u.token := u], 2)
  {
    var t := Table(map[c.token := c], 2);
    assert c.token in ById(t.db, u.id);
    ClientidShared(t, u.id, c.token);
    assert Unconfirmed(t.db, u.id) == {};
    assert Without(t.db, {}) == t.db;
  }

  function Registering(c: Client): Event
  {
    DoUpsert(0.0, c.verifier, c.id, c.callback, c.principal, c.token)
  }

  /**
    Client `x` registers; another registers as `c` and confirms; `x` is revoked;
    the other registers again as `u`, and its renewal meets the new record first.
   */
  function DisorderingRun(x: Client, c: Client, u: Client): seq<Event>
  {
    [Registering(x), Registering(c), DoConfirm(0.0, 2, c.token, c.principal), DoRevoke(0.0, 1), Registering(u),
     DoRenew(0.0, 2, [u.token, c.token], Ticking(0.0, 2), 1.0)]
  }

  /** Three new records: `c` and `u` of one client, `x` of another. */
  predicate Newcomers(x: Client, c: Client, u: Client)
  {
    && !x.confirmed && !c.confirmed && !u.confirmed && !x.courtesy && !c.courtesy && !u.courtesy
    && x.clientid == 1 && c.clientid == u.clientid == 2 && x.renewed == c.renewed == u.renewed == 0.0
    && c.id == u.id != x.id && c.principal == u.principal
    && x.token != c.token && x.token != u.token && c.token != u.token
  }

  /**
    A run from the empty table after which the unconfirmed record is renewed
    earlier than the confirmed one; the order its renewal meets the records in is
    that of their places (see `PlacesOfTheRun`).
   */
  lemma RenewalCanDisorder(x: Client, c: Client, u: Client)
    requires Newcomers(x, c, u)
    ensures Run(Table(map[], 0), 0.0, DisorderingRun(x, c, u))
    ensures !Ordered(After(Table(map[], 0), 0.0, DisorderingRun(x, c, u), 6))
  {
    var e := DisorderingRun(x, c, u);
    var tail := [e[2], e[3], e[4], e[5]];
    NewRegistration(Table(map[], 0), x);
    NewRegistration(Table(map[x.token := x], 1), c);
    assert map[x.token := x][c.token := c] == map[x.token := x, c.token := c];
    DisorderedMiddle(x, c, u, tail);
    RunCons(Table(map[x.token := x], 1), 0.0, e[1], tail);
    RunCons(Table(map[], 0), 0.0, e[0], [e[1]] + tail);
    assert [e[0]] + ([e[1]] + tail) == e;
  }

  lemma DisorderedMiddle(x: Client, c: Client, u: Client, e: seq<Event>)
    requires Newcomers(x, c, u)
    requires e == [DoConfirm(0.0, 2, c.token, c.principal), DoRevoke(0.0, 1), Registering(u),
                   DoRenew(0.0, 2, [u.token, c.token], Ticking(0.0, 2), 1.0)]
    ensures Run(Table(map[x.token := x, c.token := c], 2), 0.0, e)
    ensures !Ordered(After(Table(map[x.token := x, c.token := c], 2), 0.0, e, 4))
  {
    var confirmed := c.(confirmed := true);
    FirstConfirmation(x, c);
    FirstRevocation(x, confirmed);
    DisorderedTail(confirmed, u, [e[2], e[3]]);
    RunCons(Table(map[x.token := x, c.token := confirmed], 2), 0.0, e[1], [e[2], e[3]]);
    RunCons(Table(map[x.token := x, c.token := c], 2), 0.0, e[0], [e[1]] + [e[2], e[3]]);
    assert [e[0]] + ([e[1]] + [e[2], e[3]]) == e;
  }

  lemma DisorderedTail(c: Client, u: Client, e: seq<Event>)
    requires c.clientid == u.clientid == 2 && c.confirmed && !u.confirmed && !c.courtesy && !u.courtesy
    requires c.renewed == u.renewed == 0.0
    requires c.id == u.id && c.principal == u.principal && c.token != u.token
    requires e == [Registering(u), DoRenew(0.0, 2, [u.token, c.token], Ticking(0.0, 2), 1.0)]
    ensures Run(Table(map[c.token := c], 2), 0.0, e)
    ensures !Ordered(After(Table(map[c.token := c], 2), 0.0, e, 2))
  {
    SecondRegistration(c, u);
    LastRenewalDisorders(Table(map[c.token := c, u.token := u], 2), c.token, u.token);
    RunCons(Table(map[c.token := c, u.token := u], 2), 0.0, e[1], []);
    RunCons(Table(map[c.token := c], 2), 0.0, e[0], [e[1]] + []);
    assert [e[0]] + ([e[1]] + []) == e;
  }

  /** Storage with places: a record goes to the place vacated last, or behind all others. */
  datatype Places = Places(held: seq<Option<Token>>, vacant: seq<nat>)
  {
    predicate Valid() { forall i :: 0 <= i < |vacant| ==> vacant[i] < |held| }

    function Put(k: Token): Places
      requires Valid()
    {
      if vacant == [] then Places(held + [Some(k)], [])
      else Places(held[vacant[|vacant| - 1] := Some(k)], vacant[..|vacant| - 1])
    }

    function Take(i: nat): Places
      requires i < |held|
    {
      Places(held[i := None], vacant + [i])
    }
  }

  /**
    In the run `x` takes place 0, `c` place 1 and, taken out and put back, again; `x`
    leaves, and `u` comes before `c`.
   */
  lemma PlacesOfTheRun(x: Token, c: Token, u: Token)
    ensures Places([], []).Put(x).Put(c).Take(1).Put(c).Take(0).Put(u) == Places([Some(u), Some(c)], [])
  {
    assert Places([], []).Put(x).Put(c) == Places([Some(x), Some(c)], []);
    assert Places([Some(x), Some(c)], []).Take(1) == Places([Some(x), None], [1]);
    assert Places([Some(x), None], [1]).Put(c) == Places([Some(x), Some(c)], []);
    assert Places([Some(x), Some(c)], []).Take(0) == Places([None, Some(c)], [0]);
    assert Places([None, Some(c)], [0]).Put(u) == Places([Some(u), Some(c)], []);
  }

  /** A run is its first event and the run from there on. */
  lemma RunCons(t: Table, from: real, e: Event, rest: seq<Event>)
    requires from <= e.at && Enabled(t, e) && Run(Step(t, e), Done(e), rest)
    ensures Run(t, from, [e] + rest)
    ensures After(t, from, [e] + rest, 1 + |rest|) == After(Step(t, e), Done(e), rest, |rest|)
  {
    assert ([e] + rest)[1..] == rest;
  }

  lemma LastRenewalDisorders(t: Table, j: Token, k: Token)
    requires Valid(t) && j != k && t.db.Keys == {j, k} && t.db[j].clientid == t.db[k].clientid == 2
    requires t.db[j].confirmed && !t.db[k].confirmed && !t.db[j].courtesy
    ensures var e := DoRenew(0.0, 2, [k, j], Ticking(0.0, 2), 1.0);
            Enabled(t, e) && !Ordered(Step(t, e))
  {
    var order := [k, j];
    assert ByClientid(t.db, 2) == {j, k};
    assert k in order && j in order && order[0] == k && order[1] == j;
    assert !ConfirmedFirst(t, order) by {
      assert ComesFirst(t.db, order[1], order[0]);
    }
    UnconfirmedFirstDisorders(t, 2, order, 0.0);
  }

  // ------------------------------------------------------------ what each request answers and leaves

  /**
    A confirmed record of the client has the courtesy mark and is more than two lease
    times, of 90 seconds each, idle.
   */
  predicate OutOfCourtesy(db: Db, clientid: nat, now: real)
  {
    exists k :: k in db && db[k].clientid == clientid && db[k].confirmed && db[k].courtesy
      && (now - db[k].renewed).Floor > 180
  }

  /**
    SETCLIENTID: refused exactly for another principal's confirmed record; else the new
    record replaces the unconfirmed one.
   */
  lemma UpsertIs(t: Table, verifier: ByteString, id: string, callback: Callback, principal: Option<string>,
                 token: Token, now: real)
    requires Valid(t) && token !in t.db
    ensures var r := Upsert(t, verifier, id, callback, principal, token, now);
            if exists k :: k in t.db && t.db[k].id == id && t.db[k].confirmed && t.db[k].principal != principal
            then r == t
            else
              && token in r.db
              && r.db[token] ==
                 Client(principal, verifier, id, r.db[token].clientid, callback, token, false, now, false)
              && (forall k :: k in t.db && t.db[k].id == id ==>
                    r.db[token].clientid == t.db[k].clientid && r.last == t.last)
              && ((forall k :: k in t.db ==> t.db[k].id != id) ==> r.db[token].clientid == r.last == t.last + 1)
              && (forall k :: k in r.db && k != token <==> k in t.db && (t.db[k].id != id || t.db[k].confirmed))
              && (forall k :: k in r.db && k != token ==> r.db[k] == t.db[k])
  {
    if InUse(t, id, principal) {
      assert exists k :: k in t.db && t.db[k].id == id && t.db[k].confirmed && t.db[k].principal != principal;
    } else {
      forall k | k in t.db && t.db[k].id == id && t.db[k].confirmed ensures t.db[k].principal == principal {
        assert k in ById(t.db, id);
      }
      forall k | k in t.db && t.db[k].id == id ensures ClientidFor(t, id) == t.db[k].clientid && ById(t.db, id) != {} {
        ClientidShared(t, id, k);
      }
    }
  }

  /** SETCLIENTID_CONFIRM: which answer it gives, exactly. */
  lemma ConfirmAnswers(t: Table, clientid: nat, token: Token, principal: Option<string>)
    ensures var answer := Confirm(t, clientid, token, principal).1;
            var differs := exists k :: k in t.db && t.db[k].clientid == clientid && t.db[k].principal != principal;
            && (answer == Err(ClidInuse) <==> differs)
            && (answer.Ok? <==> !differs && token in t.db && t.db[token].clientid == clientid)
            && (answer == Err(StaleClientid) <==> !differs && !(token in t.db && t.db[token].clientid == clientid))
  {
    if differs: Token :| differs in t.db && t.db[differs].clientid == clientid && t.db[differs].principal != principal {
      assert differs in ByClientid(t.db, clientid);
    }
    if token in t.db && t.db[token].clientid == clientid {
      assert token in ByClientid(t.db, clientid);
    }
  }

  /** RENEW: which answer it gives, exactly, and that nothing but a success changes anything. */
  lemma RenewAnswers(t: Table, clientid: nat, now: real, order: seq<Token>, readings: seq<real>)
    requires |order| == |readings|
    ensures var (r, failure) := Renew(t, clientid, now, order, readings);
            && (failure == Some(StaleClientid) <==> forall k :: k in t.db ==> t.db[k].clientid != clientid)
            && (failure == Some(Expired) <==> OutOfCourtesy(t.db, clientid, now))
            && failure != Some(ClidInuse) && (failure.Some? ==> r == t)
  {
    if k :| k in t.db && t.db[k].clientid == clientid {
      assert k in ByClientid(t.db, clientid);
    }
    if PastRenewal(t, clientid, now) {
      var k :| k in ByClientid(t.db, clientid) && t.db[k].confirmed && t.db[k].courtesy
               && Idle(t.db[k], now) > 2 * LEASE_TIME;
      assert (now - t.db[k].renewed).Floor > 180;
      assert OutOfCourtesy(t.db, clientid, now);
    }
    if OutOfCourtesy(t.db, clientid, now) {
      var k :| k in t.db && t.db[k].clientid == clientid && t.db[k].confirmed && t.db[k].courtesy
               && (now - t.db[k].renewed).Floor > 180;
      assert k in ByClientid(t.db, clientid) && Idle(t.db[k], now) > 2 * LEASE_TIME;
    }
  }

  /**
    The courtesy window: over every run, a client still in the table whose confirmed
    record was renewed at most two lease times before its RENEW is renewed by it,
    marked or not, and none of its records keeps the mark.
   */
  lemma CourtesyWindow(t: Table, from: real, events: seq<Event>, n: nat, k: Token, j: Token)
    requires Valid(t) && Run(t, from, events) && n < |events| && events[n].DoRenew?
    requires k in After(t, from, events, n).db && After(t, from, events, n).db[k].confirmed
    requires After(t, from, events, n).db[k].clientid == events[n].clientid
    requires (events[n].at - After(t, from, events, n).db[k].renewed).Floor <= 180
    requires j in After(t, from, events, n).db && After(t, from, events, n).db[j].clientid == events[n].clientid
    ensures var now := After(t, from, events, n + 1).db;
            j in now && !now[j].courtesy && events[n].at <= now[j].renewed <= events[n].until
  {
    var e, before := events[n], After(t, from, events, n);
    RunKeeps(t, from, events, n);
    AfterSteps(t, from, events, n);
    forall c | c in before.db && before.db[c].clientid == e.clientid && before.db[c].confirmed ensures c == k {
      assert Consistent(before.db[c], before.db[k]);
    }
    RenewAnswers(before, e.clientid, e.at, e.order, e.readings);
    assert j in ByClientid(before.db, e.clientid);
    ListedRenewed(before, e.clientid, e.order, e.readings);
    var i :| 0 <= i < |e.order| && e.order[i] == j;
    assert RenewedDb(before.db, e.order, e.readings)[e.order[i]].renewed == e.readings[i];
  }

  /**
    A sweep, record by record: it goes when a confirmed marked record of its client
    is two lease times idle, and else is as it was, marked when a confirmed
    unmarked one is a lease time idle.
   */
  lemma SweepIs(t: Table, now: real, k: Token)
    requires k in t.db
    ensures var r, id := Sweep(t, now), t.db[k].clientid;
            var ends := exists c :: c in t.db && t.db[c].clientid == id && t.db[c].confirmed && t.db[c].courtesy
                          && (now - t.db[c].renewed).Floor >= 180;
            var lapses := exists c :: c in t.db && t.db[c].clientid == id && t.db[c].confirmed && !t.db[c].courtesy
                            && (now - t.db[c].renewed).Floor >= 90;
            && r.last == t.last && r.db.Keys <= t.db.Keys && (k in r.db <==> !ends)
            && (!ends ==> r.db[k] == t.db[k].(courtesy := t.db[k].courtesy || lapses))
  {
    var id := t.db[k].clientid;
    if id in Expiring(t.db, now) {
      var c :| c in t.db && Expires(t.db[c], now) && t.db[c].clientid == id;
      assert (now - t.db[c].renewed).Floor >= 180;
    }
    if c :| c in t.db && t.db[c].clientid == id && t.db[c].confirmed && t.db[c].courtesy
            && (now - t.db[c].renewed).Floor >= 180 {
      assert Expires(t.db[c], now);
    }
    if id in Lapsing(t.db, now) {
      var c :| c in t.db && Lapses(t.db[c], now) && t.db[c].clientid == id;
      assert (now - t.db[c].renewed).Floor >= 90;
    }
    if c :| c in t.db && t.db[c].clientid == id && t.db[c].confirmed && !t.db[c].courtesy
            && (now - t.db[c].renewed).Floor >= 90 {
      assert Lapses(t.db[c], now);
    }
  }

  /** A revocation removes the records of that client and no other. */
  lemma RevokeIs(t: Table, clientid: nat, k: Token)
    ensures var r := Revoke(t, clientid);
            && r.last == t.last && (k in r.db <==> k in t.db && t.db[k].clientid != clientid)
            && (k in r.db ==> r.db[k] == t.db[k])
  {
  }

  // ------------------------------------------------------------ a failing confirmation

  /** Exactly when a failing SETCLIENTID_CONFIRM still removes the confirmed record. */
  lemma FailingConfirmRemovesIff(t: Table, clientid: nat, token: Token, principal: Option<string>)
    requires Valid(t) && Confirm(t, clientid, token, principal).1.Err?
    ensures Confirm(t, clientid, token, principal).0 != t <==>
            && token !in ByClientid(t.db, clientid)
            && !PrincipalDiffers(t, clientid, principal)
            && exists k :: k in ByClientid(t.db, clientid) && t.db[k].confirmed
  {
    var r := Confirm(t, clientid, token, principal).0;
    if k :| k in ByClientid(t.db, clientid) && t.db[k].confirmed {
      if token !in ByClientid(t.db, clientid) && !PrincipalDiffers(t, clientid, principal) {
        assert k in Superseded(t.db, clientid, token);
        assert k !in r.db;
      }
    } else {
      assert Superseded(t.db, clientid, token) == {};
      assert Without(t.db, {}) == t.db;
    }
  }

  /** It happens: a stale token costs a confirmed client its record. */
  lemma FailingConfirmCanRemove(c: Client, token: Token)
    requires c.confirmed && c.token != token
    ensures var t := Table(map[c.token := c], c.clientid);
            Valid(t) && Confirm(t, c.clientid, token, c.principal) == (Table(map[], c.clientid), Err(StaleClientid))
  {
    var t := Table(map[c.token := c], c.clientid);
    assert c.token in ByClientid(t.db, c.clientid);
    assert Without(t.db, Superseded(t.db, c.clientid, token)) == map[];
  }

  /** A confirmation leaves the client exactly one record, unless it repeats one already confirmed. */
  lemma ConfirmReplaces(t: Table, clientid: nat, token: Token, principal: Option<string>, k: Token)
    requires Valid(t) && Confirm(t, clientid, token, principal).1.Ok?
    ensures var (r, answer) := Confirm(t, clientid, token, principal);
            && token in t.db && token in r.db && r.db[token] == answer.value == t.db[token].(confirmed := true)
            && (t.db[token].confirmed ==> r == t)
            && (!t.db[token].confirmed && k in ByClientid(r.db, clientid) ==> k == token)
            && (k in t.db && t.db[k].clientid != clientid ==> k in r.db && r.db[k] == t.db[k])
  {
    var r := Confirm(t, clientid, token, principal).0;
    if t.db[token].confirmed {
      forall j | j in t.db ensures j !in Superseded(t.db, clientid, token) {
        assert Consistent(t.db[j], t.db[token]);
      }
      assert r.db == t.db;
    } else if k in t.db {
      assert Consistent(t.db[k], t.db[token]);
    }
  }

  // ------------------------------------------------------------ lease safety

  /** The sweep of event `j` is the one that marked the record of token `k`. */
  ghost predicate MarkedAt(t: Table, from: real, events: seq<Event>, j: nat, k: Token)
    requires Run(t, from, events) && j < |events|
  {
    && events[j].DoSweep?
    && k in After(t, from, events, j).db && k in After(t, from, events, j + 1).db
    && !After(t, from, events, j).db[k].courtesy && After(t, from, events, j + 1).db[k].courtesy
  }

  /** Nothing but a sweep marks a record. */
  lemma OnlySweepMarks(t: Table, e: Event, k: Token)
    requires Valid(t) && Enabled(t, e) && k in Step(t, e).db && Step(t, e).db[k].courtesy
    ensures k in t.db
    ensures !t.db[k].courtesy ==> e.DoSweep?
    ensures t.db[k].renewed == Step(t, e).db[k].renewed
    ensures !t.db[k].courtesy ==>
      exists c :: c in ByClientid(t.db, t.db[k].clientid) && Lapses(t.db[c], e.at)
  {
    if e.DoRenew? {
      RenewStepIs(t, e, k);
    }
    if !t.db[k].courtesy {
      assert t.db[k].clientid in Lapsing(t.db, e.at);
      var c :| c in t.db && Lapses(t.db[c], e.at) && t.db[c].clientid == t.db[k].clientid;
      assert c in ByClientid(t.db, t.db[k].clientid);
    }
  }

  lemma {:induction false} AfterSteps(t: Table, from: real, events: seq<Event>, n: nat)
    requires Run(t, from, events) && n < |events|
    ensures Enabled(After(t, from, events, n), events[n])
    ensures After(t, from, events, n + 1) == Step(After(t, from, events, n), events[n])
    decreases n
  {
    if n > 0 {
      var next := Step(t, events[0]);
      AfterSteps(next, Done(events[0]), events[1..], n - 1);
      assert events[1..][n - 1] == events[n];
    }
  }

  /** Event `j` marked the record of token `k`, which has not been renewed up to event `n`. */
  ghost predicate MarkedSince(t: Table, from: real, events: seq<Event>, j: nat, n: nat, k: Token)
    requires Run(t, from, events) && n <= |events|
  {
    && j < n && MarkedAt(t, from, events, j, k) && k in After(t, from, events, n).db
    && After(t, from, events, j).db[k].renewed == After(t, from, events, n).db[k].renewed
  }

  /** A record shown as courtesy was marked by an earlier sweep and not renewed since. */
  lemma {:induction false} CourtesyWasMarked(t: Table, from: real, events: seq<Event>, n: nat, k: Token)
    requires Valid(t) && (forall i :: i in t.db ==> !t.db[i].courtesy)
    requires Run(t, from, events) && n <= |events|
    requires k in After(t, from, events, n).db && After(t, from, events, n).db[k].courtesy
    ensures exists j: nat :: MarkedSince(t, from, events, j, n, k)
    decreases n
  {
    AfterSteps(t, from, events, n - 1);
    RunKeeps(t, from, events, n - 1);
    var before := After(t, from, events, n - 1);
    OnlySweepMarks(before, events[n - 1], k);
    if before.db[k].courtesy {
      CourtesyWasMarked(t, from, events, n - 1, k);
      var j: nat :| MarkedSince(t, from, events, j, n - 1, k);
      assert MarkedSince(t, from, events, j, n, k);
    } else {
      assert MarkedSince(t, from, events, n - 1, n, k);
    }
  }

  /** A sweep removes exactly the records of the clients it reports, and only those that expire. */
  lemma SweepRemovesIff(t: Table, now: real, k: Token)
    requires Valid(t) && k in t.db
    ensures k !in Sweep(t, now).db <==>
            exists c :: c in ByClientid(t.db, t.db[k].clientid) && Expires(t.db[c], now)
  {
    if k !in Sweep(t, now).db {
      assert t.db[k].clientid in Expiring(t.db, now);
      var c :| c in t.db && Expires(t.db[c], now) && t.db[c].clientid == t.db[k].clientid;
      assert c in ByClientid(t.db, t.db[k].clientid);
    }
  }

  /**
    Safety of the sweep over every run from a table without courtesy clients:
    a purged client's confirmed record was marked by an earlier sweep, has not
    been renewed since that mark, and is at least two lease times idle.
   */
  lemma PurgedWasMarkedAndIdle(t: Table, from: real, events: seq<Event>, n: nat, k: Token)
    requires Valid(t) && (forall i :: i in t.db ==> !t.db[i].courtesy)
    requires Run(t, from, events) && n < |events| && events[n].DoSweep?
    requires k in After(t, from, events, n).db && k !in After(t, from, events, n + 1).db
    ensures var before := After(t, from, events, n).db;
            exists c :: c in before && before[c].clientid == before[k].clientid && before[c].confirmed &&
              Idle(before[c], events[n].at) >= 2 * LEASE_TIME &&
              exists j: nat :: MarkedSince(t, from, events, j, n, c)
  {
    var before := After(t, from, events, n);
    AfterSteps(t, from, events, n);
    RunKeeps(t, from, events, n);
    SweepRemovesIff(before, events[n].at, k);
    var c :| c in ByClientid(before.db, before.db[k].clientid) && Expires(before.db[c], events[n].at);
    CourtesyWasMarked(t, from, events, n, c);
  }

  /**
    The mark covers the whole client: a registration still unconfirmed at the
    sweep is a courtesy client from the moment it is confirmed, however recent.
   */
  lemma ConfirmedInheritsMark(t: Table, now: real, k: Token, u: Token)
    requires Valid(t) && k in t.db && Lapses(t.db[k], now)
    requires u in t.db && t.db[u].clientid == t.db[k].clientid && !t.db[u].confirmed
    ensures var (r, answer) := Confirm(Sweep(t, now), t.db[u].clientid, u, t.db[u].principal);
            answer == Ok(t.db[u].(confirmed := true, courtesy := true))
  {
    var s := Sweep(t, now);
    assert Consistent(t.db[k], t.db[u]);
    assert t.db[u].clientid in Lapsing(t.db, now);
    forall c | c in t.db && t.db[c].clientid == t.db[u].clientid ensures !Expires(t.db[c], now) {
      assert Consistent(t.db[c], t.db[k]);
    }
    assert t.db[u].clientid !in Expiring(t.db, now);
    assert u in ByClientid(s.db, t.db[u].clientid);
    forall c | c in ByClientid(s.db, t.db[u].clientid) ensures s.db[c].principal == t.db[u].principal {
      assert Consistent(t.db[c], t.db[u]);
    }
  }

  // ------------------------------------------------------------ who is a courtesy client

  /** Some confirmed record of the client lapses. */
  predicate ClientLapses(db: Db, clientid: nat, now: real)
  {
    exists c :: c in ByClientid(db, clientid) && Lapses(db[c], now)
  }

  /** A sweep marks a record exactly when the confirmed record of its client lapses: its own stamp does not matter. */
  lemma SweepMarksIff(t: Table, now: real, k: Token)
    requires Valid(t) && k in t.db && !t.db[k].courtesy
    ensures (k in Sweep(t, now).db && Sweep(t, now).db[k].courtesy) <==> ClientLapses(t.db, t.db[k].clientid, now)
  {
    var clientid := t.db[k].clientid;
    if ClientLapses(t.db, clientid, now) {
      var c :| c in ByClientid(t.db, clientid) && Lapses(t.db[c], now);
      assert clientid in Lapsing(t.db, now);
      forall x | x in t.db && t.db[x].clientid == clientid ensures !Expires(t.db[x], now) {
        assert Consistent(t.db[x], t.db[c]);
      }
      assert clientid !in Expiring(t.db, now);
    } else {
      assert clientid !in Lapsing(t.db, now);
    }
  }

  /** Event `e` renews the client's records. */
  predicate Renews(t: Table, e: Event, clientid: nat)
  {
    e.DoRenew? && e.clientid == clientid && ByClientid(t.db, clientid) != {} && !PastRenewal(t, clientid, e.at)
  }

  lemma RenewUnmarks(t: Table, e: Event, k: Token)
    requires e.DoRenew? && Enabled(t, e) && k in t.db
    ensures k in Step(t, e).db
    ensures Step(t, e).db[k].courtesy <==> t.db[k].courtesy && !Renews(t, e, t.db[k].clientid)
  {
    RenewStepIs(t, e, k);
    if Renews(t, e, t.db[k].clientid) {
      ListedRenewed(t, e.clientid, e.order, e.readings);
      assert k in ByClientid(t.db, e.clientid);
      var i :| 0 <= i < |e.order| && e.order[i] == k;
    } else if t.db[k].clientid == e.clientid {
      assert k in ByClientid(t.db, e.clientid);
    }
  }

  /** One event's effect on a record that is there after it. */
  lemma CourtesyStep(t: Table, e: Event, k: Token)
    requires Valid(t) && Enabled(t, e) && k in Step(t, e).db
    ensures Step(t, e).db[k].courtesy <==>
            && k in t.db
            && (|| (t.db[k].courtesy && !Renews(t, e, t.db[k].clientid))
                || (e.DoSweep? && ClientLapses(t.db, t.db[k].clientid, e.at)))
  {
    if e.DoRenew? {
      RenewStepIs(t, e, k);
      RenewUnmarks(t, e, k);
    } else if e.DoSweep? && !t.db[k].courtesy {
      SweepMarksIff(t, e.at, k);
    }
  }

  /** Event `j` is a sweep at which the client of record `k` lapses, and the record stays unrenewed up to event `n`. */
  ghost predicate MarkHolds(t: Table, from: real, events: seq<Event>, j: nat, n: nat, k: Token)
    requires Run(t, from, events) && n <= |events|
  {
    && j < n && events[j].DoSweep? && k in After(t, from, events, j).db
    && ClientLapses(After(t, from, events, j).db, After(t, from, events, j).db[k].clientid, events[j].at)
    && StaysUnrenewed(t, from, events, j, n, k)
  }

  ghost predicate StaysUnrenewed(t: Table, from: real, events: seq<Event>, j: nat, n: nat, k: Token)
    requires Run(t, from, events) && n <= |events|
  {
    forall m :: j < m <= n ==> Unrenewed(t, from, events, m, n, k)
  }

  ghost predicate Unrenewed(t: Table, from: real, events: seq<Event>, m: nat, n: nat, k: Token)
    requires Run(t, from, events) && m <= n <= |events|
  {
    && k in After(t, from, events, m).db
    && (m < n ==> !Renews(After(t, from, events, m), events[m], After(t, from, events, m).db[k].clientid))
  }

  lemma MarkHoldsOn(t: Table, from: real, events: seq<Event>, j: nat, n: nat, k: Token)
    requires Run(t, from, events) && 0 < n <= |events| && k in After(t, from, events, n).db
             && k in After(t, from, events, n - 1).db
    requires MarkHolds(t, from, events, j, n - 1, k)
    requires !Renews(After(t, from, events, n - 1), events[n - 1], After(t, from, events, n - 1).db[k].clientid)
    ensures MarkHolds(t, from, events, j, n, k)
  {
    forall m | j < m <= n ensures Unrenewed(t, from, events, m, n, k) {
      if m < n {
        assert Unrenewed(t, from, events, m, n - 1, k);
      }
    }
  }

  lemma MarkHeldBefore(t: Table, from: real, events: seq<Event>, j: nat, last: nat, n: nat, k: Token)
    requires Run(t, from, events) && j < last && last + 1 == n <= |events| && MarkHolds(t, from, events, j, n, k)
    ensures MarkHolds(t, from, events, j, last, k) && Unrenewed(t, from, events, last, n, k)
  {
    forall m | j < m <= last ensures Unrenewed(t, from, events, m, last, k) {
      assert Unrenewed(t, from, events, m, n, k);
    }
  }

  /**
    Over every run from a table without courtesy clients: a record is a courtesy
    client exactly when an earlier sweep found its client's lease lapsed and the
    record has stayed unrenewed since.
   */
  lemma {:induction false} CourtesyIff(t: Table, from: real, events: seq<Event>, n: nat, k: Token)
    requires Valid(t) && (forall i :: i in t.db ==> !t.db[i].courtesy)
    requires Run(t, from, events) && n <= |events| && k in After(t, from, events, n).db
    ensures After(t, from, events, n).db[k].courtesy <==> exists j: nat :: MarkHolds(t, from, events, j, n, k)
    decreases n
  {
    if n > 0 {
      AfterSteps(t, from, events, n - 1);
      RunKeeps(t, from, events, n - 1);
      var before := After(t, from, events, n - 1);
      CourtesyStep(before, events[n - 1], k);
      if k in before.db {
        CourtesyIff(t, from, events, n - 1, k);
        CourtesyGoesOn(t, from, events, n - 1, n, k);
      } else {
        AbsentHasNoMark(t, from, events, n - 1, n, k);
      }
    }
  }

  lemma AbsentHasNoMark(t: Table, from: real, events: seq<Event>, last: nat, n: nat, k: Token)
    requires Run(t, from, events) && last + 1 == n <= |events| && k !in After(t, from, events, last).db
    ensures forall j: nat :: !MarkHolds(t, from, events, j, n, k)
  {
    forall j: nat ensures !MarkHolds(t, from, events, j, n, k) {
      assert j < last ==> !Unrenewed(t, from, events, last, n, k);
    }
  }

  lemma CourtesyGoesOn(t: Table, from: real, events: seq<Event>, last: nat, n: nat, k: Token)
    requires Run(t, from, events) && last + 1 == n <= |events|
    requires k in After(t, from, events, n).db && k in After(t, from, events, last).db
    ensures var before := After(t, from, events, last);
            (exists j: nat :: MarkHolds(t, from, events, j, n, k)) <==>
            || ((exists j: nat :: MarkHolds(t, from, events, j, last, k))
                && !Renews(before, events[last], before.db[k].clientid))
            || (events[last].DoSweep? && ClientLapses(before.db, before.db[k].clientid, events[last].at))
  {
    var before := After(t, from, events, last);
    if events[last].DoSweep? && ClientLapses(before.db, before.db[k].clientid, events[last].at) {
      assert MarkHolds(t, from, events, last, n, k) by {
        assert Unrenewed(t, from, events, n, n, k);
      }
    }
    if !Renews(before, events[last], before.db[k].clientid) {
      if j: nat :| MarkHolds(t, from, events, j, last, k) {
        MarkHoldsOn(t, from, events, j, n, k);
      }
    }
    if j: nat :| MarkHolds(t, from, events, j, n, k) {
      if j < last {
        MarkHeldBefore(t, from, events, j, last, n, k);
      }
    }
  }

  /** At the sweep of event `j` record `k` had itself been idle for a lease time. */
  ghost predicate IdleAt(t: Table, from: real, events: seq<Event>, j: nat, k: Token)
    requires Run(t, from, events) && j < |events|
  {
    k in After(t, from, events, j).db && Idle(After(t, from, events, j).db[k], events[j].at) >= LEASE_TIME
  }

  /** There it was unconfirmed, and the confirmed record of its client lapsed. */
  ghost predicate BesideLapsed(t: Table, from: real, events: seq<Event>, j: nat, k: Token)
    requires Run(t, from, events) && j < |events|
  {
    var db := After(t, from, events, j).db;
    && k in db && !db[k].confirmed
    && exists c :: c in db && c != k && db[c].clientid == db[k].clientid && Lapses(db[c], events[j].at)
  }

  /** A mark comes from the record's own idleness, or from being unconfirmed beside a record that lapsed. */
  lemma MarkOrigin(t: Table, from: real, events: seq<Event>, j: nat, n: nat, k: Token)
    requires Valid(t) && Run(t, from, events) && n <= |events| && MarkHolds(t, from, events, j, n, k)
    ensures After(t, from, events, j).db[k].confirmed ==> IdleAt(t, from, events, j, k)
    ensures !After(t, from, events, j).db[k].confirmed ==> BesideLapsed(t, from, events, j, k)
  {
    RunKeeps(t, from, events, j);
    var db := After(t, from, events, j).db;
    var c :| c in ByClientid(db, db[k].clientid) && Lapses(db[c], events[j].at);
    assert Consistent(db[c], db[k]);
  }

  /** No sweep before event `n` found record `k` idle for a lease time. */
  ghost predicate NeverIdle(t: Table, from: real, events: seq<Event>, n: nat, k: Token)
    requires Run(t, from, events) && n <= |events|
  {
    forall j: nat :: j < n && events[j].DoSweep? ==> !IdleAt(t, from, events, j, k)
  }

  /**
    A sweep before event `n` found record `k` unconfirmed beside a record that lapsed, and
    nothing has renewed it since.
   */
  ghost predicate Inherited(t: Table, from: real, events: seq<Event>, j: nat, n: nat, k: Token)
    requires Run(t, from, events) && n <= |events|
  {
    j < n && events[j].DoSweep? && BesideLapsed(t, from, events, j, k) && StaysUnrenewed(t, from, events, j, n, k)
  }

  /**
    A record that no sweep found idle is a courtesy client all the same exactly
    when a sweep found it unconfirmed beside the confirmed record of its client,
    which lapsed, and nothing has renewed it since.
   */
  lemma CourtesyInheritedIff(t: Table, from: real, events: seq<Event>, n: nat, k: Token)
    requires Valid(t) && (forall i :: i in t.db ==> !t.db[i].courtesy)
    requires Run(t, from, events) && n <= |events| && k in After(t, from, events, n).db
    requires NeverIdle(t, from, events, n, k)
    ensures After(t, from, events, n).db[k].courtesy <==> exists j: nat :: Inherited(t, from, events, j, n, k)
  {
    CourtesyIff(t, from, events, n, k);
    if j: nat :| MarkHolds(t, from, events, j, n, k) {
      MarkOrigin(t, from, events, j, n, k);
      assert Inherited(t, from, events, j, n, k);
    }
    if j: nat :| Inherited(t, from, events, j, n, k) {
      InheritedHolds(t, from, events, j, n, k);
    }
  }

  lemma InheritedHolds(t: Table, from: real, events: seq<Event>, j: nat, n: nat, k: Token)
    requires Run(t, from, events) && n <= |events| && Inherited(t, from, events, j, n, k)
    ensures MarkHolds(t, from, events, j, n, k)
  {
    var db := After(t, from, events, j).db;
    var c :| c in db && c != k && db[c].clientid == db[k].clientid && Lapses(db[c], events[j].at);
    assert c in ByClientid(db, db[k].clientid);
  }

  // ------------------------------------------------------------ lease progress

  predicate Gone(t: Table, clientid: nat)
  {
    clientid <= t.last && ByClientid(t.db, clientid) == {}
  }

  /** The client's confirmed record `k`, marked and last renewed at `renewed`. */
  predicate Marked(t: Table, clientid: nat, k: Token, renewed: real)
  {
    k in t.db && t.db[k].clientid == clientid && t.db[k].confirmed && t.db[k].courtesy && t.db[k].renewed == renewed
  }

  predicate Touches(e: Event, clientid: nat)
  {
    (e.DoConfirm? || e.DoRenew?) && e.clientid == clientid
  }

  lemma GoneStays(t: Table, e: Event, clientid: nat)
    requires Valid(t) && Enabled(t, e) && Gone(t, clientid)
    ensures Gone(Step(t, e), clientid)
  {
    var r := Step(t, e);
    if e.DoRenew? {
      RenewStepIs(t, e, []);
    }
    forall k | k in r.db ensures r.db[k].clientid != clientid {
      if e.DoRenew? {
        RenewStepIs(t, e, k);
      }
      if k in t.db {
        assert k !in ByClientid(t.db, clientid);
      } else if j :| j in ById(t.db, e.id) {
        ClientidShared(t, e.id, j);
        assert j !in ByClientid(t.db, clientid);
      } else {
        assert ById(t.db, e.id) == {};
      }
    }
  }

  lemma MarkedStays(t: Table, e: Event, clientid: nat, k: Token, renewed: real)
    requires Valid(t) && Enabled(t, e) && !Touches(e, clientid) && Marked(t, clientid, k, renewed)
    ensures Marked(Step(t, e), clientid, k, renewed) || Gone(Step(t, e), clientid)
  {
    if e.DoRenew? {
      RenewStepIs(t, e, k);
    }
    if k !in Step(t, e).db {
      forall j | j in Step(t, e).db ensures Step(t, e).db[j].clientid != clientid {
      }
    }
  }

  lemma {:induction false} StaysUntil(t: Table, from: real, events: seq<Event>, clientid: nat, k: Token, renewed: real)
    requires Valid(t) && Run(t, from, events) && forall i :: 0 <= i < |events| ==> !Touches(events[i], clientid)
    requires Marked(t, clientid, k, renewed) || Gone(t, clientid)
    ensures var r := After(t, from, events, |events|);
            Marked(r, clientid, k, renewed) || Gone(r, clientid)
    decreases |events|
  {
    if events != [] {
      StepKeeps(t, events[0]);
      if Gone(t, clientid) {
        GoneStays(t, events[0], clientid);
      } else {
        MarkedStays(t, events[0], clientid, k, renewed);
      }
      StaysUntil(Step(t, events[0]), Done(events[0]), events[1..], clientid, k, renewed);
    }
  }

  lemma SweepMarks(t: Table, now: real, k: Token)
    requires Valid(t) && k in t.db && t.db[k].confirmed && Idle(t.db[k], now) >= LEASE_TIME
    ensures Marked(Sweep(t, now), t.db[k].clientid, k, t.db[k].renewed) || Gone(Sweep(t, now), t.db[k].clientid)
  {
    if t.db[k].clientid in Expiring(t.db, now) {
    } else if !t.db[k].courtesy {
      assert t.db[k].clientid in Lapsing(t.db, now);
    }
  }

  lemma SweepPurges(t: Table, now: real, clientid: nat, k: Token, renewed: real)
    requires Valid(t) && Marked(t, clientid, k, renewed) && (now - renewed).Floor >= 2 * LEASE_TIME
    ensures Gone(Sweep(t, now), clientid)
  {
    assert clientid in Expiring(t.db, now);
  }

  /**
    Progress: a confirmed client idle for a lease time at one sweep and for two
    at a later one is gone after it, whatever else happens in between, unless
    it is renewed or confirmed.  Registering again does not save the record.
   */
  lemma IdleClientIsPurged(t: Table, first: real, between: seq<Event>, second: real, k: Token)
    requires Valid(t) && k in t.db && t.db[k].confirmed && Idle(t.db[k], first) >= LEASE_TIME
    requires Run(Sweep(t, first), first, between)
    requires forall i :: 0 <= i < |between| ==> !Touches(between[i], t.db[k].clientid)
    requires (second - t.db[k].renewed).Floor >= 2 * LEASE_TIME
    ensures Gone(Sweep(After(Sweep(t, first), first, between, |between|), second), t.db[k].clientid)
  {
    var clientid, renewed := t.db[k].clientid, t.db[k].renewed;
    SweepMarks(t, first, k);
    SweepKeeps(t, first);
    StaysUntil(Sweep(t, first), first, between, clientid, k, renewed);
    RunKeeps(Sweep(t, first), first, between, |between|);
    var late := After(Sweep(t, first), first, between, |between|);
    if Gone(late, clientid) {
      assert Enabled(late, DoSweep(second));
      GoneStays(late, DoSweep(second), clientid);
    } else {
      SweepPurges(late, second, clientid, k, renewed);
    }
  }

  // ------------------------------------------------------------ snapshots

  datatype Snapshot = Snapshot(principal: Option<string>, verifier: ByteString, id: string, clientid: nat,
                               callback: Callback, confirmed: bool)

  /** The random token and the clock reading a restored record gets. */
  datatype Draw = Draw(token: Token, at: real)

  function SnapshotOf(c: Client): Snapshot
  {
    Snapshot(c.principal, c.verifier, c.id, c.clientid, c.callback, c.confirmed)
  }

  function RestoredClient(s: Snapshot, d: Draw): Client
  {
    Client(s.principal, s.verifier, s.id, s.clientid, s.callback, d.token, true, d.at, false)
  }

  function RestoreOne(t: Table, s: Snapshot, d: Draw): Table
  {
    if !s.confirmed then t
    else Table(t.db[d.token := RestoredClient(s, d)], if s.clientid >= t.last then s.clientid + 1 else t.last)
  }

  function Restore(t: Table, snaps: seq<Snapshot>, draws: seq<Draw>): Table
    requires |snaps| == |draws|
    decreases |snaps|
  {
    if snaps == [] then t else Restore(RestoreOne(t, snaps[0], draws[0]), snaps[1..], draws[1..])
  }

  /** The drawn tokens are not in use. */
  predicate FreshDraws(t: Table, draws: seq<Draw>)
  {
    && (forall i :: 0 <= i < |draws| ==> draws[i].token !in t.db)
    && (forall i, j :: 0 <= i < j < |draws| ==> draws[i].token != draws[j].token)
  }

  /** A confirmed record for `s` may stand beside `c`. */
  predicate Beside(c: Client, s: Snapshot)
  {
    && (c.id == s.id <==> c.clientid == s.clientid)
    && (c.id == s.id ==> !c.confirmed && c.principal == s.principal)
  }

  predicate Distinct(a: Snapshot, b: Snapshot) { a.id != b.id && a.clientid != b.clientid }

  predicate Compatible(t: Table, snaps: seq<Snapshot>)
  {
    && (forall i, k :: 0 <= i < |snaps| && snaps[i].confirmed && k in t.db ==> Beside(t.db[k], snaps[i]))
    && (forall i, j :: 0 <= i < j < |snaps| && snaps[i].confirmed && snaps[j].confirmed ==>
        Distinct(snaps[i], snaps[j]))
  }

  lemma RestoreOneKeepsIff(t: Table, s: Snapshot, d: Draw)
    requires Valid(t) && d.token !in t.db
    ensures Valid(RestoreOne(t, s, d)) <==> (s.confirmed ==> forall k :: k in t.db ==> Beside(t.db[k], s))
  {
    if s.confirmed {
      var r, c := RestoreOne(t, s, d), RestoredClient(s, d);
      if Valid(r) {
        forall k | k in t.db ensures Beside(t.db[k], s) {
          assert r.db[k] == t.db[k] && r.db[d.token] == c;
          assert Consistent(r.db[k], r.db[d.token]);
        }
      }
      if forall k :: k in t.db ==> Beside(t.db[k], s) {
        forall j, k | j in r.db && k in r.db ensures Consistent(r.db[j], r.db[k]) {
          if j != d.token { assert r.db[j] == t.db[j]; }
          if k != d.token { assert r.db[k] == t.db[k]; }
        }
      }
    }
  }

  /** Restoring adds records and changes none. */
  lemma {:induction false} RestoreAdds(t: Table, snaps: seq<Snapshot>, draws: seq<Draw>, k: Token)
    requires |snaps| == |draws| && FreshDraws(t, draws) && k in t.db
    ensures k in Restore(t, snaps, draws).db && Restore(t, snaps, draws).db[k] == t.db[k]
    decreases |snaps|
  {
    if snaps != [] {
      RestoreAdds(RestoreOne(t, snaps[0], draws[0]), snaps[1..], draws[1..], k);
    }
  }

  lemma RestoreKeepsFault(t: Table, snaps: seq<Snapshot>, draws: seq<Draw>)
    requires |snaps| == |draws| && FreshDraws(t, draws)
    requires forall k :: k in t.db ==> t.db[k].token == k && t.db[k].clientid <= t.last
    requires Valid(Restore(t, snaps, draws))
    ensures Valid(t)
  {
    var r := Restore(t, snaps, draws);
    forall j, k | j in t.db && k in t.db ensures Consistent(t.db[j], t.db[k]) {
      RestoreAdds(t, snaps, draws, j);
      RestoreAdds(t, snaps, draws, k);
      assert Consistent(r.db[j], r.db[k]);
    }
  }

  lemma CompatibleStep(t: Table, snaps: seq<Snapshot>, d: Draw)
    requires snaps != [] && d.token !in t.db
    ensures Compatible(t, snaps) <==>
            && (snaps[0].confirmed ==> forall k :: k in t.db ==> Beside(t.db[k], snaps[0]))
            && Compatible(RestoreOne(t, snaps[0], d), snaps[1..])
  {
    var r, rest := RestoreOne(t, snaps[0], d), snaps[1..];
    forall i | 0 <= i < |rest| ensures rest[i] == snaps[i + 1] {
    }
    if Compatible(t, snaps) {
      forall i, k | 0 <= i < |rest| && rest[i].confirmed && k in r.db ensures Beside(r.db[k], rest[i]) {
        if snaps[0].confirmed { assert Distinct(snaps[0], snaps[i + 1]); }
        if k in t.db { assert Beside(t.db[k], snaps[i + 1]); }
      }
    }
    if Compatible(r, rest) && (snaps[0].confirmed ==> forall k :: k in t.db ==> Beside(t.db[k], snaps[0])) {
      forall i, k | 0 <= i < |snaps| && snaps[i].confirmed && k in t.db ensures Beside(t.db[k], snaps[i]) {
        if i > 0 {
          assert rest[i - 1] == snaps[i] && r.db[k] == t.db[k];
          assert Beside(r.db[k], rest[i - 1]);
        }
      }
      forall i, j | 0 <= i < j < |snaps| && snaps[i].confirmed && snaps[j].confirmed
        ensures Distinct(snaps[i], snaps[j])
      {
        assert rest[j - 1] == snaps[j];
        if i > 0 {
          assert rest[i - 1] == snaps[i];
        } else {
          assert r.db[d.token] == RestoredClient(snaps[0], d);
          assert Beside(r.db[d.token], rest[j - 1]);
        }
      }
    }
  }

  /** Restoring a snapshot keeps the invariant exactly when the snapshot fits the table. */
  lemma {:induction false} RestoreKeepsIff(t: Table, snaps: seq<Snapshot>, draws: seq<Draw>)
    requires Valid(t) && |snaps| == |draws| && FreshDraws(t, draws)
    ensures Valid(Restore(t, snaps, draws)) <==> Compatible(t, snaps)
    decreases |snaps|
  {
    if snaps != [] {
      var r := RestoreOne(t, snaps[0], draws[0]);
      RestoreOneKeepsIff(t, snaps[0], draws[0]);
      CompatibleStep(t, snaps, draws[0]);
      if Valid(r) {
        RestoreKeepsIff(r, snaps[1..], draws[1..]);
      } else if Valid(Restore(r, snaps[1..], draws[1..])) {
        RestoreKeepsFault(r, snaps[1..], draws[1..]);
      }
    }
  }

  /** The snapshot lists the confirmed records, in any order. */
  ghost predicate Lists(t: Table, order: seq<Token>, snaps: seq<Snapshot>)
  {
    && |order| == |snaps|
    && (forall i, j :: 0 <= i < j < |order| ==> order[i] != order[j])
    && (forall k :: k in order <==> k in t.db && t.db[k].confirmed)
    && (forall i :: 0 <= i < |order| ==> order[i] in t.db && snaps[i] == SnapshotOf(t.db[order[i]]))
  }

  /**
    A server started on the snapshot of a valid table starts from a valid, ordered
    table with no courtesy clients and no stamp in the future: every theorem
    about runs applies to it.
   */
  lemma SnapshotRestores(t: Table, order: seq<Token>, snaps: seq<Snapshot>, draws: seq<Draw>, now: real)
    requires Valid(t) && Lists(t, order, snaps) && |snaps| == |draws| && FreshDraws(Table(map[], 0), draws)
    requires forall i :: 0 <= i < |draws| ==> draws[i].at <= now
    ensures var r := Restore(Table(map[], 0), snaps, draws);
            && Valid(r) && Ordered(r) && NoFuture(r, now)
            && forall k :: k in r.db ==> !r.db[k].courtesy && r.db[k].confirmed
  {
    var empty := Table(map[], 0);
    RestoredIsValid(t, order, snaps, draws);
    RestoredAreConfirmed(empty, snaps, draws);
    RestoredNoFuture(empty, snaps, draws, now);
  }

  lemma {:induction false} RestoredNoFuture(t: Table, snaps: seq<Snapshot>, draws: seq<Draw>, now: real)
    requires |snaps| == |draws| && NoFuture(t, now) && forall i :: 0 <= i < |draws| ==> draws[i].at <= now
    ensures NoFuture(Restore(t, snaps, draws), now)
    decreases |snaps|
  {
    if snaps != [] {
      RestoredNoFuture(RestoreOne(t, snaps[0], draws[0]), snaps[1..], draws[1..], now);
    }
  }

  lemma {:induction false} RestoredAreConfirmed(t: Table, snaps: seq<Snapshot>, draws: seq<Draw>)
    requires |snaps| == |draws| && forall k :: k in t.db ==> !t.db[k].courtesy && t.db[k].confirmed
    ensures forall k :: k in Restore(t, snaps, draws).db ==>
              !Restore(t, snaps, draws).db[k].courtesy && Restore(t, snaps, draws).db[k].confirmed
    decreases |snaps|
  {
    if snaps != [] {
      RestoredAreConfirmed(RestoreOne(t, snaps[0], draws[0]), snaps[1..], draws[1..]);
    }
  }

  /** Every confirmed client of the snapshot is back, with its id, client id, principal and callback. */
  lemma {:induction false} RestoreIsComplete(t: Table, snaps: seq<Snapshot>, draws: seq<Draw>, i: nat)
    requires |snaps| == |draws| && FreshDraws(t, draws) && i < |snaps| && snaps[i].confirmed
    ensures draws[i].token in Restore(t, snaps, draws).db
    ensures SnapshotOf(Restore(t, snaps, draws).db[draws[i].token]) == snaps[i]
    ensures var c := Restore(t, snaps, draws).db[draws[i].token];
            c.token == draws[i].token && c.renewed == draws[i].at && !c.courtesy
    decreases |snaps|
  {
    var r := RestoreOne(t, snaps[0], draws[0]);
    if i == 0 {
      RestoreAdds(r, snaps[1..], draws[1..], draws[0].token);
    } else {
      RestoreIsComplete(r, snaps[1..], draws[1..], i - 1);
    }
  }

  /** Nothing else is there: what was in the table, as it was, and the confirmed clients of the snapshot. */
  lemma {:induction false} RestoreAddsOnly(t: Table, snaps: seq<Snapshot>, draws: seq<Draw>, k: Token)
    requires |snaps| == |draws| && FreshDraws(t, draws) && k in Restore(t, snaps, draws).db
    ensures (k in t.db && Restore(t, snaps, draws).db[k] == t.db[k])
         || exists i :: 0 <= i < |snaps| && snaps[i].confirmed && draws[i].token == k
    decreases |snaps|
  {
    if snaps != [] {
      var r := RestoreOne(t, snaps[0], draws[0]);
      RestoreAddsOnly(r, snaps[1..], draws[1..], k);
      if !(k in r.db && Restore(r, snaps[1..], draws[1..]).db[k] == r.db[k]) {
        var i :| 0 <= i < |snaps[1..]| && snaps[1..][i].confirmed && draws[1..][i].token == k;
        assert snaps[i + 1].confirmed && draws[i + 1].token == k;
      } else if snaps[0].confirmed && k == draws[0].token {
        assert snaps[0].confirmed && draws[0].token == k;
      }
    }
  }

  // ------------------------------------------------------------ client ids across a restart

  /** The counter ends one above the largest restored client id, or where it was. */
  lemma {:induction false} RestoredLast(t: Table, snaps: seq<Snapshot>, draws: seq<Draw>)
    requires |snaps| == |draws|
    ensures var last := Restore(t, snaps, draws).last;
            && last >= t.last
            && (forall i :: 0 <= i < |snaps| && snaps[i].confirmed ==> snaps[i].clientid < last)
            && (last == t.last || exists i :: 0 <= i < |snaps| && snaps[i].confirmed && snaps[i].clientid + 1 == last)
    decreases |snaps|
  {
    if snaps != [] {
      var r := RestoreOne(t, snaps[0], draws[0]);
      RestoredLast(r, snaps[1..], draws[1..]);
      var last := Restore(t, snaps, draws).last;
      forall i | 0 <= i < |snaps| && snaps[i].confirmed ensures snaps[i].clientid < last {
        if i > 0 {
          assert snaps[1..][i - 1] == snaps[i];
        }
      }
      if last != r.last {
        var i :| 0 <= i < |snaps[1..]| && snaps[1..][i].confirmed && snaps[1..][i].clientid + 1 == last;
        assert snaps[i + 1] == snaps[1..][i];
      }
    }
  }

  lemma {:induction false} LongerThanAll<T>(s: set<seq<T>>) returns (n: nat)
    ensures forall x :: x in s ==> |x| < n
  {
    n := 0;
    if s != {} {
      var x :| x in s;
      n := LongerThanAll(s - {x});
      n := if |x| < n then n else |x| + 1;
    }
  }

  /** There is always an id string without records and a token not in use. */
  lemma NewcomerExists(t: Table) returns (id: string, token: Token)
    ensures ById(t.db, id) == {} && token !in t.db
  {
    var n := LongerThanAll(t.db.Keys);
    token := Zeros(n);
    var m := LongerThanAll(set k | k in t.db :: t.db[k].id);
    id := seq(m, _ => 'x');
    forall k | k in t.db ensures t.db[k].id != id {
      assert t.db[k].id in set x | x in t.db :: t.db[x].id;
    }
  }

  /** The run ends with a record that has this client id. */
  ghost predicate HandsOut(t: Table, from: real, events: seq<Event>, clientid: nat)
  {
    Run(t, from, events) && ByClientid(After(t, from, events, |events|).db, clientid) != {}
  }

  lemma RegistersNext(t: Table, id: string, token: Token, from: real) returns (e: Event)
    requires ById(t.db, id) == {} && token !in t.db
    ensures e.at == from && Done(e) == from && Enabled(t, e)
    ensures Step(t, e).last == t.last + 1 && token in ByClientid(Step(t, e).db, t.last + 1)
  {
    e := DoUpsert(from, [], id, Callback(0, "", "", 0), None, token);
    assert !InUse(t, id, None);
  }

  lemma {:induction false} CanHandOut(t: Table, from: real, clientid: nat)
    requires Valid(t) && clientid > t.last
    ensures exists events :: HandsOut(t, from, events, clientid)
    decreases clientid - t.last
  {
    var id, token := NewcomerExists(t);
    var e := RegistersNext(t, id, token, from);
    StepKeeps(t, e);
    if clientid == t.last + 1 {
      RunCons(t, from, e, []);
      assert HandsOut(t, from, [e] + [], clientid);
    } else {
      CanHandOut(Step(t, e), from, clientid);
      var rest :| HandsOut(Step(t, e), from, rest, clientid);
      RunCons(t, from, e, rest);
      assert HandsOut(t, from, [e] + rest, clientid);
    }
  }

  lemma {:induction false} NeverHandedOut(t: Table, from: real, events: seq<Event>, n: nat, clientid: nat)
    requires Valid(t) && Gone(t, clientid) && Run(t, from, events) && n <= |events|
    ensures Gone(After(t, from, events, n), clientid)
    decreases n
  {
    if n > 0 {
      GoneStays(t, events[0], clientid);
      StepKeeps(t, events[0]);
      NeverHandedOut(Step(t, events[0]), Done(events[0]), events[1..], n - 1, clientid);
    }
  }

  /**
    Across a restart: a client id that no restored client holds can be handed out
    again exactly when it lies more than one above every restored client id.
   */
  lemma ReissuedAfterRestartIff(t: Table, order: seq<Token>, snaps: seq<Snapshot>, draws: seq<Draw>, from: real,
                                clientid: nat)
    requires Valid(t) && Lists(t, order, snaps) && |snaps| == |draws| && FreshDraws(Table(map[], 0), draws)
    requires clientid > 0 && forall i :: 0 <= i < |snaps| ==> snaps[i].clientid != clientid
    ensures (exists events :: HandsOut(Restore(Table(map[], 0), snaps, draws), from, events, clientid)) <==>
            forall i :: 0 <= i < |snaps| ==> snaps[i].clientid + 1 < clientid
  {
    var r := Restore(Table(map[], 0), snaps, draws);
    RestoredIsValid(t, order, snaps, draws);
    RestoredLast(Table(map[], 0), snaps, draws);
    forall i | 0 <= i < |snaps| ensures snaps[i].confirmed {
      assert order[i] in order;
    }
    assert clientid > r.last <==> forall i :: 0 <= i < |snaps| ==> snaps[i].clientid + 1 < clientid;
    if clientid > r.last {
      CanHandOut(r, from, clientid);
    } else {
      RestoredHasOnly(Table(map[], 0), snaps, draws, clientid);
      if events :| HandsOut(r, from, events, clientid) {
        NeverHandedOut(r, from, events, |events|, clientid);
      }
    }
  }

  lemma RestoredIsValid(t: Table, order: seq<Token>, snaps: seq<Snapshot>, draws: seq<Draw>)
    requires Valid(t) && Lists(t, order, snaps) && |snaps| == |draws| && FreshDraws(Table(map[], 0), draws)
    ensures Valid(Restore(Table(map[], 0), snaps, draws))
  {
    forall i, j | 0 <= i < j < |snaps| ensures Distinct(snaps[i], snaps[j]) {
      assert order[i] in order && order[j] in order;
      assert Consistent(t.db[order[i]], t.db[order[j]]);
    }
    RestoreKeepsIff(Table(map[], 0), snaps, draws);
  }

  lemma {:induction false} RestoredHasOnly(t: Table, snaps: seq<Snapshot>, draws: seq<Draw>, clientid: nat)
    requires |snaps| == |draws| && ByClientid(t.db, clientid) == {}
    requires forall i :: 0 <= i < |snaps| ==> snaps[i].clientid != clientid
    ensures ByClientid(Restore(t, snaps, draws).db, clientid) == {}
    decreases |snaps|
  {
    if snaps != [] {
      var r := RestoreOne(t, snaps[0], draws[0]);
      forall k | k in r.db ensures r.db[k].clientid != clientid {
        assert k in t.db ==> k !in ByClientid(t.db, clientid);
      }
      RestoredHasOnly(r, snaps[1..], draws[1..], clientid);
    }
  }
}
