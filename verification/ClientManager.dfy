/**
  The object that owns the client records.  Its methods remove, change and
  put back records one at a time, in whatever order the index yields them;
  each is proved to do what the table functions say.
 */
module ClientManager {
  import opened Wrappers
  import opened Bytes
  import opened ClientTable

  class Manager {
    var db: Db
    var last: nat

    ghost predicate Ok()
      reads this
    {
      Valid(AsTable())
    }

    function AsTable(): Table
      reads this
    {
      Table(db, last)
    }

    constructor ()
      ensures Ok() && AsTable() == Table(map[], 0)
    {
      db, last := map[], 0;
    }

    method NextClientid() returns (clientid: nat)
      modifies this`last
      ensures clientid == last == old(last) + 1
    {
      last := last + 1;
      clientid := last;
    }

    /** A record is changed by taking it out and putting the changed one back. */
    method PutBack(k: Token, e: Client)
      requires k in db
      modifies this`db
      ensures db == old(db)[k := e]
    {
      db := Without(db, {k});
      db := db[k := e];
    }

    /** `upsert_client` with `add_client_record`; `token` is the random confirmation token. */
    method UpsertClient(verifier: ByteString, id: string, callback: Callback, principal: Option<string>,
                        token: Token, now: real) returns (answer: Result<Client, Error>)
      requires Ok() && token !in db
      modifies this
      ensures Ok()
      ensures AsTable() == Upsert(old(AsTable()), verifier, id, callback, principal, token, now)
      ensures answer == if InUse(old(AsTable()), id, principal) then Err(ClidInuse)
                        else Result.Ok(NewClient(old(AsTable()), verifier, id, callback, principal, token, now))
      ensures answer.Err? <==> exists k :: k in old(db) && old(db)[k].id == id && old(db)[k].confirmed
                                 && old(db)[k].principal != principal
      ensures answer.Ok? ==> token in db && answer.value == db[token]
    {
      ghost var before := AsTable();
      var inUse, toRemove, existing := ScanForUpsert(AsTable(), id, principal);
      if inUse {
        return Err(ClidInuse);
      }
      db := Without(db, toRemove);
      var clientid;
      match existing {
        case None => clientid := NextClientid();
        case Some(c) => clientid := c;
      }
      var client := Client(principal, verifier, id, clientid, callback, token, false, now, false);
      db := db[token := client];
      UpsertKeeps(before, client);
      answer := Result.Ok(client);
    }

    /** `confirm_client` */
    method ConfirmClient(clientid: nat, token: Token, principal: Option<string>) returns (answer: Result<Client, Error>)
      requires Ok()
      modifies this`db
      ensures Ok()
      ensures (AsTable(), answer) == Confirm(old(AsTable()), clientid, token, principal)
    {
      ConfirmKeeps(AsTable(), clientid, token, principal);
      if ByClientid(db, clientid) == {} {
        return Err(StaleClientid);
      }
      var differs, superseded, found := ScanForConfirm(AsTable(), clientid, token, principal);
      if differs {
        return Err(ClidInuse);
      }
      ghost var kept := Without(db, Superseded(db, clientid, token));
      if superseded.Some? {
        db := Without(db, {superseded.value});
      } else {
        WithoutNone(db);
      }
      assert db == kept;
      if !found {
        return Err(StaleClientid);
      }
      var entry := db[token].(confirmed := true);
      PutBack(token, entry);
      return Result.Ok(entry);
    }

    /**
      `renew_leases`; `order` is how the index yields the client's records, `readings`
      what the clock shows for each.
     */
    method RenewLeases(clientid: nat, now: real, order: seq<Token>, readings: seq<real>)
      returns (failure: Option<Error>)
      requires Ok() && Listing(ByClientid(db, clientid), order) && |readings| == |order| && Rising(now, readings)
      modifies this`db
      ensures Ok()
      ensures (AsTable(), failure) == Renew(old(AsTable()), clientid, now, order, readings)
      ensures Ordered(old(AsTable())) && ConfirmedFirst(old(AsTable()), order) ==> Ordered(AsTable())
      ensures failure == Some(Expired) <==> OutOfCourtesy(old(db), clientid, now)
      ensures failure == Some(StaleClientid) <==> forall k :: k in old(db) ==> old(db)[k].clientid != clientid
    {
      RenewAnswers(AsTable(), clientid, now, order, readings);
      RenewKeeps(AsTable(), clientid, now, order, readings);
      if Ordered(AsTable()) && ConfirmedFirst(AsTable(), order) {
        ConfirmedFirstOrders(AsTable(), clientid, order, readings, now);
      }
      if ByClientid(db, clientid) == {} {
        return Some(StaleClientid);
      }
      var past := ScanForRenewal(AsTable(), clientid, now);
      if past {
        return Some(Expired);
      }
      Restamp(order, readings);
      return None;
    }

    /** The renewal's second loop: takes each record out and puts it back with the clock's next reading. */
    method Restamp(order: seq<Token>, readings: seq<real>)
      requires |order| == |readings|
      modifies this`db
      ensures db == RenewedDb(old(db), order, readings)
    {
      for i := 0 to |order|
        invariant db == RenewedDb(old(db), order[..i], readings[..i])
      {
        assert order[..i + 1][..i] == order[..i] && readings[..i + 1][..i] == readings[..i];
        if order[i] in db {
          PutBack(order[i], db[order[i]].(renewed := readings[i], courtesy := false));
        }
      }
      assert order[..|order|] == order && readings[..|readings|] == readings;
    }

    /** `sweep_leases`: lists the clients it purged, each once. */
    method SweepLeases(now: real) returns (expired: seq<nat>)
      requires Ok()
      modifies this`db
      ensures Ok()
      ensures AsTable() == Sweep(old(AsTable()), now)
      ensures Once(expired) && forall c :: c in expired <==> c in Expiring(old(db), now)
    {
      SweepKeeps(AsTable(), now);
      var lapsed;
      lapsed, expired := ScanLeases(AsTable(), now);
      SweepIsMarkAndPurge(AsTable(), now);
      assert Members(lapsed) == Lapsing(db, now) && Members(expired) == Expiring(db, now);
      MarkAll(lapsed);
      PurgeAll(expired);
    }

    /** The sweep's second loop. */
    method MarkAll(lapsed: seq<nat>)
      modifies this`db
      ensures db == MarkedDb(old(db), Members(lapsed))
    {
      for i := 0 to |lapsed|
        invariant db == MarkedDb(old(db), Members(lapsed[..i]))
      {
        MembersGrow(lapsed, i);
        Mark(lapsed[i]);
      }
      assert lapsed[..|lapsed|] == lapsed;
    }

    /** The sweep's third loop. */
    method PurgeAll(expired: seq<nat>)
      modifies this`db
      ensures db == PurgedDb(old(db), Members(expired))
    {
      for i := 0 to |expired|
        invariant db == PurgedDb(old(db), Members(expired[..i]))
      {
        MembersGrow(expired, i);
        db := Without(db, ByClientid(db, expired[i]));
      }
      assert expired[..|expired|] == expired;
    }

    /** The sweep's inner loop: marks every record of one client. */
    method Mark(clientid: nat)
      modifies this`db
      ensures db == MarkedDb(old(db), {clientid})
    {
      var entries := ByClientid(db, clientid);
      while entries != {}
        invariant entries <= ByClientid(old(db), clientid)
        invariant db == map k | k in old(db) ::
                    if old(db)[k].clientid == clientid && k !in entries then old(db)[k].(courtesy := true)
                    else old(db)[k]
        decreases |entries|
      {
        var k :| k in entries;
        PutBack(k, db[k].(courtesy := true));
        entries := entries - {k};
      }
    }

    /** `is_courtesy_client`: asks the records one after the other, up to the first marked one. */
    method IsCourtesyClient(clientid: nat) returns (courtesy: bool)
      ensures courtesy <==> exists k :: k in ByClientid(db, clientid) && db[k].courtesy
    {
      var entries := ByClientid(db, clientid);
      while entries != {}
        invariant entries <= ByClientid(db, clientid)
        invariant forall k :: k in ByClientid(db, clientid) - entries ==> !db[k].courtesy
        decreases |entries|
      {
        var k :| k in entries;
        if db[k].courtesy {
          return true;
        }
        entries := entries - {k};
      }
      return false;
    }

    /** `revoke_courtesy_client` */
    method RevokeCourtesyClient(clientid: nat)
      requires Ok()
      modifies this`db
      ensures Ok()
      ensures AsTable() == Revoke(old(AsTable()), clientid)
    {
      db := Without(db, ByClientid(db, clientid));
    }

    /** `restore_clients` */
    method RestoreClients(snaps: seq<Snapshot>, draws: seq<Draw>) returns (count: nat)
      requires Ok() && |snaps| == |draws| && FreshDraws(AsTable(), draws)
      modifies this
      ensures AsTable() == Restore(old(AsTable()), snaps, draws)
      ensures Ok() <==> Compatible(old(AsTable()), snaps)
      ensures count == |ConfirmedOf(snaps)|
    {
      RestoreKeepsIff(AsTable(), snaps, draws);
      count := 0;
      for i := 0 to |snaps|
        invariant Restore(AsTable(), snaps[i..], draws[i..]) == Restore(old(AsTable()), snaps, draws)
        invariant count == |ConfirmedOf(snaps[..i])|
      {
        assert snaps[i..][0] == snaps[i] && snaps[i..][1..] == snaps[i + 1..];
        assert draws[i..][0] == draws[i] && draws[i..][1..] == draws[i + 1..];
        assert snaps[..i + 1][..i] == snaps[..i];
        if snaps[i].confirmed {
          var entry := RestoredClient(snaps[i], draws[i]);
          if snaps[i].clientid >= last {
            last := snaps[i].clientid + 1;
          }
          db := db[entry.token := entry];
          count := count + 1;
        }
      }
      assert snaps[..|snaps|] == snaps;
    }
  }

  // ------------------------------------------------------------ loops that only read

  /** The loop of `upsert_client` over the records of one id string. */
  method ScanForUpsert(t: Table, id: string, principal: Option<string>)
    returns (inUse: bool, toRemove: set<Token>, existing: Option<nat>)
    requires Valid(t)
    ensures inUse <==> InUse(t, id, principal)
    ensures !inUse ==> toRemove == Unconfirmed(t.db, id)
    ensures !inUse ==> existing == if ById(t.db, id) == {} then None else Some(ClientidFor(t, id))
  {
    var all := ById(t.db, id);
    var entries := all;
    inUse, toRemove, existing := false, {}, None;
    while entries != {}
      invariant entries <= all
      invariant forall k :: k in all && k !in entries ==> !(t.db[k].confirmed && t.db[k].principal != principal)
      invariant forall k :: k in toRemove <==> k in all && k !in entries && !t.db[k].confirmed
      invariant existing == if entries == all then None else Some(ClientidFor(t, id))
      decreases |entries|
    {
      var k :| k in entries;
      if t.db[k].confirmed && t.db[k].principal != principal {
        inUse := true;
        return;
      }
      if !t.db[k].confirmed {
        toRemove := toRemove + {k};
      }
      ClientidShared(t, id, k);
      existing := Some(t.db[k].clientid);
      entries := entries - {k};
    }
    assert toRemove == Unconfirmed(t.db, id);
  }

  /** The loop of `confirm_client` over the records of one client id. */
  method ScanForConfirm(t: Table, clientid: nat, token: Token, principal: Option<string>)
    returns (differs: bool, superseded: Option<Token>, found: bool)
    requires Valid(t)
    ensures differs <==> PrincipalDiffers(t, clientid, principal)
    ensures !differs ==> Superseded(t.db, clientid, token) == if superseded.None? then {} else {superseded.value}
    ensures !differs ==> (found <==> token in ByClientid(t.db, clientid))
  {
    var all := ByClientid(t.db, clientid);
    var entries := all;
    differs, superseded, found := false, None, false;
    while entries != {}
      invariant entries <= all
      invariant forall k :: k in all && k !in entries ==> t.db[k].principal == principal
      invariant superseded.Some? ==>
                  superseded.value in all - entries && superseded.value in Superseded(t.db, clientid, token)
      invariant superseded.None? ==> forall k :: k in all && k !in entries ==> !(t.db[k].confirmed && k != token)
      invariant found <==> token in all - entries
      decreases |entries|
    {
      var k :| k in entries;
      if t.db[k].principal != principal {
        differs := true;
        return;
      }
      if t.db[k].confirmed && k != token {
        superseded := Some(k);
      }
      if k == token {
        found := true;
      }
      entries := entries - {k};
    }
    if superseded.Some? {
      forall k | k in Superseded(t.db, clientid, token) ensures k == superseded.value {
        assert Consistent(t.db[k], t.db[superseded.value]);
      }
    } else {
      forall k | k in t.db ensures k !in Superseded(t.db, clientid, token) {
        assert k in all || k !in all;
      }
    }
  }

  /** The first loop of `renew_leases`. */
  method ScanForRenewal(t: Table, clientid: nat, now: real) returns (past: bool)
    ensures past <==> PastRenewal(t, clientid, now)
    ensures past <==> exists k :: k in ByClientid(t.db, clientid) && t.db[k].confirmed && t.db[k].courtesy
                        && (now - t.db[k].renewed).Floor > 180
  {
    var all := ByClientid(t.db, clientid);
    var entries := all;
    while entries != {}
      invariant entries <= all
      invariant forall k :: k in all && k !in entries ==>
                  !(t.db[k].confirmed && t.db[k].courtesy && Idle(t.db[k], now) > 2 * LEASE_TIME)
      decreases |entries|
    {
      var k :| k in entries;
      if t.db[k].confirmed && t.db[k].courtesy && Idle(t.db[k], now) > 2 * LEASE_TIME {
        return true;
      }
      entries := entries - {k};
    }
    return false;
  }

  predicate Once(s: seq<nat>) { forall i, j :: 0 <= i < j < |s| ==> s[i] != s[j] }

  function Members(s: seq<nat>): set<nat> { set i | 0 <= i < |s| :: s[i] }

  lemma MembersGrow(s: seq<nat>, i: nat)
    requires i < |s|
    ensures Members(s[..i + 1]) == Members(s[..i]) + {s[i]}
  {
    var more, less := s[..i + 1], s[..i];
    forall x ensures x in Members(more) <==> x in Members(less) || x == s[i] {
      if x in Members(less) {
        var j :| 0 <= j < |less| && less[j] == x;
        assert more[j] == x;
      }
      if x in Members(more) {
        var j :| 0 <= j < |more| && more[j] == x;
        assert j < i ==> less[j] == x;
      }
      if x == s[i] {
        assert more[i] == x;
      }
    }
  }

  /** No client has two confirmed records: one already collected is not met again. */
  lemma MetOnce(t: Table, j: Token, k: Token)
    requires Valid(t) && j in t.db && k in t.db && j != k && t.db[j].confirmed && t.db[k].confirmed
    ensures t.db[j].clientid != t.db[k].clientid
  {
    assert Consistent(t.db[j], t.db[k]);
  }

  /** A record already met that passes the test. */
  predicate Passes(t: Table, met: set<Token>, test: Client -> bool, k: Token)
  {
    k in met && k in t.db && test(t.db[k])
  }

  ghost predicate FoundBy(t: Table, met: set<Token>, test: Client -> bool, clientid: nat)
  {
    exists k :: Passes(t, met, test, k) && t.db[k].clientid == clientid
  }

  /** Collected so far: the clients of the records met that pass the test, each once. */
  ghost predicate Collected(t: Table, met: set<Token>, test: Client -> bool, found: seq<nat>)
  {
    && Once(found)
    && (forall i :: 0 <= i < |found| ==> FoundBy(t, met, test, found[i]))
    && (forall k :: Passes(t, met, test, k) ==> t.db[k].clientid in found)
  }

  ghost predicate OnlyConfirmed(test: Client -> bool) { forall c :: test(c) ==> c.confirmed }

  lemma CollectOne(t: Table, met: set<Token>, test: Client -> bool, found: seq<nat>, k: Token)
    requires Valid(t) && Collected(t, met, test, found) && k in t.db && k !in met && OnlyConfirmed(test)
    ensures Collected(t, met + {k}, test, if test(t.db[k]) then found + [t.db[k].clientid] else found)
  {
    var more := met + {k};
    var all := if test(t.db[k]) then found + [t.db[k].clientid] else found;
    forall i | 0 <= i < |found|
      ensures FoundBy(t, more, test, found[i]) && (test(t.db[k]) ==> found[i] != t.db[k].clientid)
    {
      assert FoundBy(t, met, test, found[i]);
      var j :| Passes(t, met, test, j) && t.db[j].clientid == found[i];
      assert Passes(t, more, test, j);
      if test(t.db[k]) {
        MetOnce(t, j, k);
      }
    }
    if test(t.db[k]) {
      assert Passes(t, more, test, k);
      assert FoundBy(t, more, test, t.db[k].clientid);
    }
    forall j | Passes(t, more, test, j) ensures t.db[j].clientid in all {
      if j == k {
        assert all[|found|] == t.db[k].clientid;
      } else {
        assert Passes(t, met, test, j);
      }
    }
  }

  function LapseTest(now: real): Client -> bool { (c: Client) => Lapses(c, now) }

  function ExpiryTest(now: real): Client -> bool { (c: Client) => Expires(c, now) }

  /** What a sweep makes of one record. */
  method Classify(c: Client, now: real) returns (lapses: bool, expires: bool)
    ensures lapses == LapseTest(now)(c) && expires == ExpiryTest(now)(c) && !(lapses && expires)
  {
    lapses, expires := false, false;
    if c.confirmed {
      var elapsed := Idle(c, now);
      if elapsed >= LEASE_TIME && !c.courtesy {
        lapses := true;
      } else if c.courtesy && elapsed >= 2 * LEASE_TIME {
        expires := true;
      }
    }
  }

  /** The first loop of `sweep_leases`: whose lease has lapsed, and who is past the courtesy window. */
  method ScanLeases(t: Table, now: real) returns (lapsed: seq<nat>, expired: seq<nat>)
    requires Valid(t)
    ensures Once(lapsed) && Members(lapsed) == Lapsing(t.db, now)
    ensures Once(expired) && Members(expired) == Expiring(t.db, now)
  {
    lapsed, expired := [], [];
    var entries := t.db.Keys;
    NothingCollected(t, LapseTest(now));
    NothingCollected(t, ExpiryTest(now));
    while entries != {}
      invariant entries <= t.db.Keys && Scanned(t, entries, now, lapsed, expired)
      decreases |entries|
    {
      var k :| k in entries;
      var lapses, expires := Classify(t.db[k], now);
      ScannedOne(t, entries, now, lapsed, expired, k, lapses, expires);
      if lapses {
        lapsed := lapsed + [t.db[k].clientid];
      } else if expires {
        expired := expired + [t.db[k].clientid];
      }
      entries := entries - {k};
    }
    ScannedAll(t, now, lapsed, expired);
  }

  /** The records not in `left` have been collected. */
  ghost predicate Scanned(t: Table, left: set<Token>, now: real, lapsed: seq<nat>, expired: seq<nat>)
  {
    Collected(t, t.db.Keys - left, LapseTest(now), lapsed) && Collected(t, t.db.Keys - left, ExpiryTest(now), expired)
  }

  lemma ScannedOne(t: Table, left: set<Token>, now: real, lapsed: seq<nat>, expired: seq<nat>, k: Token,
                   lapses: bool, expires: bool)
    requires Valid(t) && Scanned(t, left, now, lapsed, expired) && k in left && k in t.db
    requires lapses == LapseTest(now)(t.db[k]) && expires == ExpiryTest(now)(t.db[k])
    ensures Scanned(t, left - {k}, now, if lapses then lapsed + [t.db[k].clientid] else lapsed,
                    if expires then expired + [t.db[k].clientid] else expired)
  {
    ScannedTest(t, left, LapseTest(now), lapsed, k, now);
    ScannedTest(t, left, ExpiryTest(now), expired, k, now);
  }

  lemma ScannedTest(t: Table, left: set<Token>, test: Client -> bool, found: seq<nat>, k: Token, now: real)
    requires Valid(t) && k in left && k in t.db && (test == LapseTest(now) || test == ExpiryTest(now))
    requires Collected(t, t.db.Keys - left, test, found)
    ensures Collected(t, t.db.Keys - (left - {k}), test, if test(t.db[k]) then found + [t.db[k].clientid] else found)
  {
    TestsConfirmed(now);
    CollectOne(t, t.db.Keys - left, test, found, k);
    assert t.db.Keys - (left - {k}) == (t.db.Keys - left) + {k};
  }

  lemma ScannedAll(t: Table, now: real, lapsed: seq<nat>, expired: seq<nat>)
    requires Scanned(t, {}, now, lapsed, expired)
    ensures Once(lapsed) && Members(lapsed) == Lapsing(t.db, now)
    ensures Once(expired) && Members(expired) == Expiring(t.db, now)
  {
    assert t.db.Keys - {} == t.db.Keys;
    LapsingCollected(t, now, lapsed);
    ExpiringCollected(t, now, expired);
  }

  lemma LapsingCollected(t: Table, now: real, found: seq<nat>)
    requires Collected(t, t.db.Keys, LapseTest(now), found)
    ensures Members(found) == Lapsing(t.db, now)
  {
    CollectedAll(t, LapseTest(now), found);
    assert Lapsing(t.db, now) == set k | k in t.db && LapseTest(now)(t.db[k]) :: t.db[k].clientid;
  }

  lemma ExpiringCollected(t: Table, now: real, found: seq<nat>)
    requires Collected(t, t.db.Keys, ExpiryTest(now), found)
    ensures Members(found) == Expiring(t.db, now)
  {
    CollectedAll(t, ExpiryTest(now), found);
    assert Expiring(t.db, now) == set k | k in t.db && ExpiryTest(now)(t.db[k]) :: t.db[k].clientid;
  }

  lemma TestsConfirmed(now: real)
    ensures OnlyConfirmed(LapseTest(now)) && OnlyConfirmed(ExpiryTest(now))
  {
  }

  lemma NothingCollected(t: Table, test: Client -> bool)
    ensures Collected(t, {}, test, [])
  {
  }

  lemma CollectedAll(t: Table, test: Client -> bool, found: seq<nat>)
    requires Collected(t, t.db.Keys, test, found)
    ensures Members(found) == set k | k in t.db && test(t.db[k]) :: t.db[k].clientid
  {
    var wanted := set k | k in t.db && test(t.db[k]) :: t.db[k].clientid;
    forall c ensures c in Members(found) <==> c in wanted {
      if c in Members(found) {
        var i :| 0 <= i < |found| && found[i] == c;
        assert FoundBy(t, t.db.Keys, test, found[i]);
      }
      if c in wanted {
        var k :| k in t.db && test(t.db[k]) && t.db[k].clientid == c;
        assert Passes(t, t.db.Keys, test, k);
      }
    }
  }

  lemma WithoutNone(db: Db)
    ensures Without(db, {}) == db
  {
  }

  function PurgedDb(db: Db, clientids: set<nat>): Db
  {
    map k | k in db && db[k].clientid !in clientids :: db[k]
  }

  function MarkedDb(db: Db, clientids: set<nat>): Db
  {
    map k | k in db :: if db[k].clientid in clientids then db[k].(courtesy := true) else db[k]
  }

  /** Marking, then purging, is the sweep. */
  lemma SweepIsMarkAndPurge(t: Table, now: real)
    ensures PurgedDb(MarkedDb(t.db, Lapsing(t.db, now)), Expiring(t.db, now)) == Sweep(t, now).db
  {
    var swept := PurgedDb(MarkedDb(t.db, Lapsing(t.db, now)), Expiring(t.db, now));
    assert swept.Keys == Sweep(t, now).db.Keys;
    forall k | k in swept ensures swept[k] == Sweep(t, now).db[k] {
    }
  }

  function ConfirmedOf(snaps: seq<Snapshot>): seq<Snapshot>
  {
    if snaps == [] then []
    else ConfirmedOf(snaps[..|snaps| - 1]) + if snaps[|snaps| - 1].confirmed then [snaps[|snaps| - 1]] else []
  }
}
