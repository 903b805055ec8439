/**
  The table of RPCSEC_GSS contexts that all connections share, and the calls
  that run against it.  The table and every context's window are behind locks
  of their own, so a call is a sequence of atomic steps and the steps of
  different connections interleave in any order.  A call keeps using a context
  it has looked up even after the table has dropped it.
 */
module GssTable {
  import opened Wrappers
  import opened Bytes
  import opened SeqWindow
  import opened Crypto
  import opened CipherStealing
  import opened Cfx
  import opened GssCalls

  const MAX_CONTEXTS: nat := 16384

  /** The fields of a context that never change; `id` names the shared object. */
  datatype Context = Context(id: nat, key: ContextKey, expires: int, created: int)

  type Table = map<ByteString, Context>

  // ------------------------------------------------------------ eviction

  function Live(t: Table, now: int): Table
  {
    map h | h in t && t[h].expires > now :: t[h]
  }

  predicate Submap(small: Table, big: Table)
  {
    forall h :: h in small ==> h in big && small[h] == big[h]
  }

  /**
    What a full table keeps to make room: nothing expired, below the limit,
    no more dropped than needed, and nothing dropped that is younger than
    something kept.
   */
  ghost predicate MadeRoom(t: Table, now: int, kept: Table)
  {
    if |t| < MAX_CONTEXTS then kept == t
    else
      var live := Live(t, now);
      && Submap(kept, live)
      && (if |live| < MAX_CONTEXTS then kept == live else |kept| == MAX_CONTEXTS - 1)
      && (forall h, g :: h in live && h !in kept && g in kept ==> live[h].created <= kept[g].created)
  }

  /**
    Making room: nothing goes below 16384 contexts; else nothing expired stays,
    all the others do if that makes room, and if not all but enough of the oldest.
   */
  lemma RoomIs(t: Table, now: int, kept: Table)
    requires MadeRoom(t, now, kept)
    ensures |t| < 16384 ==> kept == t
    ensures |t| >= 16384 ==> forall h :: h in kept ==> h in t && kept[h] == t[h] && t[h].expires > now
    ensures |t| >= 16384 && |Live(t, now)| < 16384 ==> forall h :: h in t && t[h].expires > now ==> h in kept
    ensures |t| >= 16384 && |Live(t, now)| >= 16384 ==>
              && |kept| == 16383
              && forall h, g :: h in t && t[h].expires > now && h !in kept && g in kept ==> t[h].created <= t[g].created
    ensures forall h :: h in Live(t, now) <==> h in t && t[h].expires > now
  {
  }

  predicate IsOldest(t: Table, h: ByteString)
  {
    h in t && forall g :: g in t ==> t[h].created <= t[g].created
  }

  lemma {:induction false} OldestExists(t: Table)
    requires |t| > 0
    ensures exists h :: IsOldest(t, h)
    decreases |t|
  {
    assert |t.Keys| > 0;
    var h :| h in t;
    if |t| == 1 {
      assert |t.Keys - {h}| == 0;
      assert forall g :: g in t ==> g == h || g in t.Keys - {h};
      assert IsOldest(t, h);
    } else {
      var rest := t - {h};
      assert rest.Keys == t.Keys - {h};
      OldestExists(rest);
      var o :| IsOldest(rest, o);
      assert forall g :: g in t ==> g in rest || g == h;
      assert IsOldest(t, if t[h].created <= t[o].created then h else o);
    }
  }

  lemma LiveSize(t: Table, now: int)
    ensures |Live(t, now)| <= |t|
  {
    assert Live(t, now).Keys <= t.Keys;
    SubsetSize(Live(t, now).Keys, t.Keys);
  }

  lemma {:induction false} SubsetSize(a: set<ByteString>, b: set<ByteString>)
    requires a <= b
    ensures |a| <= |b|
  {
    if a != {} {
      var x :| x in a;
      SubsetSize(a - {x}, b - {x});
    }
  }

  class ContextTable {
    var contexts: Table

    ghost predicate Valid()
      reads this
    {
      |contexts| <= MAX_CONTEXTS
    }

    constructor ()
      ensures Valid() && contexts == map[]
    {
      contexts := map[];
    }

    /** The locked part of `init`: drop expired contexts and then the oldest while full, insert. */
    method Insert(handle: ByteString, ctx: Context, now: int) returns (ghost kept: Table)
      requires Valid()
      modifies this
      ensures Valid()
      ensures MadeRoom(old(contexts), now, kept)
      ensures contexts == kept[handle := ctx]
    {
      if |contexts| >= MAX_CONTEXTS {
        contexts := Live(contexts, now);
        ghost var live := contexts;
        LiveSize(old(contexts), now);
        while |contexts| >= MAX_CONTEXTS
          invariant Submap(contexts, live)
          invariant |contexts| <= MAX_CONTEXTS
          invariant |live| < MAX_CONTEXTS ==> contexts == live
          invariant |live| >= MAX_CONTEXTS ==> |contexts| >= MAX_CONTEXTS - 1
          invariant forall h, g :: h in live && h !in contexts && g in contexts ==>
                    live[h].created <= contexts[g].created
        {
          ghost var before := contexts;
          OldestExists(contexts);
          var oldest :| oldest in contexts && IsOldest(contexts, oldest);
          contexts := contexts - {oldest};
          assert contexts.Keys == before.Keys - {oldest};
        }
      }
      kept := contexts;
      contexts := contexts[handle := ctx];
      assert contexts.Keys == kept.Keys + {handle};
    }
  }

  // ------------------------------------------------------------ calls as steps

  /** What a connection does with a call: parse and route its record, check its header and unprotect its arguments. */
  datatype Env = Env(
    parse: ByteString -> Option<DataCall>,
    route: DataCall -> Route,
    verdict: (ContextKey, DataCall) -> Option<Denial>,
    arguments: (ContextKey, DataCall) -> Outcome)

  /** The server's own: encryption under each key, and which argument bytes decode. */
  function ServerEnv(suite: ContextKey -> Suite, decodes: ByteString -> bool): Env
  {
    Env(ParseCall,
        RouteOf,
        (k: ContextKey, call: DataCall) => HeaderVerdict(suite(k), k, call),
        (k: ContextKey, call: DataCall) => Arguments(suite(k), k, call, decodes))
  }

  /** How far a call has got through `data`. */
  datatype Progress = Found | Fresh | Authentic | Admitted | Done(outcome: Outcome)

  /**
    A call with the context it found.  `checkedAt` is when it looked at the
    context's expiry, `met` the window it met, `position` how many calls had
    passed by then, and `signed` how many tokens were made for its reply.
   */
  datatype Thread = Thread(record: ByteString, call: DataCall, ctx: Context, progress: Progress, checkedAt: int,
                           met: Window, position: nat, signed: nat)
  {
    function Handle(): ByteString { call.head.cred.handle }

    function Verdict(env: Env): Option<Denial> { env.verdict(ctx.key, call) }

    /** `data` in one piece, on what the thread met. */
    function AllInOne(env: Env): (Outcome, Window)
    {
      DataBy(Verdict(env), env.arguments(ctx.key, call), ctx.expires, met, checkedAt, call.SeqNum())
    }

    /** Its reply may take one more number of the context's send counter. */
    predicate MaySign() { progress.Done? && signed < Signatures(progress.outcome, call.Service()) }
  }

  /** How many tokens a reply takes at most: a verifier, and one more when its results are protected. */
  function Signatures(outcome: Outcome, service: nat): nat
  {
    match outcome
    case Destroyed => 1
    case Garbage => 1
    case Proceed(_) => if service == SVC_NONE then 1 else 2
    case _ => 0
  }

  /** A call let through: the thread, the context and the sequence number. */
  datatype Passage = Passage(tid: nat, id: nat, seqNum: nat)

  /** A context's send counter, and the numbers its tokens have carried so far. */
  datatype Sends = Sends(next: nat, numbers: seq<nat>)

  datatype State = State(
    table: Table,
    windows: map<nat, Window>,
    threads: map<nat, Thread>,
    passages: seq<Passage>,
    sends: map<nat, Sends>,
    now: int)

  datatype Step =
    | Init(record: ByteString, handle: ByteString, ctx: Context, kept: Table, first: nat)
    | Turn(record: ByteString, outcome: Outcome)
    | Lookup(tid: nat, record: ByteString)
    | CheckExpiry(tid: nat)
    | CheckHeader(tid: nat)
    | AcceptNumber(tid: nat)
    | Finish(tid: nat)
    | Sign(tid: nat)
    | Tick(seconds: nat)

  /** The answers a call can get before it has a context. */
  predicate Turns(env: Env, s: State, call: DataCall, outcome: Outcome)
  {
    match env.route(call)
    case Answer(answer) => outcome == answer
    case ToInit(_) => outcome.InitFailed?
    case ToData => call.head.cred.handle !in s.table && outcome == Denied(CredProblem)
  }

  ghost predicate Enabled(env: Env, s: State, step: Step)
  {
    match step
    case Init(record, handle, ctx, kept, first) =>
      && env.parse(record).Some? && env.route(env.parse(record).value).ToInit?
      && ctx.id !in s.windows && MadeRoom(s.table, s.now, kept) && first < HYPER_LIMIT
    case Turn(record, outcome) => env.parse(record).Some? && Turns(env, s, env.parse(record).value, outcome)
    case Lookup(tid, record) =>
      && tid !in s.threads && env.parse(record).Some? && env.route(env.parse(record).value) == ToData
      && env.parse(record).value.head.cred.handle in s.table
    case CheckExpiry(tid) => tid in s.threads && s.threads[tid].progress == Found
    case CheckHeader(tid) => tid in s.threads && s.threads[tid].progress == Fresh
    case AcceptNumber(tid) => tid in s.threads && s.threads[tid].progress == Authentic
                              && s.threads[tid].ctx.id in s.windows
    case Finish(tid) => tid in s.threads && s.threads[tid].progress == Admitted
    case Sign(tid) => tid in s.threads && s.threads[tid].MaySign() && s.threads[tid].ctx.id in s.sends
    case Tick(_) => true
  }

  function Moved(s: State, tid: nat, progress: Progress): map<nat, Thread>
    requires tid in s.threads
  {
    s.threads[tid := s.threads[tid].(progress := progress)]
  }

  /** `data`: the context behind the record's handle. */
  function LookedUp(s: State, tid: nat, record: ByteString, call: DataCall): State
    requires call.head.cred.handle in s.table
  {
    s.(threads := s.threads[tid := Thread(record, call, s.table[call.head.cred.handle], Found, s.now, EMPTY, 0, 0)])
  }

  /** `data`: a context past its ticket's end is dropped from the table. */
  function ExpiryChecked(s: State, tid: nat): State
    requires tid in s.threads
  {
    var t := s.threads[tid].(checkedAt := s.now);
    if t.ctx.expires < s.now
    then s.(table := s.table - {t.Handle()}, threads := s.threads[tid := t.(progress := Done(Denied(CtxProblem)))])
    else s.(threads := s.threads[tid := t.(progress := Fresh)])
  }

  /** `data`: the header MIC under the context's key first, then the end of the sequence space. */
  function HeaderChecked(env: Env, s: State, tid: nat): State
    requires tid in s.threads
  {
    var t := s.threads[tid];
    match t.Verdict(env)
    case None => s.(threads := Moved(s, tid, Authentic))
    case Some(why) =>
      s.(table := if why == CtxProblem then s.table - {t.Handle()} else s.table,
         threads := Moved(s, tid, Done(Denied(why))))
  }

  /** `data`: the number goes through the context's window under its lock. */
  function NumberAccepted(s: State, tid: nat): State
    requires tid in s.threads && s.threads[tid].ctx.id in s.windows
  {
    var t := s.threads[tid];
    Answered(s, tid, s.windows[t.ctx.id].Accept(t.call.SeqNum()))
  }

  /** The window's answer, and what it leaves. */
  function Answered(s: State, tid: nat, answer: (Window, bool)): State
    requires tid in s.threads && s.threads[tid].ctx.id in s.windows
  {
    var t := s.threads[tid].(met := s.windows[s.threads[tid].ctx.id], position := |s.passages|);
    s.(windows := s.windows[t.ctx.id := answer.0],
       threads := s.threads[tid := t.(progress := if answer.1 then Admitted else Done(Drop))],
       passages := if answer.1 then s.passages + [Passage(tid, t.ctx.id, t.call.SeqNum())] else s.passages)
  }

  /** `data`: DESTROY drops the context, DATA unprotects the arguments. */
  function CallFinished(env: Env, s: State, tid: nat): State
    requires tid in s.threads
  {
    var t := s.threads[tid];
    s.(table := if t.call.Destroys() then s.table - {t.Handle()} else s.table,
       threads := Moved(s, tid, Done(env.arguments(t.ctx.key, t.call))))
  }

  /** `mic` and `wrap` for a reply: the send counter is read and raised in one step. */
  function Signed(s: State, tid: nat): State
    requires tid in s.threads && s.threads[tid].ctx.id in s.sends
  {
    var t := s.threads[tid];
    s.(threads := s.threads[tid := t.(signed := t.signed + 1)],
       sends := s.sends[t.ctx.id := Taken(s.sends[t.ctx.id])])
  }

  function Taken(c: Sends): Sends { Sends(Next(c.next), c.numbers + [c.next]) }

  /** `init`: the verifier of its reply takes the first number, and the table gets the context. */
  function Established(s: State, handle: ByteString, ctx: Context, kept: Table, first: nat): State
  {
    s.(table := kept[handle := ctx],
       windows := s.windows[ctx.id := EMPTY],
       sends := s.sends[ctx.id := Taken(Sends(first, []))])
  }

  /** One atomic step of one connection, or of the clock. */
  ghost function Apply(env: Env, s: State, step: Step): State
    requires Enabled(env, s, step)
  {
    match step
    case Init(_, handle, ctx, kept, first) => Established(s, handle, ctx, kept, first)
    case Turn(_, _) => s
    case Lookup(tid, record) => LookedUp(s, tid, record, env.parse(record).value)
    case CheckExpiry(tid) => ExpiryChecked(s, tid)
    case CheckHeader(tid) => HeaderChecked(env, s, tid)
    case AcceptNumber(tid) => NumberAccepted(s, tid)
    case Finish(tid) => CallFinished(env, s, tid)
    case Sign(tid) => Signed(s, tid)
    case Tick(seconds) => s.(now := s.now + seconds)
  }

  ghost predicate Start(s: State)
  {
    && s.table == map[] && s.windows == map[] && s.threads == map[] && s.passages == []
    && s.sends == map[]
  }

  /** `s'` is reached from `s` by enabled steps of any connections in any order. */
  ghost predicate Run(env: Env, s: State, steps: seq<Step>, s': State)
    decreases |steps|
  {
    if steps == [] then s == s'
    else Enabled(env, s, steps[0]) && Run(env, Apply(env, s, steps[0]), steps[1..], s')
  }

  // ------------------------------------------------------------ what every step keeps

  ghost function PassedNumbers(passages: seq<Passage>, id: nat): set<int>
  {
    set i | 0 <= i < |passages| && passages[i].id == id :: passages[i].seqNum
  }

  ghost predicate AtMostOnce(passages: seq<Passage>)
  {
    forall i, j :: 0 <= i < j < |passages| && passages[i].id == passages[j].id ==>
      passages[i].seqNum != passages[j].seqNum
  }

  /** A passage belongs to a call whose header passed the check under the key of that very context. */
  ghost predicate Genuine(env: Env, threads: map<nat, Thread>, p: Passage)
  {
    && p.tid in threads
    && threads[p.tid].ctx.id == p.id && threads[p.tid].call.SeqNum() == p.seqNum
    && threads[p.tid].Verdict(env).None?
  }

  ghost predicate TableInv(table: Table, windows: map<nat, Window>)
  {
    |table| <= MAX_CONTEXTS && forall h :: h in table ==> table[h].id in windows
  }

  /** Where a thread stands is where `data` in one piece would stand. */
  ghost predicate OnTrack(env: Env, t: Thread)
  {
    match t.progress
    case Found => true
    case Fresh => t.checkedAt <= t.ctx.expires
    case Authentic => t.checkedAt <= t.ctx.expires && t.Verdict(env).None?
    case Admitted => t.checkedAt <= t.ctx.expires && t.Verdict(env).None? && t.met.Accept(t.call.SeqNum()).1
    case Done(outcome) => outcome == t.AllInOne(env).0
  }

  ghost predicate ThreadInv(env: Env, t: Thread, windows: map<nat, Window>, passages: seq<Passage>)
  {
    && t.ctx.id in windows && OnTrack(env, t)
    && env.parse(t.record) == Some(t.call) && env.route(t.call) == ToData
    && t.position <= |passages| && t.met.Represents(PassedNumbers(passages[..t.position], t.ctx.id))
  }

  ghost predicate ThreadsInv(env: Env, threads: map<nat, Thread>, windows: map<nat, Window>, passages: seq<Passage>)
  {
    forall t :: t in threads ==> ThreadInv(env, threads[t], windows, passages)
  }

  ghost predicate PassagesInv(env: Env, passages: seq<Passage>, threads: map<nat, Thread>, windows: map<nat, Window>)
  {
    && AtMostOnce(passages)
    && (forall i :: 0 <= i < |passages| ==> passages[i].id in windows && Genuine(env, threads, passages[i]))
  }

  ghost predicate WindowsInv(windows: map<nat, Window>, passages: seq<Passage>)
  {
    forall id :: id in windows ==> windows[id].Represents(PassedNumbers(passages, id))
  }

  ghost predicate Inv(env: Env, s: State)
  {
    && TableInv(s.table, s.windows)
    && ThreadsInv(env, s.threads, s.windows, s.passages)
    && PassagesInv(env, s.passages, s.threads, s.windows)
    && WindowsInv(s.windows, s.passages)
  }

  lemma PassedNumbersAppend(passages: seq<Passage>, p: Passage, id: nat)
    ensures PassedNumbers(passages + [p], id)
         == if p.id == id then PassedNumbers(passages, id) + {p.seqNum as int} else PassedNumbers(passages, id)
  {
    var all := passages + [p];
    assert forall i :: 0 <= i < |passages| ==> all[i] == passages[i];
    assert all[|passages|] == p;
    forall x
      ensures x in PassedNumbers(all, id) <==> x in PassedNumbers(passages, id) || (p.id == id && x == p.seqNum)
    {
      if x in PassedNumbers(passages, id) {
        var i :| 0 <= i < |passages| && passages[i].id == id && passages[i].seqNum == x;
        assert all[i].id == id && all[i].seqNum == x;
      }
    }
  }

  lemma RemovalSize(t: Table, h: ByteString)
    ensures |t - {h}| <= |t|
  {
    assert (t - {h}).Keys == t.Keys - {h};
    SubsetSize(t.Keys - {h}, t.Keys);
  }

  lemma InsertSize(s: State, handle: ByteString, ctx: Context, kept: Table)
    requires |s.table| <= MAX_CONTEXTS && MadeRoom(s.table, s.now, kept)
    ensures |kept[handle := ctx]| <= MAX_CONTEXTS
    ensures Submap(kept, s.table)
  {
    assert kept[handle := ctx].Keys == kept.Keys + {handle};
  }

  /** More windows and more passages leave a thread as it stands. */
  lemma ThreadInvGrows(env: Env, t: Thread, windows: map<nat, Window>, passages: seq<Passage>,
                       windows': map<nat, Window>, passages': seq<Passage>)
    requires ThreadInv(env, t, windows, passages) && windows.Keys <= windows'.Keys
    requires |passages| <= |passages'| && passages'[..|passages|] == passages
    ensures ThreadInv(env, t, windows', passages')
  {
    assert passages'[..t.position] == passages[..t.position];
  }

  lemma InitKeeps(env: Env, s: State, handle: ByteString, ctx: Context, kept: Table, first: nat)
    requires Inv(env, s) && ctx.id !in s.windows && MadeRoom(s.table, s.now, kept)
    ensures Inv(env, Established(s, handle, ctx, kept, first))
  {
    var r := Established(s, handle, ctx, kept, first);
    InsertSize(s, handle, ctx, kept);
    assert PassedNumbers(s.passages, ctx.id) == {};
    forall t | t in r.threads ensures ThreadInv(env, r.threads[t], r.windows, r.passages) {
      assert s.passages[..|s.passages|] == s.passages;
      ThreadInvGrows(env, s.threads[t], s.windows, s.passages, r.windows, r.passages);
    }
  }

  /** Steps that touch neither windows nor passages: one thread moves on, and the table may lose a handle. */
  lemma QuietKeeps(env: Env, s: State, tid: nat, t: Thread, s': State)
    requires Inv(env, s) && tid in s.threads && ThreadInv(env, t, s.windows, s.passages)
    requires t.call == s.threads[tid].call && t.ctx == s.threads[tid].ctx
    requires s'.table == s.table || exists h :: s'.table == s.table - {h}
    requires s'.windows == s.windows && s'.passages == s.passages && s'.threads == s.threads[tid := t]
    ensures Inv(env, s')
  {
    if s'.table != s.table {
      var h :| s'.table == s.table - {h};
      RemovalSize(s.table, h);
    }
    forall i | 0 <= i < |s'.passages|
      ensures s'.passages[i].id in s'.windows && Genuine(env, s'.threads, s'.passages[i])
    {
      assert Genuine(env, s.threads, s.passages[i]);
    }
  }

  lemma ExpiryKeeps(env: Env, s: State, tid: nat)
    requires Inv(env, s) && tid in s.threads && s.threads[tid].progress == Found
    ensures Inv(env, ExpiryChecked(s, tid))
  {
    var r, t := ExpiryChecked(s, tid), s.threads[tid].(checkedAt := s.now);
    assert ThreadInv(env, s.threads[tid], s.windows, s.passages);
    if t.ctx.expires < s.now {
      assert t.(progress := Done(Denied(CtxProblem))).AllInOne(env).0 == Denied(CtxProblem);
      QuietKeeps(env, s, tid, t.(progress := Done(Denied(CtxProblem))), r);
    } else {
      QuietKeeps(env, s, tid, t.(progress := Fresh), r);
    }
  }

  lemma HeaderKeeps(env: Env, s: State, tid: nat)
    requires Inv(env, s) && tid in s.threads && s.threads[tid].progress == Fresh
    ensures Inv(env, HeaderChecked(env, s, tid))
  {
    var r := HeaderChecked(env, s, tid);
    assert ThreadInv(env, s.threads[tid], s.windows, s.passages);
    QuietKeeps(env, s, tid, r.threads[tid], r);
  }

  lemma FinishKeeps(env: Env, s: State, tid: nat)
    requires Inv(env, s) && tid in s.threads && s.threads[tid].progress == Admitted
    ensures Inv(env, CallFinished(env, s, tid))
  {
    var r := CallFinished(env, s, tid);
    assert ThreadInv(env, s.threads[tid], s.windows, s.passages);
    QuietKeeps(env, s, tid, r.threads[tid], r);
  }

  lemma SignKeeps(env: Env, s: State, tid: nat)
    requires Inv(env, s) && tid in s.threads && s.threads[tid].ctx.id in s.sends
    ensures Inv(env, Signed(s, tid))
  {
    var r := Signed(s, tid);
    assert ThreadInv(env, s.threads[tid], s.windows, s.passages);
    QuietKeeps(env, s, tid, r.threads[tid], r);
  }

  lemma LookupKeeps(env: Env, s: State, tid: nat, record: ByteString, call: DataCall)
    requires Inv(env, s) && tid !in s.threads && env.parse(record) == Some(call) && env.route(call) == ToData
    requires call.head.cred.handle in s.table
    ensures Inv(env, LookedUp(s, tid, record, call))
  {
    var r := LookedUp(s, tid, record, call);
    assert PassedNumbers(s.passages[..0], r.threads[tid].ctx.id) == {};
    forall i | 0 <= i < |r.passages| ensures r.passages[i].id in r.windows && Genuine(env, r.threads, r.passages[i]) {
      assert Genuine(env, s.threads, s.passages[i]);
    }
  }

  predicate SameCalls(a: map<nat, Thread>, b: map<nat, Thread>)
  {
    a.Keys == b.Keys && forall t :: t in a ==> a[t].call == b[t].call && a[t].ctx == b[t].ctx
  }

  lemma GenuineStays(env: Env, passages: seq<Passage>, windows: map<nat, Window>, windows': map<nat, Window>,
                     threads: map<nat, Thread>, threads': map<nat, Thread>)
    requires PassagesInv(env, passages, threads, windows) && SameCalls(threads, threads')
             && windows.Keys <= windows'.Keys
    ensures PassagesInv(env, passages, threads', windows')
  {
    forall i | 0 <= i < |passages| ensures passages[i].id in windows' && Genuine(env, threads', passages[i]) {
      assert Genuine(env, threads, passages[i]);
    }
  }

  /** A number that is not among those that passed may pass. */
  lemma NewPassage(env: Env, passages: seq<Passage>, threads: map<nat, Thread>, windows: map<nat, Window>, p: Passage)
    requires PassagesInv(env, passages, threads, windows) && p.id in windows && Genuine(env, threads, p)
    requires p.seqNum !in PassedNumbers(passages, p.id)
    ensures PassagesInv(env, passages + [p], threads, windows)
  {
    var all := passages + [p];
    forall i | 0 <= i < |passages| && passages[i].id == p.id ensures passages[i].seqNum != p.seqNum {
      assert passages[i].seqNum in PassedNumbers(passages, p.id);
    }
    forall i | 0 <= i < |all| ensures all[i].id in windows && Genuine(env, threads, all[i]) {
      assert i < |passages| ==> all[i] == passages[i];
    }
  }

  lemma WindowsAfter(windows: map<nat, Window>, passages: seq<Passage>, p: Passage, window: Window)
    requires WindowsInv(windows, passages) && p.id in windows
    requires window.Represents(PassedNumbers(passages, p.id) + {p.seqNum as int})
    ensures WindowsInv(windows[p.id := window], passages + [p])
  {
    forall other | other in windows
      ensures windows[p.id := window][other].Represents(PassedNumbers(passages + [p], other))
    {
      PassedNumbersAppend(passages, p, other);
    }
  }

  /** The thread that just met its window. */
  lemma MetThread(env: Env, s: State, tid: nat, answer: (Window, bool))
    requires Inv(env, s) && tid in s.threads && s.threads[tid].progress == Authentic
             && s.threads[tid].ctx.id in s.windows
    requires answer == s.windows[s.threads[tid].ctx.id].Accept(s.threads[tid].call.SeqNum())
    ensures var r := Answered(s, tid, answer);
            ThreadInv(env, r.threads[tid], r.windows, r.passages)
  {
    assert ThreadInv(env, s.threads[tid], s.windows, s.passages);
    assert Answered(s, tid, answer).passages[..|s.passages|] == s.passages;
  }

  lemma ThreadsAnswered(env: Env, s: State, tid: nat, r: State)
    requires ThreadsInv(env, s.threads, s.windows, s.passages) && tid in r.threads
    requires ThreadInv(env, r.threads[tid], r.windows, r.passages) && r.threads == s.threads[tid := r.threads[tid]]
    requires s.windows.Keys <= r.windows.Keys && |s.passages| <= |r.passages|
             && r.passages[..|s.passages|] == s.passages
    ensures ThreadsInv(env, r.threads, r.windows, r.passages)
  {
    forall x | x in r.threads ensures ThreadInv(env, r.threads[x], r.windows, r.passages) {
      if x != tid {
        ThreadInvGrows(env, s.threads[x], s.windows, s.passages, r.windows, r.passages);
      }
    }
  }

  lemma PassagesAnswered(env: Env, s: State, tid: nat, r: State, admitted: bool)
    requires PassagesInv(env, s.passages, s.threads, s.windows) && SameCalls(s.threads, r.threads) && tid in s.threads
    requires s.windows.Keys == r.windows.Keys && s.threads[tid].ctx.id in s.windows && s.threads[tid].Verdict(env).None?
    requires var p := Passage(tid, s.threads[tid].ctx.id, s.threads[tid].call.SeqNum());
             && r.passages == (if admitted then s.passages + [p] else s.passages)
             && (admitted ==> p.seqNum !in PassedNumbers(s.passages, p.id))
    ensures PassagesInv(env, r.passages, r.threads, r.windows)
  {
    GenuineStays(env, s.passages, s.windows, r.windows, s.threads, r.threads);
    if admitted {
      NewPassage(env, s.passages, r.threads, r.windows,
                 Passage(tid, s.threads[tid].ctx.id, s.threads[tid].call.SeqNum()));
    }
  }

  lemma WindowsAnswered(s: State, p: Passage, answer: (Window, bool))
    requires WindowsInv(s.windows, s.passages) && p.id in s.windows
    requires answer.0.Represents(PassedNumbers(s.passages, p.id) + if answer.1 then {p.seqNum as int} else {})
    ensures WindowsInv(s.windows[p.id := answer.0], if answer.1 then s.passages + [p] else s.passages)
  {
    if answer.1 {
      WindowsAfter(s.windows, s.passages, p, answer.0);
    } else {
      assert PassedNumbers(s.passages, p.id) + {} == PassedNumbers(s.passages, p.id);
    }
  }

  /** The answer fits the numbers that passed so far. */
  ghost predicate AnswerFits(s: State, t: Thread, answer: (Window, bool))
  {
    var h := PassedNumbers(s.passages, t.ctx.id);
    && (answer.1 ==> t.call.SeqNum() as int !in h)
    && answer.0.Represents(h + if answer.1 then {t.call.SeqNum() as int} else {})
  }

  lemma AcceptFits(s: State, t: Thread)
    requires WindowsInv(s.windows, s.passages) && t.ctx.id in s.windows
    ensures AnswerFits(s, t, s.windows[t.ctx.id].Accept(t.call.SeqNum()))
  {
    var h := PassedNumbers(s.passages, t.ctx.id);
    AcceptRefinesHistory(s.windows[t.ctx.id], h, t.call.SeqNum());
    assert h + {} == h;
    if Admissible(h, t.call.SeqNum()) {
      AdmissibleIsNew(h, t.call.SeqNum());
    }
  }

  lemma AnsweredKeeps(env: Env, s: State, tid: nat, p: Passage, answer: (Window, bool), r: State)
    requires Inv(env, s) && tid in s.threads && s.threads[tid].ctx.id in s.windows && s.threads[tid].Verdict(env).None?
    requires p == Passage(tid, s.threads[tid].ctx.id, s.threads[tid].call.SeqNum())
    requires AnswerFits(s, s.threads[tid], answer) && tid in r.threads
    requires r.table == s.table && r.windows == s.windows[p.id := answer.0]
    requires r.passages == (if answer.1 then s.passages + [p] else s.passages)
    requires r.threads == s.threads[tid := r.threads[tid]] && SameCalls(s.threads, r.threads)
    requires ThreadInv(env, r.threads[tid], r.windows, r.passages)
    ensures Inv(env, r)
  {
    assert r.passages[..|s.passages|] == s.passages;
    ThreadsAnswered(env, s, tid, r);
    PassagesAnswered(env, s, tid, r, answer.1);
    WindowsAnswered(s, p, answer);
  }

  lemma AnswerKeeps(env: Env, s: State, tid: nat, answer: (Window, bool))
    requires Inv(env, s) && tid in s.threads && s.threads[tid].ctx.id in s.windows && s.threads[tid].Verdict(env).None?
    requires AnswerFits(s, s.threads[tid], answer)
    requires var r := Answered(s, tid, answer);
             ThreadInv(env, r.threads[tid], r.windows, r.passages)
    ensures Inv(env, Answered(s, tid, answer))
  {
    var t := s.threads[tid];
    AnsweredKeeps(env, s, tid, Passage(tid, t.ctx.id, t.call.SeqNum()), answer, Answered(s, tid, answer));
  }

  lemma AcceptKeeps(env: Env, s: State, tid: nat)
    requires Inv(env, s) && tid in s.threads && s.threads[tid].progress == Authentic
             && s.threads[tid].ctx.id in s.windows
    ensures Inv(env, NumberAccepted(s, tid))
  {
    var t := s.threads[tid];
    assert ThreadInv(env, t, s.windows, s.passages);
    AcceptFits(s, t);
    MetThread(env, s, tid, s.windows[t.ctx.id].Accept(t.call.SeqNum()));
    AnswerKeeps(env, s, tid, s.windows[t.ctx.id].Accept(t.call.SeqNum()));
  }

  lemma AdmissibleIsNew(h: set<int>, n: nat)
    requires Admissible(h, n)
    ensures n as int !in h
  {
  }

  lemma StepKeeps(env: Env, s: State, step: Step)
    requires Inv(env, s) && Enabled(env, s, step)
    ensures Inv(env, Apply(env, s, step))
  {
    match step
    case Init(_, handle, ctx, kept, first) => InitKeeps(env, s, handle, ctx, kept, first);
    case Turn(_, _) =>
    case Lookup(tid, record) => LookupKeeps(env, s, tid, record, env.parse(record).value);
    case CheckExpiry(tid) => ExpiryKeeps(env, s, tid);
    case CheckHeader(tid) => HeaderKeeps(env, s, tid);
    case AcceptNumber(tid) => AcceptKeeps(env, s, tid);
    case Finish(tid) => FinishKeeps(env, s, tid);
    case Sign(tid) => SignKeeps(env, s, tid);
    case Tick(_) =>
  }

  lemma {:induction false} RunKeeps(env: Env, s: State, steps: seq<Step>, s': State)
    requires Inv(env, s) && Run(env, s, steps, s')
    ensures Inv(env, s')
    decreases |steps|
  {
    if steps != [] {
      StepKeeps(env, s, steps[0]);
      RunKeeps(env, Apply(env, s, steps[0]), steps[1..], s');
    }
  }

  // ------------------------------------------------------------ theorems over every interleaving

  /** No context lets a number through twice, whatever the interleaving. */
  lemma NumbersPassAtMostOnce(env: Env, s: State, steps: seq<Step>, s': State, i: nat, j: nat)
    requires Start(s) && Run(env, s, steps, s')
    requires i < j < |s'.passages| && s'.passages[i].id == s'.passages[j].id
    ensures s'.passages[i].seqNum != s'.passages[j].seqNum
  {
    RunKeeps(env, s, steps, s');
  }

  /** The table never grows past its limit. */
  lemma TableStaysBounded(env: Env, s: State, steps: seq<Step>, s': State)
    requires Start(s) && Run(env, s, steps, s')
    ensures |s'.table| <= 16384
  {
    RunKeeps(env, s, steps, s');
  }

  /** The header of thread `t` is signed with the key of the context it found. */
  ghost predicate SignedForContext(suite: ContextKey -> Suite, t: Thread)
  {
    HeaderSigned(suite(t.ctx.key), t.ctx.key, t.call)
  }

  /**
    In the server a thread's header passes the check exactly when it is signed for its
    context and its number in range.
   */
  lemma ServerVerdict(suite: ContextKey -> Suite, decodes: ByteString -> bool, t: Thread)
    requires ServerEnv(suite, decodes).parse(t.record) == Some(t.call)
    ensures t.Verdict(ServerEnv(suite, decodes)).None? <==> SignedForContext(suite, t) && t.call.SeqNum() < MAXSEQ
  {
    SignedHeader(t.record);
    VerdictIffSigned(suite(t.ctx.key), t.ctx.key, t.call);
  }

  lemma ServerAllInOne(suite: ContextKey -> Suite, decodes: ByteString -> bool, t: Thread)
    ensures t.AllInOne(ServerEnv(suite, decodes)) ==
            Data(suite(t.ctx.key), t.ctx.key, t.ctx.expires, t.met, t.checkedAt, t.call, decodes)
  {
  }

  /** Every call let through passed the check under the key of the context that let it through. */
  lemma PassagesAreChecked(env: Env, s: State, steps: seq<Step>, s': State, i: nat)
    requires Start(s) && Run(env, s, steps, s') && i < |s'.passages|
    ensures Genuine(env, s'.threads, s'.passages[i])
    ensures env.parse(s'.threads[s'.passages[i].tid].record) == Some(s'.threads[s'.passages[i].tid].call)
  {
    RunKeeps(env, s, steps, s');
    assert Genuine(env, s'.threads, s'.passages[i]);
    assert ThreadInv(env, s'.threads[s'.passages[i].tid], s'.windows, s'.passages);
  }

  /**
    Every call let through had a header, with that number in it, signed with the key of
    the context that let it through.
   */
  lemma OnlyGenuineCallsPass(suite: ContextKey -> Suite, decodes: ByteString -> bool, s: State, steps: seq<Step>,
                             s': State, i: nat)
    requires Start(s) && Run(ServerEnv(suite, decodes), s, steps, s') && i < |s'.passages|
    ensures var p := s'.passages[i];
            && p.tid in s'.threads && s'.threads[p.tid].ctx.id == p.id && p.seqNum < MAXSEQ
            && s'.threads[p.tid].call.head.cred.seqNum == p.seqNum && SignedForContext(suite, s'.threads[p.tid])
  {
    PassagesAreChecked(ServerEnv(suite, decodes), s, steps, s', i);
    ServerVerdict(suite, decodes, s'.threads[s'.passages[i].tid]);
  }

  /** A call that fails the check never reaches the step that touches a window. */
  lemma UncheckedNeverAuthentic(env: Env, s: State, steps: seq<Step>, s': State, tid: nat)
    requires Start(s) && Run(env, s, steps, s') && tid in s'.threads && s'.threads[tid].Verdict(env).Some?
    ensures !Enabled(env, s', AcceptNumber(tid))
    ensures s'.threads[tid].progress.Done? ==> s'.threads[tid].progress.outcome.Denied?
  {
    RunKeeps(env, s, steps, s');
    assert ThreadInv(env, s'.threads[tid], s'.windows, s'.passages);
  }

  lemma ThreadsAreParsed(env: Env, s: State, steps: seq<Step>, s': State, tid: nat)
    requires Start(s) && Run(env, s, steps, s') && tid in s'.threads
    ensures env.parse(s'.threads[tid].record) == Some(s'.threads[tid].call) && env.route(s'.threads[tid].call) == ToData
  {
    RunKeeps(env, s, steps, s');
    assert ThreadInv(env, s'.threads[tid], s'.windows, s'.passages);
  }

  /** A call not signed with the key of the context it found ends denied, if it ends. */
  lemma UnsignedIsDenied(suite: ContextKey -> Suite, decodes: ByteString -> bool, s: State, steps: seq<Step>,
                         s': State, tid: nat)
    requires Start(s) && Run(ServerEnv(suite, decodes), s, steps, s')
    requires tid in s'.threads && !SignedForContext(suite, s'.threads[tid])
    ensures !Enabled(ServerEnv(suite, decodes), s', AcceptNumber(tid))
    ensures s'.threads[tid].progress.Done? ==> s'.threads[tid].progress.outcome.Denied?
  {
    ThreadsAreParsed(ServerEnv(suite, decodes), s, steps, s', tid);
    ServerVerdict(suite, decodes, s'.threads[tid]);
    UncheckedNeverAuthentic(ServerEnv(suite, decodes), s, steps, s', tid);
  }

  /** No other step changes an existing window or lets a call through. */
  lemma OnlyAcceptTouchesWindows(env: Env, s: State, step: Step)
    requires Enabled(env, s, step) && !step.AcceptNumber?
    ensures Apply(env, s, step).passages == s.passages
    ensures forall id :: id in s.windows ==>
              id in Apply(env, s, step).windows && Apply(env, s, step).windows[id] == s.windows[id]
  {
    match step
    case CheckExpiry(tid) => assert ExpiryChecked(s, tid).windows == s.windows;
    case CheckHeader(tid) => assert HeaderChecked(env, s, tid).windows == s.windows;
    case Finish(tid) => assert CallFinished(env, s, tid).windows == s.windows;
    case Sign(tid) => assert Signed(s, tid).windows == s.windows;
    case _ =>
  }

  /**
    In every interleaving, the steps of a call whose verifier is no MIC under the
    key of the context it found leave all windows alone: a MIC made for another
    context, one the table held under this handle before, is no better than none.
   */
  lemma BadHeaderChangesNoWindow(suite: ContextKey -> Suite, decodes: ByteString -> bool, s: State, steps: seq<Step>,
                                 s': State, step: Step)
    requires Start(s) && Run(ServerEnv(suite, decodes), s, steps, s') && Enabled(ServerEnv(suite, decodes), s', step)
    requires !step.Init? && !step.Turn? && !step.Lookup? && !step.Tick?
    requires !SignedForContext(suite, s'.threads[step.tid])
    ensures var r := Apply(ServerEnv(suite, decodes), s', step);
            r.passages == s'.passages && forall id :: id in s'.windows ==>
              id in r.windows && r.windows[id] == s'.windows[id]
  {
    UnsignedIsDenied(suite, decodes, s, steps, s', step.tid);
    OnlyAcceptTouchesWindows(ServerEnv(suite, decodes), s', step);
  }

  /** At every moment a window answers as the set of all numbers its context let through. */
  lemma WindowsRepresentPassages(env: Env, s: State, steps: seq<Step>, s': State, id: nat)
    requires Start(s) && Run(env, s, steps, s') && id in s'.windows
    ensures s'.windows[id].Represents(PassedNumbers(s'.passages, id))
  {
    RunKeeps(env, s, steps, s');
  }

  /**
    However its steps interleave with others, a finished call ends as `data` in one
    piece ends on the window it met, which stood for exactly the numbers its
    context had let through by then.
   */
  lemma StepsComposeToData(env: Env, s: State, steps: seq<Step>, s': State, tid: nat)
    requires Start(s) && Run(env, s, steps, s') && tid in s'.threads && s'.threads[tid].progress.Done?
    ensures var t := s'.threads[tid];
            && t.progress.outcome == t.AllInOne(env).0
            && t.position <= |s'.passages| && t.met.Represents(PassedNumbers(s'.passages[..t.position], t.ctx.id))
  {
    RunKeeps(env, s, steps, s');
    assert ThreadInv(env, s'.threads[tid], s'.windows, s'.passages);
  }

  /** The step that meets the window leaves it as `data` in one piece does. */
  lemma AcceptLeavesDatasWindow(env: Env, s: State, steps: seq<Step>, s': State, tid: nat)
    requires Start(s) && Run(env, s, steps, s') && Enabled(env, s', AcceptNumber(tid))
    ensures var r := Apply(env, s', AcceptNumber(tid));
            var t := r.threads[tid];
            t.met == s'.windows[t.ctx.id] && t.position == |s'.passages| && r.windows[t.ctx.id] == t.AllInOne(env).1
  {
    RunKeeps(env, s, steps, s');
    assert ThreadInv(env, s'.threads[tid], s'.windows, s'.passages);
  }

  /** The call of thread `t` is the one a client makes for `args` by the rules, with the key of the context it found. */
  predicate MadeByClient(suite: ContextKey -> Suite, t: Thread, head: Head, args: ByteString,
                         headerSeq: nat, micSeq: nat, confounder: Block)
  {
    var c := suite(t.ctx.key);
    && Sendable(c, head, args) && headerSeq < HYPER_LIMIT && micSeq < HYPER_LIMIT
    && ClientRecord(c, t.ctx.key, head, args, headerSeq, micSeq, confounder) == Ok(t.record)
  }

  /**
    A call made by the client's rules for the context it finds, not expired when it
    looks, and with a number that what passed before it admits, proceeds with
    exactly the client's arguments, in every interleaving.
   */
  lemma ClientCallProceedsInRun(suite: ContextKey -> Suite, decodes: ByteString -> bool, s: State, steps: seq<Step>,
                                s': State, tid: nat, head: Head, args: ByteString, headerSeq: nat, micSeq: nat,
                                confounder: Block)
    requires Start(s) && Run(ServerEnv(suite, decodes), s, steps, s') && tid in s'.threads
             && s'.threads[tid].progress.Done?
    requires suite(s'.threads[tid].ctx.key).Valid() && suite(s'.threads[tid].ctx.key).usable
    requires MadeByClient(suite, s'.threads[tid], head, args, headerSeq, micSeq, confounder)
    requires var t := s'.threads[tid];
             && t.checkedAt <= t.ctx.expires && t.position <= |s'.passages|
             && Admissible(PassedNumbers(s'.passages[..t.position], t.ctx.id), head.cred.seqNum)
    requires head.proc == 1 && head.prog == NFS_PROGRAM ==> decodes(args)
    ensures s'.threads[tid].progress == Done(Proceed(args))
  {
    var t := s'.threads[tid];
    StepsComposeToData(ServerEnv(suite, decodes), s, steps, s', tid);
    ThreadsAreParsed(ServerEnv(suite, decodes), s, steps, s', tid);
    ServerAllInOne(suite, decodes, t);
    ClientCallProceeds(suite(t.ctx.key), t.ctx.key, t.ctx.expires, t.met, t.checkedAt,
                       PassedNumbers(s'.passages[..t.position], t.ctx.id), head, args, headerSeq, micSeq,
                       confounder, decodes);
  }

  /** Whatever proceeds in any interleaving was signed, and protected, with the key of the context it found. */
  lemma ProceedsOnlyProtectedInRun(suite: ContextKey -> Suite, decodes: ByteString -> bool, s: State,
                                   steps: seq<Step>, s': State, tid: nat, args: ByteString)
    requires Start(s) && Run(ServerEnv(suite, decodes), s, steps, s')
    requires tid in s'.threads && s'.threads[tid].progress == Done(Proceed(args))
    requires suite(s'.threads[tid].ctx.key).Valid() && suite(s'.threads[tid].ctx.key).usable
    ensures var t := s'.threads[tid];
            && SignedForContext(suite, t)
            && (t.call.Service() != SVC_NONE ==>
                  MadeByHolder(suite(t.ctx.key), t.ctx.key, Initiator, t.call.Service() == SVC_PRIVACY,
                               WithNumber(t.call.SeqNum(), args)))
  {
    var t := s'.threads[tid];
    StepsComposeToData(ServerEnv(suite, decodes), s, steps, s', tid);
    ThreadsAreParsed(ServerEnv(suite, decodes), s, steps, s', tid);
    ServerAllInOne(suite, decodes, t);
    SignedHeader(t.record);
    ProceedsOnlyProtected(suite(t.ctx.key), t.ctx.key, t.ctx.expires, t.met, t.checkedAt, t.call, decodes, args);
  }

  // ------------------------------------------------------------ calls that never get a context

  /** Whoever gets as far as a context sent version 1 and the procedure DATA or DESTROY. */
  lemma OnlyDataIsLookedUp(suite: ContextKey -> Suite, decodes: ByteString -> bool, s: State, steps: seq<Step>,
                           s': State, tid: nat)
    requires Start(s) && Run(ServerEnv(suite, decodes), s, steps, s') && tid in s'.threads
    ensures var cred := s'.threads[tid].call.head.cred;
            cred.version == RPCSEC_GSS_VERSION
            && (cred.gssProc == RPCSEC_GSS_DATA || cred.gssProc == RPCSEC_GSS_DESTROY)
  {
    ThreadsAreParsed(ServerEnv(suite, decodes), s, steps, s', tid);
  }

  /** What a step does about this record. */
  predicate Handles(step: Step, record: ByteString)
  {
    (step.Init? || step.Turn? || step.Lookup?) && step.record == record
  }

  /** A record that is answered at once can be answered at any moment; whatever handles it gives that answer alone. */
  lemma AnsweredAtOnce(env: Env, s: State, record: ByteString, outcome: Outcome, step: Step)
    requires env.parse(record).Some? && env.route(env.parse(record).value) == Answer(outcome)
    ensures Enabled(env, s, Turn(record, outcome)) && Apply(env, s, Turn(record, outcome)) == s
    ensures Enabled(env, s, step) && Handles(step, record) ==> step == Turn(record, outcome)
  {
  }

  /**
    In the server every other version and every unknown procedure is denied:
    nothing else can happen to such a record, and table, windows and counters
    stay as they are.
   */
  lemma BadCredIsDenied(suite: ContextKey -> Suite, decodes: ByteString -> bool, s: State, record: ByteString,
                        cred: Cred, step: Step)
    requires ParseCall(record).Some? && ParseCall(record).value.head.cred == cred
    requires cred.version != RPCSEC_GSS_VERSION || cred.gssProc > 3
    requires Enabled(ServerEnv(suite, decodes), s, step) && Handles(step, record)
    ensures step == Turn(record, Denied(BadCred)) && Apply(ServerEnv(suite, decodes), s, step) == s
  {
    var env := ServerEnv(suite, decodes);
    assert env.route(env.parse(record).value) == Answer(Denied(BadCred));
    AnsweredAtOnce(env, s, record, Denied(BadCred), step);
  }

  // ------------------------------------------------------------ what leaves the table

  /**
    The steps that drop a handle: the look at a context past its end, a signed
    header whose number is 2^31 or more, and the end of a DESTROY call.
   */
  ghost predicate Drops(suite: ContextKey -> Suite, s: State, step: Step, handle: ByteString)
  {
    match step
    case CheckExpiry(tid) =>
      tid in s.threads && s.threads[tid].call.head.cred.handle == handle && s.threads[tid].ctx.expires < s.now
    case CheckHeader(tid) =>
      && tid in s.threads && s.threads[tid].call.head.cred.handle == handle
      && SignedForContext(suite, s.threads[tid]) && s.threads[tid].call.head.cred.seqNum >= 0x8000_0000
    case Finish(tid) =>
      tid in s.threads && s.threads[tid].call.head.cred.handle == handle && s.threads[tid].call.head.cred.gssProc == 3
    case _ => false
  }

  /**
    In every reachable state: INIT puts its context behind its handle, those steps drop
    theirs, and no other touches the table.
   */
  lemma TableChanges(suite: ContextKey -> Suite, decodes: ByteString -> bool, s: State, steps: seq<Step>, s': State,
                     step: Step, handle: ByteString)
    requires Start(s) && Run(ServerEnv(suite, decodes), s, steps, s') && Enabled(ServerEnv(suite, decodes), s', step)
    ensures var r := Apply(ServerEnv(suite, decodes), s', step);
            && (step.Init? ==> r.table == step.kept[step.handle := step.ctx])
            && (Drops(suite, s', step, handle) ==> r.table == s'.table - {handle})
            && (!step.Init? && (forall h :: !Drops(suite, s', step, h)) ==> r.table == s'.table)
  {
    match step
    case CheckHeader(tid) =>
      ThreadsAreParsed(ServerEnv(suite, decodes), s, steps, s', tid);
      HeaderDrops(suite, decodes, s', tid, handle);
    case CheckExpiry(tid) => ExpiryDrops(suite, s', tid, handle);
    case Finish(tid) => FinishDrops(suite, decodes, s', tid, handle);
    case _ =>
  }

  lemma ExpiryDrops(suite: ContextKey -> Suite, s: State, tid: nat, handle: ByteString)
    requires tid in s.threads
    ensures var r, h := ExpiryChecked(s, tid), s.threads[tid].call.head.cred.handle;
            && (Drops(suite, s, CheckExpiry(tid), handle) ==> r.table == s.table - {handle})
            && (!Drops(suite, s, CheckExpiry(tid), h) ==> r.table == s.table)
  {
  }

  /** The header check ends the context exactly for a signed header whose number is 2^31 or more. */
  lemma EndsNumbers(suite: ContextKey -> Suite, decodes: ByteString -> bool, t: Thread)
    requires ServerEnv(suite, decodes).parse(t.record) == Some(t.call)
    ensures t.Verdict(ServerEnv(suite, decodes)) == Some(CtxProblem) <==>
            SignedForContext(suite, t) && t.call.head.cred.seqNum >= 0x8000_0000
  {
    SignedHeader(t.record);
    VerdictIffSigned(suite(t.ctx.key), t.ctx.key, t.call);
    VerdictOfUnsigned(suite(t.ctx.key), t.ctx.key, t.call);
  }

  lemma HeaderDrops(suite: ContextKey -> Suite, decodes: ByteString -> bool, s: State, tid: nat, handle: ByteString)
    requires tid in s.threads && ServerEnv(suite, decodes).parse(s.threads[tid].record) == Some(s.threads[tid].call)
    ensures var r, h := HeaderChecked(ServerEnv(suite, decodes), s, tid), s.threads[tid].call.head.cred.handle;
            && (Drops(suite, s, CheckHeader(tid), handle) ==> r.table == s.table - {handle})
            && (!Drops(suite, s, CheckHeader(tid), h) ==> r.table == s.table)
  {
    EndsNumbers(suite, decodes, s.threads[tid]);
    HeaderTable(ServerEnv(suite, decodes), s, tid);
  }

  lemma HeaderTable(env: Env, s: State, tid: nat)
    requires tid in s.threads
    ensures HeaderChecked(env, s, tid).table ==
            if s.threads[tid].Verdict(env) == Some(CtxProblem) then s.table - {s.threads[tid].call.head.cred.handle}
            else s.table
  {
  }

  lemma FinishDrops(suite: ContextKey -> Suite, decodes: ByteString -> bool, s: State, tid: nat, handle: ByteString)
    requires tid in s.threads
    ensures var r, h := CallFinished(ServerEnv(suite, decodes), s, tid), s.threads[tid].call.head.cred.handle;
            && (Drops(suite, s, Finish(tid), handle) ==> r.table == s.table - {handle})
            && (!Drops(suite, s, Finish(tid), h) ==> r.table == s.table)
  {
  }

  /** What is not in the table stays out of it until an INIT puts it there. */
  lemma {:induction false} StaysOut(env: Env, s: State, steps: seq<Step>, s': State, handle: ByteString)
    requires Run(env, s, steps, s') && handle !in s.table
    requires forall i :: 0 <= i < |steps| && steps[i].Init? ==> steps[i].handle != handle
    ensures handle !in s'.table
    decreases |steps|
  {
    if steps != [] {
      StepKeepsOut(env, s, steps[0], handle);
      StaysOut(env, Apply(env, s, steps[0]), steps[1..], s', handle);
    }
  }

  lemma StepKeepsOut(env: Env, s: State, step: Step, handle: ByteString)
    requires Enabled(env, s, step) && handle !in s.table
    requires step.Init? ==> step.handle != handle
    ensures handle !in Apply(env, s, step).table
  {
    match step
    case Init(_, _, _, kept, _) => assert kept.Keys <= s.table.Keys;
    case CheckExpiry(tid) => assert ExpiryChecked(s, tid).table.Keys <= s.table.Keys;
    case CheckHeader(tid) => assert HeaderChecked(env, s, tid).table.Keys <= s.table.Keys;
    case Finish(tid) => assert CallFinished(env, s, tid).table.Keys <= s.table.Keys;
    case _ =>
  }

  /**
    A destroyed context, one found expired, and one that ran out of numbers is gone:
    until an INIT with that handle, all that can happen to a DATA or DESTROY record
    for it is the answer that there is no such context.
   */
  lemma DroppedIsGone(suite: ContextKey -> Suite, decodes: ByteString -> bool, s: State, before: seq<Step>, mid: State,
                      drop: Step, after: seq<Step>, s': State, handle: ByteString, record: ByteString, step: Step)
    requires Start(s) && Run(ServerEnv(suite, decodes), s, before, mid)
    requires Enabled(ServerEnv(suite, decodes), mid, drop) && Drops(suite, mid, drop, handle)
    requires Run(ServerEnv(suite, decodes), Apply(ServerEnv(suite, decodes), mid, drop), after, s')
    requires forall i :: 0 <= i < |after| && after[i].Init? ==> after[i].handle != handle
    requires ParseCall(record).Some? && ParseCall(record).value.head.cred.handle == handle
    requires var cred := ParseCall(record).value.head.cred;
             cred.version == 1 && (cred.gssProc == 0 || cred.gssProc == 3)
    ensures handle !in s'.table
    ensures Enabled(ServerEnv(suite, decodes), s', Turn(record, Denied(CredProblem)))
    ensures Enabled(ServerEnv(suite, decodes), s', step) && Handles(step, record) ==>
              step == Turn(record, Denied(CredProblem)) && Apply(ServerEnv(suite, decodes), s', step) == s'
  {
    var env := ServerEnv(suite, decodes);
    TableChanges(suite, decodes, s, before, mid, drop, handle);
    StaysOut(env, Apply(env, mid, drop), after, s', handle);
    Routes(ParseCall(record).value);
    UnknownHere(suite, decodes, s', record, step);
  }

  lemma UnknownHere(suite: ContextKey -> Suite, decodes: ByteString -> bool, s: State, record: ByteString, step: Step)
    requires ParseCall(record).Some? && RouteOf(ParseCall(record).value) == ToData
    requires ParseCall(record).value.head.cred.handle !in s.table
    ensures Enabled(ServerEnv(suite, decodes), s, Turn(record, Denied(CredProblem)))
    ensures Enabled(ServerEnv(suite, decodes), s, step) && Handles(step, record) ==>
              step == Turn(record, Denied(CredProblem)) && Apply(ServerEnv(suite, decodes), s, step) == s
  {
    UnknownIsTurned(ServerEnv(suite, decodes), s, record, step);
  }

  lemma UnknownIsTurned(env: Env, s: State, record: ByteString, step: Step)
    requires env.parse(record).Some? && env.route(env.parse(record).value) == ToData
    requires env.parse(record).value.head.cred.handle !in s.table
    ensures Enabled(env, s, Turn(record, Denied(CredProblem)))
    ensures Enabled(env, s, step) && Handles(step, record) ==>
              step == Turn(record, Denied(CredProblem)) && Apply(env, s, step) == s
  {
  }

  /** A thread starts with the context the table holds for the handle in its record. */
  lemma LookupFinds(env: Env, s: State, tid: nat, record: ByteString)
    requires Enabled(env, s, Lookup(tid, record))
    ensures var t := Apply(env, s, Lookup(tid, record)).threads[tid];
            Some(t.call) == env.parse(record) && t.ctx == s.table[t.call.head.cred.handle] && t.progress == Found
  {
  }

  // ------------------------------------------------------------ send numbers

  /** The numbers of a context's tokens count up from the first, modulo 2^64, and the counter stands at the next. */
  predicate CountsUp(c: Sends)
  {
    && c.numbers != [] && c.numbers[0] < HYPER_LIMIT && c.next == (c.numbers[0] + |c.numbers|) % HYPER_LIMIT
    && forall i :: 0 <= i < |c.numbers| ==> c.numbers[i] == (c.numbers[0] + i) % HYPER_LIMIT
  }

  ghost predicate SendsInv(windows: map<nat, Window>, sends: map<nat, Sends>)
  {
    windows.Keys == sends.Keys && forall id :: id in sends ==> CountsUp(sends[id])
  }

  lemma TakenCounts(c: Sends)
    requires CountsUp(c) || (c.numbers == [] && c.next < HYPER_LIMIT)
    ensures CountsUp(Taken(c))
  {
    var more := Taken(c).numbers;
    if c.numbers != [] {
      assert more[0] == c.numbers[0];
      OneMoreWraps(more[0] + |c.numbers|);
    }
  }

  lemma OneMoreWraps(n: nat)
    ensures (n % HYPER_LIMIT + 1) % HYPER_LIMIT == (n + 1) % HYPER_LIMIT
  {
  }

  /** Only INIT and signing touch the counters. */
  lemma CountersOf(env: Env, s: State, step: Step)
    requires Enabled(env, s, step) && !step.Init? && !step.Sign?
    ensures Apply(env, s, step).sends == s.sends && Apply(env, s, step).windows.Keys == s.windows.Keys
  {
    match step
    case CheckExpiry(tid) => assert ExpiryChecked(s, tid).windows == s.windows;
    case CheckHeader(tid) => assert HeaderChecked(env, s, tid).windows == s.windows;
    case AcceptNumber(tid) => assert NumberAccepted(s, tid).windows.Keys == s.windows.Keys;
    case Finish(tid) => assert CallFinished(env, s, tid).windows == s.windows;
    case _ =>
  }

  lemma SendsKept(env: Env, s: State, step: Step)
    requires SendsInv(s.windows, s.sends) && Enabled(env, s, step)
    ensures SendsInv(Apply(env, s, step).windows, Apply(env, s, step).sends)
  {
    match step
    case Init(_, _, _, _, first) => TakenCounts(Sends(first, []));
    case Sign(tid) => TakenCounts(s.sends[s.threads[tid].ctx.id]);
    case _ => CountersOf(env, s, step);
  }

  lemma {:induction false} SendsKeep(env: Env, s: State, steps: seq<Step>, s': State)
    requires SendsInv(s.windows, s.sends) && Run(env, s, steps, s')
    ensures SendsInv(s'.windows, s'.sends)
    decreases |steps|
  {
    if steps != [] {
      SendsKept(env, s, steps[0]);
      SendsKeep(env, Apply(env, s, steps[0]), steps[1..], s');
    }
  }

  lemma SameAfterWrap(a: nat, i: nat, j: nat)
    requires i <= j
    ensures (a + i) % HYPER_LIMIT == (a + j) % HYPER_LIMIT <==> (j - i) % HYPER_LIMIT == 0
  {
  }

  /**
    In every interleaving two tokens of the acceptor in one context carry the same
    number exactly when a multiple of 2^64 tokens lies between them; fewer than
    that many tokens all carry different numbers.
   */
  lemma SendNumbersRepeatIff(env: Env, s: State, steps: seq<Step>, s': State, id: nat, i: nat, j: nat)
    requires Start(s) && Run(env, s, steps, s') && id in s'.sends && i < j < |s'.sends[id].numbers|
    ensures s'.sends[id].numbers[i] == s'.sends[id].numbers[j] <==> (j - i) % HYPER_LIMIT == 0
    ensures |s'.sends[id].numbers| <= HYPER_LIMIT ==> s'.sends[id].numbers[i] != s'.sends[id].numbers[j]
  {
    SendsKeep(env, s, steps, s');
    assert CountsUp(s'.sends[id]);
    SameAfterWrap(s'.sends[id].numbers[0], i, j);
  }

  /**
    A finished call takes numbers for its reply one by one: one for its verifier, and one
    more if its results are protected.
   */
  lemma SignEnabledIff(env: Env, s: State, tid: nat)
    requires tid in s.threads && s.threads[tid].ctx.id in s.sends && s.threads[tid].progress.Done?
    ensures var t := s.threads[tid];
            Enabled(env, s, Sign(tid)) <==>
            || (t.signed == 0 &&
                (t.progress.outcome.Destroyed? || t.progress.outcome.Garbage? || t.progress.outcome.Proceed?))
            || (t.signed == 1 && t.progress.outcome.Proceed? && t.call.head.cred.service != 1)
  {
  }

  // ------------------------------------------------------------ progress

  /** What a thread does next. */
  function NextStep(tid: nat, t: Thread): Step
  {
    match t.progress
    case Found => CheckExpiry(tid)
    case Fresh => CheckHeader(tid)
    case Authentic => AcceptNumber(tid)
    case Admitted => Finish(tid)
    case Done(_) => Sign(tid)
  }

  /** No thread is ever stuck: until its call is decided, and its reply signed, its next step is possible. */
  lemma NoThreadIsStuck(env: Env, s: State, steps: seq<Step>, s': State, tid: nat)
    requires Start(s) && Run(env, s, steps, s') && tid in s'.threads
    requires !s'.threads[tid].progress.Done? || s'.threads[tid].MaySign()
    ensures Enabled(env, s', NextStep(tid, s'.threads[tid]))
  {
    RunKeeps(env, s, steps, s');
    assert ThreadInv(env, s'.threads[tid], s'.windows, s'.passages);
    SendsKeep(env, s, steps, s');
  }
}
