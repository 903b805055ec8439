/**
  The COMPOUND dispatcher: a loop that guards each operation, executes it and
  checks where it left the client.  The operations themselves may do anything.
 */
module Compound {
  import opened Wrappers
  import opened Request

  datatype Status =
    | Nfs4Ok | Delay | Grace | Wrongsec | Rofs | AccessDenied | MinorVersMismatch
    | OtherError(code: nat)

  /** An operation: what the dispatcher looks at of its arguments, or just its number. */
  datatype ArgOp =
    | Open(claimNull: bool, create: bool, shareAccess: nat)
    | Op(number: nat)

  const OP_COMMIT := 5
  const OP_CREATE := 6
  const OP_LINK := 11
  const OP_LOCK := 12
  const OP_LOOKUP := 15
  const OP_LOOKUPP := 16
  const OP_OPEN := 18
  const OP_PUTFH := 22
  const OP_PUTPUBFH := 23
  const OP_PUTROOTFH := 24
  const OP_REMOVE := 28
  const OP_RENAME := 29
  const OP_RESTOREFH := 31
  const OP_SECINFO := 33
  const OP_SETATTR := 34
  const OP_WRITE := 38
  const OP_SECINFO_NO_NAME := 52
  const OP_ALLOCATE := 59
  const OP_COPY := 60

  function OpCode(arg: ArgOp): nat { if arg.Open? then OP_OPEN else arg.number }

  /** `is_mutating`: OPEN when it may create or asks for write access (bit 1). */
  predicate IsMutating(arg: ArgOp)
  {
    match arg
    case Open(_, create, shareAccess) => create || (shareAccess / 2) % 2 == 1
    case Op(n) =>
      n in {OP_WRITE, OP_COMMIT, OP_CREATE, OP_REMOVE, OP_RENAME, OP_LINK, OP_SETATTR, OP_ALLOCATE, OP_COPY}
  }

  predicate GraceDenies(arg: ArgOp)
  {
    match arg
    case Open(claimNull, create, _) => claimNull && create
    case Op(n) => n in {OP_CREATE, OP_REMOVE, OP_RENAME, OP_LOCK, OP_WRITE, OP_SETATTR, OP_LINK}
  }

  predicate PutsFilehandle(n: nat) { n in {OP_PUTFH, OP_PUTPUBFH, OP_PUTROOTFH, OP_RESTOREFH} }

  predicate MovesFilehandle(n: nat) { PutsFilehandle(n) || n in {OP_LOOKUP, OP_LOOKUPP} }

  predicate AsksFlavors(n: nat) { n in {OP_SECINFO, OP_SECINFO_NO_NAME} }

  predicate WrongsecExempt(n: nat) { MovesFilehandle(n) || AsksFlavors(n) }

  datatype ResOp = OpError(op: nat, status: Status) | Answer(content: nat)

  datatype Response = Response(request: Req, result: Option<ResOp>, status: Status)

  /**
    What surrounds the dispatcher.  Operation `i` of the request is executed at
    most once, so behaviours indexed by position cover everything operations,
    limiter, grace flag and permission check can do during one COMPOUND.
   */
  datatype Env = Env(
    execute: (nat, Req) -> Response,
    withinRate: nat -> bool,
    inGrace: nat -> bool,
    permission: (nat, Req) -> Option<Status>)

  // ------------------------------------------------------------ one operation

  datatype Dispatched = Refused(status: Status, reported: bool) | Ran(response: Response)

  /** A PUTFH-like operation followed by one that asks for flavours or looks up. */
  predicate Deferred(ops: seq<ArgOp>, i: nat)
    requires i < |ops|
  {
    && PutsFilehandle(OpCode(ops[i])) && i + 1 < |ops|
    && OpCode(ops[i + 1]) in {OP_SECINFO, OP_SECINFO_NO_NAME, OP_LOOKUP, OP_LOOKUPP}
  }

  function Fail(r: Response, op: nat, status: Status): Response
  {
    r.(result := Some(OpError(op, status)), status := status)
  }

  function CheckClient(before: Req, r: Response, op: nat): Response
  {
    if r.status == Nfs4Ok && r.request.export_ != before.export_ && !AdmitsClient(r.request)
    then Fail(r, op, AccessDenied) else r
  }

  function CheckFlavor(ops: seq<ArgOp>, i: nat, r: Response): Response
    requires i < |ops|
  {
    if r.status == Nfs4Ok && MovesFilehandle(OpCode(ops[i])) && !SecAllowed(r.request) && !Deferred(ops, i)
    then Fail(r, OpCode(ops[i]), Wrongsec) else r
  }

  function Dispatch(env: Env, ops: seq<ArgOp>, i: nat, r: Req): Dispatched
    requires i < |ops|
  {
    if r.limited && !env.withinRate(i) then Refused(Delay, true)
    else if env.inGrace(i) && GraceDenies(ops[i]) then Refused(Grace, false)
    else if !SecAllowed(r) && !WrongsecExempt(OpCode(ops[i])) then Refused(Wrongsec, true)
    else if r.readOnly && IsMutating(ops[i]) then Refused(Rofs, true)
    else if env.permission(i, r).Some? then Refused(env.permission(i, r).value, true)
    else Ran(CheckFlavor(ops, i, CheckClient(r, env.execute(i, r), OpCode(ops[i]))))
  }

  // ------------------------------------------------------------ the loop

  datatype Reply = Reply(request: Req, status: Status, results: seq<ResOp>)

  /** An operation without a result ends the loop with whatever status it has. */
  predicate GoesOn(r: Response) { r.result.Some? && r.status == Nfs4Ok }

  /** The reply of the operations from number `i` on. */
  function Loop(env: Env, ops: seq<ArgOp>, i: nat, r: Req): Reply
    requires i <= |ops|
    decreases |ops| - i
  {
    if i == |ops| then Reply(r, Nfs4Ok, [])
    else
      match Dispatch(env, ops, i, r)
      case Refused(status, reported) => Reply(r, status, if reported then [OpError(OpCode(ops[i]), status)] else [])
      case Ran(response) =>
        if GoesOn(response) then Prefixed(response.result.value, Loop(env, ops, i + 1, response.request))
        else Reply(response.request, response.status, Listed(response.result))
  }

  function Listed(result: Option<ResOp>): seq<ResOp> { if result.Some? then [result.value] else [] }

  function Prefixed(result: ResOp, reply: Reply): Reply { reply.(results := [result] + reply.results) }

  /** The operations executed, each with the request it met and the response after the checks. */
  datatype Execution = Execution(index: nat, before: Req, after: Response)

  function Trace(env: Env, ops: seq<ArgOp>, i: nat, r: Req): seq<Execution>
    requires i <= |ops|
    decreases |ops| - i
  {
    if i == |ops| then []
    else
      match Dispatch(env, ops, i, r)
      case Refused(_, _) => []
      case Ran(response) =>
        [Execution(i, r, response)] + if GoesOn(response) then Trace(env, ops, i + 1, response.request) else []
  }

  // ------------------------------------------------------------ the shape of a run

  /** Execution `k` of a run from position `i` in request `r`. */
  lemma {:induction false} TraceStep(env: Env, ops: seq<ArgOp>, i: nat, r: Req, k: nat)
    requires i <= |ops| && k < |Trace(env, ops, i, r)|
    ensures var t := Trace(env, ops, i, r);
            && t[k].index == i + k < |ops|
            && Dispatch(env, ops, i + k, t[k].before) == Ran(t[k].after)
            && (k == 0 ==> t[k].before == r)
            && (k + 1 < |t| ==> GoesOn(t[k].after) && t[k + 1].before == t[k].after.request)
    decreases |ops| - i
  {
    var first := Trace(env, ops, i, r)[0];
    var rest := Trace(env, ops, i, r)[1..];
    if k > 0 {
      TraceStep(env, ops, i + 1, first.after.request, k - 1);
    } else if |rest| > 0 {
      TraceStep(env, ops, i + 1, first.after.request, 0);
    }
  }

  /** The results are those of the executed operations, in order, and one error for a reported refusal. */
  function ResultsOf(t: seq<Execution>): seq<ResOp>
  {
    if t == [] then [] else Listed(t[0].after.result) + ResultsOf(t[1..])
  }

  /** How the loop ended, given what it executed. */
  predicate EndsBy(env: Env, ops: seq<ArgOp>, i: nat, r: Req, reply: Reply)
    requires i <= |ops|
  {
    var t := Trace(env, ops, i, r);
    var n := i + |t|;
    var at := if t == [] then r else t[|t| - 1].after.request;
    && reply.request == at && n <= |ops|
    && if t != [] && !GoesOn(t[|t| - 1].after) then
         reply.status == t[|t| - 1].after.status && reply.results == ResultsOf(t)
       else if n == |ops| then reply.status == Nfs4Ok && reply.results == ResultsOf(t)
       else
         && Dispatch(env, ops, n, at).Refused?
         && reply.status == Dispatch(env, ops, n, at).status
         && reply.results == ResultsOf(t) +
              if Dispatch(env, ops, n, at).reported then [OpError(OpCode(ops[n]), reply.status)] else []
  }

  lemma ResultsCons(e: Execution, rest: seq<Execution>)
    ensures ResultsOf([e] + rest) == Listed(e.after.result) + ResultsOf(rest)
  {
    assert ([e] + rest)[1..] == rest;
  }

  lemma EndsByShifts(env: Env, ops: seq<ArgOp>, i: nat, r: Req, response: Response)
    requires i < |ops| && Dispatch(env, ops, i, r) == Ran(response) && GoesOn(response)
    requires EndsBy(env, ops, i + 1, response.request, Loop(env, ops, i + 1, response.request))
    ensures EndsBy(env, ops, i, r, Loop(env, ops, i, r))
  {
    var rest := Trace(env, ops, i + 1, response.request);
    var t := Trace(env, ops, i, r);
    assert t == [Execution(i, r, response)] + rest;
    ResultsCons(Execution(i, r, response), rest);
    if rest != [] {
      assert t[|t| - 1] == rest[|rest| - 1];
    }
  }

  /**
    A COMPOUND executes a prefix of its operations: all but the last executed
    one succeed, and the reply says how it ended and what each one answered.
   */
  lemma {:induction false} RunsPrefix(env: Env, ops: seq<ArgOp>, i: nat, r: Req)
    requires i <= |ops|
    ensures EndsBy(env, ops, i, r, Loop(env, ops, i, r))
    decreases |ops| - i
  {
    if i < |ops| {
      var d := Dispatch(env, ops, i, r);
      if d.Ran? {
        if GoesOn(d.response) {
          RunsPrefix(env, ops, i + 1, d.response.request);
          EndsByShifts(env, ops, i, r, d.response);
        } else {
          var t := Trace(env, ops, i, r);
          assert t == [Execution(i, r, d.response)] && t[1..] == [];
        }
      }
    }
  }

  /** Success means that all ran and succeeded, or that the last executed one succeeded without a result. */
  lemma OkMeansAllRan(env: Env, ops: seq<ArgOp>, r: Req)
    requires forall j, q :: env.permission(j, q) != Some(Nfs4Ok)
    ensures var t := Trace(env, ops, 0, r);
            Loop(env, ops, 0, r).status == Nfs4Ok <==>
            || (|t| == |ops| && (t == [] || t[|t| - 1].after.status == Nfs4Ok))
            || (t != [] && t[|t| - 1].after.status == Nfs4Ok && t[|t| - 1].after.result.None?)
  {
    RunsPrefix(env, ops, 0, r);
  }

  // ------------------------------------------------------------ what every execution respects

  /**
    Whatever the operations do: no operation but the filehandle-moving and
    SECINFO ones runs under a refused flavour, none that mutates runs on a
    read-only export, none without its permission or above the rate of a limited
    export, and after an export change the next one is dispatched only if the
    cached export admits the client.
   */
  lemma ExecutionsGuarded(env: Env, ops: seq<ArgOp>, r: Req, k: nat)
    requires k < |Trace(env, ops, 0, r)|
    ensures var t := Trace(env, ops, 0, r);
            && k < |ops| && t[k].index == k
            && (SecAllowed(t[k].before) || WrongsecExempt(OpCode(ops[k])))
            && !(t[k].before.readOnly && IsMutating(ops[k]))
            && (env.inGrace(k) ==> !GraceDenies(ops[k]))
            && (t[k].before.limited ==> env.withinRate(k))
            && env.permission(k, t[k].before).None?
            && (k > 0 && t[k].before.export_ != t[k - 1].before.export_ ==> AdmitsClient(t[k].before))
  {
    TraceStep(env, ops, 0, r, k);
    if k > 0 {
      TraceStep(env, ops, 0, r, k - 1);
    }
  }

  /**
    The operations by their numbers: those that mutate, those denied in grace, and those
    exempt from the flavour check.
   */
  lemma OperationNumbers(n: nat, claimNull: bool, create: bool, shareAccess: nat)
    ensures IsMutating(Op(n)) <==>
              n == 5 || n == 6 || n == 11 || n == 28 || n == 29 || n == 34 || n == 38 || n == 59 || n == 60
    ensures IsMutating(Open(claimNull, create, shareAccess)) <==> create || shareAccess % 4 >= 2
    ensures GraceDenies(Op(n)) <==> n == 6 || n == 11 || n == 12 || n == 28 || n == 29 || n == 34 || n == 38
    ensures GraceDenies(Open(claimNull, create, shareAccess)) <==> claimNull && create
    ensures WrongsecExempt(n) <==>
              n == 15 || n == 16 || n == 22 || n == 23 || n == 24 || n == 31 || n == 33 || n == 52
    ensures OpCode(Open(claimNull, create, shareAccess)) == 18 && OpCode(Op(n)) == n
  {
  }

  /**
    The first guard that fails, in the order of the dispatcher, with the status it
    gives and whether the operation is listed with it: limiter, grace, flavour,
    read-only export, permission.
   */
  predicate Stops(env: Env, arg: ArgOp, n: nat, at: Req, status: Status, reported: bool)
  {
    var slow, grace := at.limited && !env.withinRate(n), env.inGrace(n) && GraceDenies(arg);
    var refused, readOnly := !SecAllowed(at) && !WrongsecExempt(OpCode(arg)), at.readOnly && IsMutating(arg);
    || (slow && status == Delay && reported)
    || (!slow && grace && status == Grace && !reported)
    || (!slow && !grace && refused && status == Wrongsec && reported)
    || (!slow && !grace && !refused && readOnly && status == Rofs && reported)
    || (!slow && !grace && !refused && !readOnly && env.permission(n, at) == Some(status) && reported)
  }

  /**
    A run that ends before its operations do, with all it executed gone well, was
    stopped by the first guard that failed: nothing after it ran, and the reply
    is that guard's status with the results so far and, but in grace, the error.
   */
  lemma RefusalReported(env: Env, ops: seq<ArgOp>, r: Req) returns (at: Req, status: Status, reported: bool)
    requires var t := Trace(env, ops, 0, r); |t| < |ops| && (t == [] || GoesOn(t[|t| - 1].after))
    ensures var t, reply := Trace(env, ops, 0, r), Loop(env, ops, 0, r);
            && at == (if t == [] then r else t[|t| - 1].after.request)
            && Stops(env, ops[|t|], |t|, at, status, reported)
            && reply == Reply(at, status, ResultsOf(t) + if reported then [OpError(OpCode(ops[|t|]), status)] else [])
  {
    var t := Trace(env, ops, 0, r);
    RunsPrefix(env, ops, 0, r);
    at := if t == [] then r else t[|t| - 1].after.request;
    var d := Dispatch(env, ops, |t|, at);
    status, reported := d.status, d.reported;
  }

  /** What was executed was stopped by no guard, so an operation the loop comes to runs exactly when none stops it. */
  lemma ExecutedNotStopped(env: Env, ops: seq<ArgOp>, r: Req, k: nat, status: Status, reported: bool)
    requires k < |Trace(env, ops, 0, r)|
    ensures k < |ops| && !Stops(env, ops[k], k, Trace(env, ops, 0, r)[k].before, status, reported)
  {
    ExecutionsGuarded(env, ops, r, k);
  }

  /** The operation met the request the one before it left, or the first one. */
  lemma ExecutionsFollow(env: Env, ops: seq<ArgOp>, r: Req, k: nat)
    requires k < |Trace(env, ops, 0, r)|
    ensures var t := Trace(env, ops, 0, r);
            t[k].before == if k == 0 then r else env.execute(k - 1, t[k - 1].before).request
  {
    TraceStep(env, ops, 0, r, k);
    if k > 0 {
      TraceStep(env, ops, 0, r, k - 1);
      RequestAfter(env, ops, r, k - 1);
    }
  }

  /**
    What the checks make of an operation's own answer: ACCESS when it went well on
    another export that does not admit the client, WRONGSEC when it was a move
    that ended where the flavour is refused and the next operation is not one to
    ask or look up after a PUTFH-like one, and else the answer itself.
   */
  lemma AnswersChecked(env: Env, ops: seq<ArgOp>, r: Req, k: nat)
    requires k < |Trace(env, ops, 0, r)|
    ensures k < |ops|
    ensures var e, n := Trace(env, ops, 0, r)[k], OpCode(ops[k]);
            var own, next := env.execute(k, e.before), if k + 1 < |ops| then OpCode(ops[k + 1]) else 0;
            var strange := own.request.export_ != e.before.export_ && !AdmitsClient(own.request);
            var refused := n in {15, 16, 22, 23, 24, 31} && !SecAllowed(own.request)
                           && !(n in {22, 23, 24, 31} && next in {15, 16, 33, 52});
            && (own.status != Nfs4Ok ==> e.after == own)
            && (own.status == Nfs4Ok && strange ==>
                  e.after == Response(own.request, Some(OpError(n, AccessDenied)), AccessDenied))
            && (own.status == Nfs4Ok && !strange && refused ==>
                  e.after == Response(own.request, Some(OpError(n, Wrongsec)), Wrongsec))
            && (own.status == Nfs4Ok && !strange && !refused ==> e.after == own)
  {
    TraceStep(env, ops, 0, r, k);
  }

  /** Every result stands in its place. */
  lemma {:induction false} ResultsStand(env: Env, ops: seq<ArgOp>, i: nat, r: Req, k: nat)
    requires i <= |ops| && k < |Trace(env, ops, i, r)| && Trace(env, ops, i, r)[k].after.result.Some?
    ensures var t, reply := Trace(env, ops, i, r), Loop(env, ops, i, r);
            k < |reply.results| && reply.results[k] == t[k].after.result.value
    decreases |ops| - i
  {
    if k > 0 {
      var response := Dispatch(env, ops, i, r).response;
      ResultsStand(env, ops, i + 1, response.request, k - 1);
    }
  }

  /**
    An operation that leaves the client where its flavour is refused lets the
    next one run only if it was not a move, or was PUTFH-like with SECINFO or
    a lookup next.
   */
  lemma RefusedFlavorOnlyDeferred(env: Env, ops: seq<ArgOp>, r: Req, k: nat)
    requires k + 1 < |Trace(env, ops, 0, r)| && k + 1 < |ops|
    requires !SecAllowed(Trace(env, ops, 0, r)[k + 1].before)
    ensures MovesFilehandle(OpCode(ops[k])) ==> Deferred(ops, k)
    ensures WrongsecExempt(OpCode(ops[k + 1]))
  {
    TraceStep(env, ops, 0, r, k);
    TraceStep(env, ops, 0, r, k + 1);
  }

  // ------------------------------------------------------------ over a fixed export table

  /** The operations change the cached export only by switching exports, and leave the flavour alone. */
  ghost predicate Switches(table: Table, before: Req, after: Req)
  {
    && after.flavor == before.flavor
    && exists ids ::
         var s := SetExports(table, before, ids);
         after.export_ == s.export_ && after.access == s.access && after.readOnly == s.readOnly
  }

  ghost predicate OnlySwitch(table: Table, env: Env)
  {
    forall i, r :: Switches(table, r, env.execute(i, r).request)
  }

  /** What is cached is the table's, and the current export, if known, admits the client. */
  predicate Entitled(table: Table, r: Req)
  {
    && Cached(table, r)
    && (r.export_.Some? && r.export_.value != PSEUDO_ROOT && r.export_.value in table ==>
        table[r.export_.value].access.admits)
  }

  lemma StepEntitled(table: Table, env: Env, ops: seq<ArgOp>, i: nat, r: Req)
    requires OnlySwitch(table, env) && Entitled(table, r) && i < |ops|
    requires Dispatch(env, ops, i, r).Ran? && GoesOn(Dispatch(env, ops, i, r).response)
    ensures Entitled(table, Dispatch(env, ops, i, r).response.request)
    ensures Dispatch(env, ops, i, r).response.request.flavor == r.flavor
  {
    var raw := env.execute(i, r);
    assert Switches(table, r, raw.request);
    var ids :| var s := SetExports(table, r, ids);
               raw.request.export_ == s.export_ && raw.request.access == s.access && raw.request.readOnly == s.readOnly;
    SwitchesKeepCached(table, r, ids);
  }

  lemma {:induction false} RunEntitled(table: Table, env: Env, ops: seq<ArgOp>, i: nat, r: Req, k: nat)
    requires OnlySwitch(table, env) && Entitled(table, r) && i <= |ops| && k < |Trace(env, ops, i, r)|
    ensures Entitled(table, Trace(env, ops, i, r)[k].before)
    ensures Trace(env, ops, i, r)[k].before.flavor == r.flavor
    decreases k
  {
    if k > 0 {
      var response := Dispatch(env, ops, i, r).response;
      StepEntitled(table, env, ops, i, r);
      RunEntitled(table, env, ops, i + 1, response.request, k - 1);
    }
  }

  /**
    Over a fixed export table, from a fresh request: every operation executed on
    an export of the table runs for a client that export admits, in a flavour
    it accepts unless it is exempt, and does not mutate it if it is read-only.
   */
  lemma ExecutionsEntitled(table: Table, env: Env, ops: seq<ArgOp>, flavor: SecFlavor, k: nat)
    requires OnlySwitch(table, env) && k < |Trace(env, ops, 0, NewReq(flavor))|
    ensures var before := Trace(env, ops, 0, NewReq(flavor))[k].before;
            k < |ops| &&
            (before.export_.Some? && before.export_.value in table && before.export_.value != PSEUDO_ROOT ==>
               var e := table[before.export_.value];
               && e.access.admits
               && (AllowsFlavor(e.access, flavor) || WrongsecExempt(OpCode(ops[k])))
               && !(e.readOnly && IsMutating(ops[k])))
            && (before.export_ == Some(PSEUDO_ROOT) ==> flavor == Sys || WrongsecExempt(OpCode(ops[k])))
  {
    RunEntitled(table, env, ops, 0, NewReq(flavor), k);
    ExecutionsGuarded(env, ops, NewReq(flavor), k);
  }

  // ------------------------------------------------------------ SAVEFH and RESTOREFH in a run

  const NFS4ERR_NOFILEHANDLE := 10020
  const NFS4ERR_RESTOREFH := 10030

  /** SAVEFH */
  function SaveResponse(r: Req): Response
  {
    if r.filehandle.Some? then Response(SaveFh(r), Some(Answer(0)), Nfs4Ok)
    else Response(r, Some(Answer(NFS4ERR_NOFILEHANDLE)), OtherError(NFS4ERR_NOFILEHANDLE))
  }

  /** RESTOREFH */
  function RestoreResponse(table: Table, r: Req): Response
  {
    if RestoreFh(table, r).1 then Response(RestoreFh(table, r).0, Some(Answer(0)), Nfs4Ok)
    else Response(r, Some(Answer(NFS4ERR_RESTOREFH)), OtherError(NFS4ERR_RESTOREFH))
  }

  /** `save_filehandle` of the server: it succeeds exactly when a RESTOREFH right after it would. */
  method SaveOperation(live: LiveRequest) returns (response: Response)
    modifies live`saved
    ensures response == SaveResponse(old(live.AsValue())) && response.request == live.AsValue()
    ensures response.status == Nfs4Ok ==> forall table: Table :: RestoreResponse(table, live.AsValue()).status == Nfs4Ok
  {
    if live.filehandle.Some? {
      live.SaveFilehandle();
      return Response(live.AsValue(), Some(Answer(0)), Nfs4Ok);
    }
    return Response(live.AsValue(), Some(Answer(NFS4ERR_NOFILEHANDLE)), OtherError(NFS4ERR_NOFILEHANDLE));
  }

  /**
    `restore_filehandle` of the server: what is cached stays the table's, and the current
    handle becomes the saved one.
   */
  method RestoreOperation(table: Table, live: LiveRequest) returns (response: Response)
    modifies live
    ensures response == RestoreResponse(table, old(live.AsValue())) && response.request == live.AsValue()
    ensures response.status == Nfs4Ok <==> old(live.saved).Some?
    ensures response.status == Nfs4Ok ==>
              live.filehandle == old(live.saved) && live.currentExport == Some(ExportOf(live.filehandle.value))
    ensures Cached(table, old(live.AsValue())) ==> Cached(table, live.AsValue())
  {
    var ok := live.RestoreFilehandle(table);
    if ok {
      return Response(live.AsValue(), Some(Answer(0)), Nfs4Ok);
    }
    return Response(live.AsValue(), Some(Answer(NFS4ERR_RESTOREFH)), OtherError(NFS4ERR_RESTOREFH));
  }

  /** Operation `i` leaves the saved filehandle alone. */
  ghost predicate KeepsSaved(env: Env, i: nat)
  {
    forall r :: env.execute(i, r).request.saved == r.saved
  }

  lemma {:induction false} SavedSurvives(env: Env, ops: seq<ArgOp>, r: Req, a: nat, b: nat)
    requires a < b < |Trace(env, ops, 0, r)|
    requires forall j :: a < j < b ==> KeepsSaved(env, j)
    ensures Trace(env, ops, 0, r)[b].before.saved == Trace(env, ops, 0, r)[a].after.request.saved
    decreases b
  {
    TraceStep(env, ops, 0, r, b - 1);
    if a < b - 1 {
      SavedSurvives(env, ops, r, a, b - 1);
      assert KeepsSaved(env, b - 1);
    }
  }

  /**
    In every run over a fixed table: if operation `a` is SAVEFH, operation `b`
    RESTOREFH and nothing between saved another handle, then the request is back
    on the same handle, export and cached export, however many exports it went
    through, and RESTOREFH fails only for a flavour that export refuses.
   */
  lemma RestoreUndoesRun(table: Table, env: Env, ops: seq<ArgOp>, flavor: SecFlavor, a: nat, b: nat, fh: Filehandle)
    requires OnlySwitch(table, env) && a < b < |Trace(env, ops, 0, NewReq(flavor))|
    requires forall q :: env.execute(a, q) == SaveResponse(q)
    requires forall q :: env.execute(b, q) == RestoreResponse(table, q)
    requires forall j :: a < j < b ==> KeepsSaved(env, j)
    requires var saved := Trace(env, ops, 0, NewReq(flavor))[a].before;
             saved.filehandle == Some(fh) && saved.export_ == Some(ExportOf(fh)) && Known(table, ExportOf(fh))
    ensures var t := Trace(env, ops, 0, NewReq(flavor));
            var saved, back := t[a].before, t[b].after.request;
            && back.filehandle == saved.filehandle && back.export_ == saved.export_
            && back.access == saved.access && back.readOnly == saved.readOnly
            && (t[b].after.status == Nfs4Ok || (t[b].after.status == Wrongsec && !SecAllowed(saved)))
  {
    var r := NewReq(flavor);
    var t := Trace(env, ops, 0, r);
    SavedSurvives(env, ops, r, a, b);
    RunEntitled(table, env, ops, 0, r, a);
    RunEntitled(table, env, ops, 0, r, b);
    RequestAfter(env, ops, r, a);
    RequestAfter(env, ops, r, b);
    RestoreUndoesMoves(table, t[a].before, fh, t[b].before);
    TraceStep(env, ops, 0, r, b);
    RestoredIsAdmitted(table, env, ops, b, t[a].before, t[b].before, t[b].after);
  }

  /** Back on an export that admitted the client before, only the flavour can still be refused. */
  lemma RestoredIsAdmitted(table: Table, env: Env, ops: seq<ArgOp>, i: nat, saved: Req, r: Req, response: Response)
    requires i < |ops| && Dispatch(env, ops, i, r) == Ran(response) && env.execute(i, r) == RestoreResponse(table, r)
    requires RestoreFh(table, r).1 && Entitled(table, saved) && r.flavor == saved.flavor
    requires RestoreFh(table, r).0.export_ == saved.export_ && RestoreFh(table, r).0.access == saved.access
    requires saved.export_.Some? && Known(table, saved.export_.value)
    ensures response.status == Nfs4Ok || (response.status == Wrongsec && !SecAllowed(saved))
  {
  }

  lemma RequestAfter(env: Env, ops: seq<ArgOp>, r: Req, k: nat)
    requires k < |Trace(env, ops, 0, r)|
    ensures var t := Trace(env, ops, 0, r);
            t[k].after.request == env.execute(k, t[k].before).request
  {
    TraceStep(env, ops, 0, r, k);
    var t := Trace(env, ops, 0, r);
    ChecksKeepRequest(env, ops, k, t[k].before, t[k].after);
  }

  /** The checks after an operation change its answer, never where it left the request. */
  lemma ChecksKeepRequest(env: Env, ops: seq<ArgOp>, i: nat, r: Req, response: Response)
    requires i < |ops| && Dispatch(env, ops, i, r) == Ran(response)
    ensures response.request == env.execute(i, r).request
  {
  }

  // ------------------------------------------------------------ the program's loop

  datatype Args = Args(tag: string, minorVersion: nat, ops: seq<ArgOp>)

  /**
    `compound`: the reply echoes the tag; arguments that are missing or of an
    unsupported minor version execute nothing; else a prefix is executed and the
    reply says how it ended, and is OK only if nothing was refused.
   */
  method HandleCompound(env: Env, args: Option<Args>, request: Req) returns (reply: Reply, tag: string)
    ensures tag == if args.Some? then args.value.tag else ""
    ensures args.None? || args.value.minorVersion > 1 ==> reply.request == request && reply.results == []
    ensures args.Some? && args.value.minorVersion > 1 ==> reply.status == MinorVersMismatch
    ensures args.None? ==> reply.status == Nfs4Ok
    ensures args.Some? && args.value.minorVersion <= 1 ==> EndsBy(env, args.value.ops, 0, request, reply)
    ensures OwnAnswers(env) ==> ErrorEnds(reply)
  {
    tag := "";
    if args.None? {
      return Reply(request, Nfs4Ok, []), tag;
    }
    tag := args.value.tag;
    if args.value.minorVersion > 1 {
      return Reply(request, MinorVersMismatch, []), tag;
    }
    reply := RunLoop(env, args.value.ops, request);
    RunsPrefix(env, args.value.ops, 0, request);
    if OwnAnswers(env) {
      LastErrorIsStatus(env, args.value.ops, 0, request);
    }
  }

  /** The operations answer for themselves; errors in place of an answer come from the dispatcher alone. */
  ghost predicate OwnAnswers(env: Env)
  {
    forall j, q :: env.execute(j, q).result.Some? ==> env.execute(j, q).result.value.Answer?
  }

  /** An error the dispatcher reports is the last result, and its status the reply's. */
  predicate ErrorEnds(reply: Reply)
  {
    forall n :: 0 <= n < |reply.results| && reply.results[n].OpError? ==>
      n == |reply.results| - 1 && reply.results[n].status == reply.status
  }

  lemma {:induction false} LastErrorIsStatus(env: Env, ops: seq<ArgOp>, i: nat, r: Req)
    requires i <= |ops| && OwnAnswers(env)
    ensures ErrorEnds(Loop(env, ops, i, r))
    decreases |ops| - i
  {
    if i < |ops| {
      var d := Dispatch(env, ops, i, r);
      if d.Ran? && GoesOn(d.response) {
        var rest, reply := Loop(env, ops, i + 1, d.response.request), Loop(env, ops, i, r);
        LastErrorIsStatus(env, ops, i + 1, d.response.request);
        assert d.response.result == env.execute(i, r).result;
        forall n | 0 <= n < |reply.results| && reply.results[n].OpError?
          ensures n == |reply.results| - 1 && reply.results[n].status == reply.status
        {
          assert n > 0 && reply.results[n] == rest.results[n - 1];
        }
      }
    }
  }

  function Before(results: seq<ResOp>, reply: Reply): Reply { reply.(results := results + reply.results) }

  lemma BeforeOne(results: seq<ResOp>, one: ResOp, reply: Reply)
    ensures Before(results, Prefixed(one, reply)) == Before(results + [one], reply)
  {
    assert results + ([one] + reply.results) == (results + [one]) + reply.results;
  }

  method RunLoop(env: Env, ops: seq<ArgOp>, request: Req) returns (reply: Reply)
    ensures reply == Loop(env, ops, 0, request)
  {
    var r := request;
    var results: seq<ResOp> := [];
    assert [] + Loop(env, ops, 0, r).results == Loop(env, ops, 0, r).results;
    for i := 0 to |ops|
      invariant Loop(env, ops, 0, request) == Before(results, Loop(env, ops, i, r))
    {
      var op := OpCode(ops[i]);
      if r.limited && !env.withinRate(i) {
        return Reply(r, Delay, results + [OpError(op, Delay)]);
      }
      if env.inGrace(i) && GraceDenies(ops[i]) {
        assert results + [] == results;
        return Reply(r, Grace, results);
      }
      if !SecAllowed(r) && !WrongsecExempt(op) {
        return Reply(r, Wrongsec, results + [OpError(op, Wrongsec)]);
      }
      if r.readOnly && IsMutating(ops[i]) {
        return Reply(r, Rofs, results + [OpError(op, Rofs)]);
      }
      var denied := env.permission(i, r);
      if denied.Some? {
        return Reply(r, denied.value, results + [OpError(op, denied.value)]);
      }
      var response := Execute(env, ops, i, r);
      if response.result.None? {
        assert results + [] == results;
        return Reply(response.request, response.status, results);
      }
      BeforeOne(results, response.result.value, Loop(env, ops, i + 1, response.request));
      results := results + [response.result.value];
      if response.status != Nfs4Ok {
        return Reply(response.request, response.status, results);
      }
      r := response.request;
    }
    assert results + [] == results;
    return Reply(r, Nfs4Ok, results);
  }

  /** The operation and the two checks after it. */
  method Execute(env: Env, ops: seq<ArgOp>, i: nat, r: Req) returns (response: Response)
    requires i < |ops|
    ensures response == CheckFlavor(ops, i, CheckClient(r, env.execute(i, r), OpCode(ops[i])))
  {
    var op := OpCode(ops[i]);
    var exportBefore := r.export_;
    response := env.execute(i, r);
    if response.status == Nfs4Ok && response.request.export_ != exportBefore && !AdmitsClient(response.request) {
      response := response.(result := Some(OpError(op, AccessDenied)), status := AccessDenied);
    }
    if response.status == Nfs4Ok && MovesFilehandle(op) && !SecAllowed(response.request) {
      var deferred := PutsFilehandle(op) && i + 1 < |ops| &&
        (AsksFlavors(OpCode(ops[i + 1])) || OpCode(ops[i + 1]) in {OP_LOOKUP, OP_LOOKUPP});
      if !deferred {
        response := response.(result := Some(OpError(op, Wrongsec)), status := Wrongsec);
      }
    }
  }
}
