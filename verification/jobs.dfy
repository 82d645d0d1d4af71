/**
 * What the two scheduled jobs share: the injected outside world (page
 * fetches and database faults) and the effect trace a job run returns
 * together with the store it leaves behind.
 */
module Jobs {
  import opened Results
  import opened Store

  /** The outcome of `GetURL` followed by `GetBody` on one address. */
  datatype Fetch<D> = UrlError(cause: string) | BodyError(cause: string) | Page(doc: D)

  /** The database faults a run meets: on connecting, on the live query, and
      on the `k`-th write statement of the run. */
  datatype Faults = Faults(connect: Option<string>, query: Option<string>, exec: seq<ExecFault>)

  /** The fault the `k`-th write meets; writes past the list succeed. */
  function ExecAt(f: Faults, k: nat): ExecFault
  {
    if k < |f.exec| then f.exec[k] else NoFault
  }

  /** The `n` writes from index `from` on all succeed. */
  predicate WritesClean(f: Faults, from: nat, n: nat)
  {
    forall j :: from <= j < from + n ==> ExecAt(f, j) == NoFault
  }

  /** Faults that let every database step succeed. */
  function NoFaults(): Faults
  {
    Faults(None, None, [])
  }

  /** One observable step. `FetchPage` records that a request was issued;
      the database events record statements that were applied. */
  datatype Event =
    | FetchPage(url: string)
    | Connect
    | QueryLive(count: nat)
    | InsertMatch(row: MatchRow)
    | InsertScore(matchId: int)
    | Update(update: ScoreUpdate)
    | Sleep(seconds: nat)
    | Fail(error: Error)

  /** A finished run: the store it leaves and what it did, in order. */
  datatype Run = Run(store: Store, trace: seq<Event>)
  {
    /** The error the job function returns: the one its last step failed
        with, or nil. */
    function Err(): Option<Error>
    {
      if |trace| > 0 && trace[|trace| - 1].Fail? then Some(trace[|trace| - 1].error) else None
    }
  }

  /** The error a failed fetch is returned as. */
  function FetchError<D>(f: Fetch<D>): Error
    requires !f.Page?
  {
    match f
    case UrlError(c) => UrlFailed(c)
    case BodyError(c) => BodyFailed(c)
  }

  /** Only the last step of a run may fail. */
  predicate FailOnlyLast(trace: seq<Event>)
  {
    forall i :: 0 <= i < |trace| - 1 ==> !trace[i].Fail?
  }

  /** Steps without failures in front of a trace that fails only last
      keep it failing only last. */
  lemma FailOnlyLastConcat(a: seq<Event>, b: seq<Event>)
    requires forall i :: 0 <= i < |a| ==> !a[i].Fail?
    requires FailOnlyLast(b)
    ensures FailOnlyLast(a + b)
  {
    var c := a + b;
    forall i | 0 <= i < |c| - 1
      ensures !c[i].Fail?
    {
      if i >= |a| {
        assert c[i] == b[i - |a|];
      }
    }
  }

  /** When only the last step may fail, a run returns an error exactly when
      its trace holds a failure. */
  lemma ErrOfFailOnlyLast(r: Run)
    requires FailOnlyLast(r.trace)
    ensures r.Err().None? <==> forall i :: 0 <= i < |r.trace| ==> !r.trace[i].Fail?
  {
  }

  /** One turn of a job's loop: the store and events after it, and whether
      the loop goes on. */
  datatype Round = Round(store: Store, events: seq<Event>, ok: bool)

  /** The error a write that meets fault `f` makes the job return. */
  function WriteError(f: ExecFault): Error
    requires !f.NoFault?
  {
    if f.ExecFails? then ExecFailed(f.cause) else ExecResultFailed(f.cause)
  }

  /** The events of the write that meets fault `f`: the statement, if it
      was applied, then the failure. */
  function FaultEvents(f: ExecFault, applied: Event): (r: seq<Event>)
    requires !f.NoFault?
    ensures |r| > 0 && r[|r| - 1] == Fail(WriteError(f))
  {
    (if f.ResultFails? then [applied] else []) + [Fail(WriteError(f))]
  }

  /** The events of one write: the applied statement, unless `Exec` itself
      failed, then the failure, if any. */
  function WriteEvents(fault: ExecFault, e: Exec, applied: Event): seq<Event>
  {
    (if fault.ExecFails? then [] else [applied]) + (match e.err case Some(err) => [Fail(err)] case None => [])
  }
}
