/** The watcher lease: one row per workspace, taken over only from an owner that is gone. */
module WatcherLease {
  import opened Basics

  const ACTIVE: string := "active"

  datatype Row = Row(
    state: string, token: string, pid: Option<nat>, identity: Option<string>,
    sessionStarted: Option<nat>, heartbeat: Option<nat>, lastSuccess: Option<nat>,
    detail: Option<string>)

  type Rows = map<string, Row>

  /** Identity of the process that has a pid right now, if it can be seen. */
  type Probe = nat -> Option<string>

  datatype Op =
    | Start(workspace: string, token: string, pid: nat, identity: string, now: nat, staleAfter: nat,
            probe: Probe)
    | Heartbeat(workspace: string, token: string, now: nat, success: bool)
    | Finish(workspace: string, token: string, state: string, detail: Option<string>, now: nat)

  /** `now - 2 * stale_after` in saturating 64-bit arithmetic. */
  function StaleBefore(now: nat, staleAfter: nat): nat {
    var doubled := if staleAfter * 2 > U64_MAX then U64_MAX else staleAfter * 2;
    if now < doubled then 0 else now - doubled
  }

  predicate Fresh(row: Row, staleBefore: nat) {
    row.heartbeat.Some? && row.heartbeat.value >= staleBefore
  }

  /** Whether the row's owner keeps others out: its process is seen with the recorded identity,
      or cannot be seen while its heartbeat is fresh. */
  predicate Blocks(row: Row, staleBefore: nat, probe: Probe) {
    row.state == ACTIVE &&
    if row.pid.None? || row.identity.None? then Fresh(row, staleBefore)
    else match probe(row.pid.value)
         case None => Fresh(row, staleBefore)
         case Some(actual) => actual == row.identity.value
  }

  function Owned(rows: Rows, op: Op): bool {
    op.workspace in rows && rows[op.workspace].token == op.token
  }

  /** Whether an operation succeeds; a timestamp SQLite cannot represent always fails. */
  predicate Succeeds(rows: Rows, op: Op) {
    op.now <= I64_MAX &&
    match op
    case Start(w, _, _, _, now, staleAfter, probe) =>
      !(w in rows && Blocks(rows[w], StaleBefore(now, staleAfter), probe))
    case Heartbeat(w, _, _, _) => Owned(rows, op) && rows[w].state == ACTIVE
    case Finish(_, _, _, _, _) => Owned(rows, op)
  }

  function Step(rows: Rows, op: Op): Rows {
    if !Succeeds(rows, op) then rows
    else
      match op
      case Start(w, token, pid, identity, now, _, _) =>
        rows[w := Row(ACTIVE, token, Some(pid), Some(identity), Some(now), Some(now), Some(now), None)]
      case Heartbeat(w, _, now, success) =>
        rows[w := rows[w].(heartbeat := Some(now),
                           lastSuccess := if success then Some(now) else rows[w].lastSuccess)]
      case Finish(w, _, state, detail, now) =>
        rows[w := rows[w].(state := state, heartbeat := Some(now), detail := detail)]
  }

  class LeaseTable {
    var rows: Rows

    constructor ()
      ensures rows == map[]
    {
      rows := map[];
    }

    method StartWatcher(
      workspace: string, token: string, pid: nat, identity: string, now: nat, staleAfter: nat,
      probe: Probe) returns (ok: bool)
      modifies this
      ensures var op := Start(workspace, token, pid, identity, now, staleAfter, probe);
              ok == Succeeds(old(rows), op) && rows == Step(old(rows), op)
    {
      if now > I64_MAX {
        return false;
      }
      var staleBefore := StaleBefore(now, staleAfter);
      if workspace in rows && rows[workspace].state == ACTIVE {
        var row := rows[workspace];
        var alive: bool;
        if row.pid.None? || row.identity.None? {
          alive := Fresh(row, staleBefore);
        } else {
          var actual := probe(row.pid.value);
          alive := if actual.Some? then actual.value == row.identity.value else Fresh(row, staleBefore);
        }
        if alive {
          return false;
        }
      }
      rows := rows[workspace :=
        Row(ACTIVE, token, Some(pid), Some(identity), Some(now), Some(now), Some(now), None)];
      return true;
    }

    method HeartbeatWatcher(workspace: string, token: string, now: nat, success: bool)
      returns (ok: bool)
      modifies this
      ensures var op := Heartbeat(workspace, token, now, success);
              ok == Succeeds(old(rows), op) && rows == Step(old(rows), op)
    {
      if now > I64_MAX || workspace !in rows || rows[workspace].token != token
         || rows[workspace].state != ACTIVE {
        return false;
      }
      var row := rows[workspace].(heartbeat := Some(now));
      if success {
        row := row.(lastSuccess := Some(now));
      }
      rows := rows[workspace := row];
      return true;
    }

    method FinishWatcher(
      workspace: string, token: string, state: string, detail: Option<string>, now: nat)
      returns (ok: bool)
      modifies this
      ensures var op := Finish(workspace, token, state, detail, now);
              ok == Succeeds(old(rows), op) && rows == Step(old(rows), op)
    {
      if now > I64_MAX || workspace !in rows || rows[workspace].token != token {
        return false;
      }
      rows := rows[workspace :=
        rows[workspace].(state := state, heartbeat := Some(now), detail := detail)];
      return true;
    }
  }

  // ---------------------------------------------------------------- whole runs

  /** The table after the first `n` operations of a history, whoever issued them. */
  function After(rows: Rows, ops: seq<Op>, n: nat): Rows
    requires n <= |ops|
  {
    if n == 0 then rows else Step(After(rows, ops, n - 1), ops[n - 1])
  }

  /** The operation at `i` acquired its workspace. */
  predicate Acquires(rows: Rows, ops: seq<Op>, i: nat)
    requires i < |ops|
  {
    ops[i].Start? && Succeeds(After(rows, ops, i), ops[i])
  }

  /** Every watcher has a token of its own. */
  ghost predicate DistinctTokens(ops: seq<Op>) {
    forall i, j :: 0 <= i < j < |ops| && ops[i].Start? && ops[j].Start? ==> ops[i].token != ops[j].token
  }

  /** A start attempt that can still see the holder: its probe returns the holder's identity, or
      returns nothing while the holder's heartbeat is fresh. */
  predicate SeesHolder(row: Row, holder: Op, attempt: Op)
    requires holder.Start? && attempt.Start?
  {
    var seen := attempt.probe(holder.pid);
    if seen.Some? then seen.value == holder.identity
    else Fresh(row, StaleBefore(attempt.now, attempt.staleAfter))
  }

  /** The row of a watcher that holds its workspace. */
  ghost predicate Holds(rows: Rows, holder: Op)
    requires holder.Start?
  {
    && holder.workspace in rows
    && rows[holder.workspace].state == ACTIVE
    && rows[holder.workspace].token == holder.token
    && rows[holder.workspace].pid == Some(holder.pid)
    && rows[holder.workspace].identity == Some(holder.identity)
  }

  /** Between two points the holder does not finish, and other starts can still see it. */
  ghost predicate Undisturbed(rows: Rows, ops: seq<Op>, i: nat, j: nat)
    requires i < j <= |ops| && ops[i].Start?
  {
    forall k :: i < k < j && ops[k].workspace == ops[i].workspace ==>
      && !(ops[k].Finish? && ops[k].token == ops[i].token)
      && (ops[k].Start? && ops[i].workspace in After(rows, ops, k) ==>
            SeesHolder(After(rows, ops, k)[ops[i].workspace], ops[i], ops[k]))
  }

  /**
   Exclusion: once A has started, as long as A does not finish and start attempts see its process
   or its fresh heartbeat, A keeps holding the workspace and no other start succeeds.
   */
  lemma {:induction false} Exclusion(rows: Rows, ops: seq<Op>, i: nat, j: nat)
    requires i < j <= |ops| && Acquires(rows, ops, i)
    requires Undisturbed(rows, ops, i, j)
    ensures Holds(After(rows, ops, j), ops[i])
    ensures forall k :: i < k < j && ops[k].Start? && ops[k].workspace == ops[i].workspace ==>
              !Succeeds(After(rows, ops, k), ops[k])
    decreases j
  {
    if j > i + 1 {
      Exclusion(rows, ops, i, j - 1);
    }
  }

  /** Another watcher took the workspace over. */
  ghost predicate Lost(rows: Rows, holder: Op)
    requires holder.Start?
  {
    holder.workspace in rows && rows[holder.workspace].token != holder.token
  }

  /** A heartbeat or finish of the given watcher. */
  predicate IsLater(op: Op, holder: Op) {
    !op.Start? && op.workspace == holder.workspace && op.token == holder.token
  }

  /**
   Once A has been replaced, every later heartbeat or finish with A's token fails and leaves the
   table unchanged, for the rest of the history.
   */
  lemma {:induction false} ReplacedWatcherIsPowerless(
    rows: Rows, ops: seq<Op>, i: nat, b: nat, j: nat)
    requires i < b < j <= |ops| && DistinctTokens(ops)
    requires Acquires(rows, ops, i) && Acquires(rows, ops, b) && ops[b].workspace == ops[i].workspace
    ensures Lost(After(rows, ops, j), ops[i])
    ensures forall k :: b < k < j && IsLater(ops[k], ops[i]) ==>
              !Succeeds(After(rows, ops, k), ops[k]) && After(rows, ops, k + 1) == After(rows, ops, k)
    decreases j
  {
    if j > b + 1 {
      ReplacedWatcherIsPowerless(rows, ops, i, b, j - 1);
    }
  }

  /** Nobody waits for a dead owner: when its process is visibly another one, or is not seen and
      its heartbeat is stale, the next start takes the workspace. */
  lemma DeadOwnerIsReplaced(rows: Rows, holder: Op, attempt: Op)
    requires holder.Start? && attempt.Start? && Holds(rows, holder)
    requires attempt.workspace == holder.workspace && attempt.now <= I64_MAX
    ensures Succeeds(rows, attempt) <==> !SeesHolder(rows[holder.workspace], holder, attempt)
    ensures !SeesHolder(rows[holder.workspace], holder, attempt) ==> Holds(Step(rows, attempt), attempt)
  {
  }

  /** Workspaces do not affect each other. */
  lemma {:induction false} WorkspacesAreIndependent(rows: Rows, ops: seq<Op>, workspace: string, n: nat)
    requires n <= |ops| && forall k :: 0 <= k < n ==> ops[k].workspace != workspace
    ensures workspace in After(rows, ops, n) <==> workspace in rows
    ensures workspace in rows ==> After(rows, ops, n)[workspace] == rows[workspace]
  {
    if n > 0 {
      WorkspacesAreIndependent(rows, ops, workspace, n - 1);
    }
  }

  // ---------------------------------------------------------------- release

  /** The row of a workspace whose watcher has finished. */
  ghost predicate Released(rows: Rows, op: Op)
    requires op.Finish?
  {
    && op.workspace in rows && rows[op.workspace].token == op.token
    && rows[op.workspace].state != ACTIVE
  }

  /** No start of the workspace succeeded between two points, and nobody finishes as active. */
  ghost predicate NobodyStarted(rows: Rows, ops: seq<Op>, i: nat, j: nat)
    requires i < j <= |ops|
  {
    forall k :: i < k < j && ops[k].workspace == ops[i].workspace ==>
      && (ops[k].Start? ==> !Succeeds(After(rows, ops, k), ops[k]))
      && (ops[k].Finish? ==> ops[k].state != ACTIVE)
  }

  /** A finish by the owner is shown by the row at once: its state, its detail and its time. */
  lemma FinishIsShown(rows: Rows, op: Op)
    requires op.Finish? && Succeeds(rows, op)
    ensures var row := Step(rows, op)[op.workspace];
            && row.state == op.state && row.detail == op.detail && row.heartbeat == Some(op.now)
            && row.token == op.token
    ensures Succeeds(rows, op) <==>
              op.now <= I64_MAX && op.workspace in rows && rows[op.workspace].token == op.token
  {
  }

  /**
   A finish releases the workspace: until the next start, every heartbeat with the finished token
   fails, and any start with a representable timestamp succeeds, whatever its probe says.
   */
  lemma {:induction false} FinishReleases(rows: Rows, ops: seq<Op>, i: nat, j: nat)
    requires i < j <= |ops| && ops[i].Finish? && ops[i].state != ACTIVE
    requires Succeeds(After(rows, ops, i), ops[i]) && NobodyStarted(rows, ops, i, j)
    ensures Released(After(rows, ops, j), ops[i])
    ensures forall op: Op :: op.Heartbeat? && op.workspace == ops[i].workspace ==>
              !Succeeds(After(rows, ops, j), op)
    ensures forall op: Op :: op.Start? && op.workspace == ops[i].workspace && op.now <= I64_MAX ==>
              Succeeds(After(rows, ops, j), op)
    decreases j
  {
    if j > i + 1 {
      FinishReleases(rows, ops, i, j - 1);
    }
  }

  // ---------------------------------------------------------------- staying fresh

  /** A heartbeat counts as fresh for twice the stale interval after it, and no longer. */
  lemma FreshForTwiceTheInterval(row: Row, now: nat, staleAfter: nat)
    requires row.heartbeat.Some? && staleAfter * 2 <= U64_MAX
    ensures Fresh(row, StaleBefore(now, staleAfter)) <==> now <= row.heartbeat.value + staleAfter * 2
  {
  }

  /** A start or heartbeat by the owner renews the lease: for that long no start succeeds that cannot
      see another process in its place. */
  lemma RenewalKeepsOthersOut(rows: Rows, renewal: Op, attempt: Op)
    requires (renewal.Start? || renewal.Heartbeat?) && Succeeds(rows, renewal)
    requires attempt.Start? && attempt.workspace == renewal.workspace && attempt.staleAfter * 2 <= U64_MAX
    requires attempt.now <= renewal.now + attempt.staleAfter * 2
    ensures var row := Step(rows, renewal)[renewal.workspace];
            && row.state == ACTIVE && row.token == renewal.token && row.heartbeat == Some(renewal.now)
            && (row.pid.None? || row.identity.None? || attempt.probe(row.pid.value).None? ==>
                  !Succeeds(Step(rows, renewal), attempt))
  {
  }

  /** What a start and a heartbeat record: the session begins with the start, and only a successful
      pass moves the time of the last success. */
  lemma TimesAreRecorded(rows: Rows, op: Op)
    requires !op.Finish? && Succeeds(rows, op)
    ensures var row := Step(rows, op)[op.workspace];
            if op.Start? then
              row.sessionStarted == Some(op.now) && row.lastSuccess == Some(op.now) && row.detail == None
              && row.pid == Some(op.pid) && row.identity == Some(op.identity)
            else
              var previous := rows[op.workspace];
              && row.lastSuccess == (if op.success then Some(op.now) else previous.lastSuccess)
              && row.sessionStarted == previous.sessionStarted && row.detail == previous.detail
              && row.pid == previous.pid && row.identity == previous.identity
  {
  }
}
