/** Fixed-window rate limiting over a bounded map of clients. */
module RateLimiter {
  import opened Basics

  const RATE_LIMIT_REQUESTS: nat := 60
  /** One minute, in nanoseconds. */
  const RATE_LIMIT_WINDOW: nat := 60_000_000_000
  const MAX_RATE_LIMIT_CLIENTS: nat := 4096

  type Address = string

  datatype Window = Window(started: nat, requests: nat)

  type Clients = map<Address, Window>

  /** `duration_since`, which is zero for a later instant. */
  function Since(now: nat, started: nat): nat {
    if now < started then 0 else now - started
  }

  function Live(clients: Clients, now: nat): Clients {
    map c | c in clients && Since(now, clients[c].started) < RATE_LIMIT_WINDOW :: clients[c]
  }

  predicate IsOldest(clients: Clients, victim: Address) {
    victim in clients && forall c :: c in clients ==> clients[victim].started <= clients[c].started
  }

  /** One call: who asked when, whether it was admitted, and whom it evicted (ties are arbitrary). */
  datatype Call = Call(now: nat, client: Address, admitted: bool, victim: Option<Address>)

  ghost predicate Checked(clients: Clients, call: Call, after: Clients) {
    var live := Live(clients, call.now);
    if call.client in live then
      && call.victim.None?
      && (call.admitted <==> live[call.client].requests < RATE_LIMIT_REQUESTS)
      && after == if call.admitted
                  then live[call.client := Window(live[call.client].started, live[call.client].requests + 1)]
                  else live
    else
      && call.admitted
      && (call.victim.Some? <==> |live| >= MAX_RATE_LIMIT_CLIENTS)
      && (call.victim.Some? ==> IsOldest(live, call.victim.value))
      && var base := if call.victim.Some? then live - {call.victim.value} else live;
         after == base[call.client := Window(call.now, 1)]
  }

  class Limiter {
    var clients: Clients

    constructor ()
      ensures clients == map[]
    {
      clients := map[];
    }

    /** `RateLimiter::check` with the clock sampled by the caller. */
    method Check(now: nat, client: Address) returns (admitted: bool, victim: Option<Address>)
      modifies this
      ensures Checked(old(clients), Call(now, client, admitted, victim), clients)
      ensures old(|clients|) <= MAX_RATE_LIMIT_CLIENTS ==> |clients| <= MAX_RATE_LIMIT_CLIENTS
    {
      var live := Live(clients, now);
      LiveIsSmaller(clients, now);
      hide Live, IsOldest;
      victim := None;
      if client in live {
        admitted := live[client].requests < RATE_LIMIT_REQUESTS;
        if admitted {
          clients := live[client := Window(live[client].started, live[client].requests + 1)];
          AddSize(live, client, clients[client]);
        } else {
          clients := live;
        }
        return;
      }
      admitted := true;
      if |live| >= MAX_RATE_LIMIT_CLIENTS {
        var oldest := FindOldest(live);
        victim := Some(oldest);
        clients := (live - {oldest})[client := Window(now, 1)];
        ReplaceSize(live, oldest, client, Window(now, 1));
      } else {
        clients := live[client := Window(now, 1)];
        AddSize(live, client, Window(now, 1));
      }
    }
  }

  lemma LiveIsSmaller(clients: Clients, now: nat)
    ensures |Live(clients, now)| <= |clients|
  {
    SubsetSize(Live(clients, now).Keys, clients.Keys);
  }

  lemma AddSize(live: Clients, client: Address, w: Window)
    ensures |live[client := w]| == |live| + (if client in live then 0 else 1)
  {
    assert live[client := w].Keys == live.Keys + {client};
  }

  lemma ReplaceSize(live: Clients, oldest: Address, client: Address, w: Window)
    requires oldest in live && client !in live
    ensures |(live - {oldest})[client := w]| == |live|
  {
    var rest := live - {oldest};
    assert rest.Keys == live.Keys - {oldest};
    assert rest[client := w].Keys == rest.Keys + {client};
  }

  lemma SubsetSize<T>(a: set<T>, b: set<T>)
    requires a <= b
    ensures |a| <= |b|
  {
    assert |b - a| == |b| - |a|;
  }

  /** `min_by_key` over the windows. */
  method FindOldest(clients: Clients) returns (oldest: Address)
    requires |clients| > 0
    ensures IsOldest(clients, oldest)
  {
    assert clients.Keys != {};
    oldest :| oldest in clients;
    var left := clients.Keys - {oldest};
    while left != {}
      invariant left <= clients.Keys && oldest in clients
      invariant forall c :: c in clients && c !in left ==> clients[oldest].started <= clients[c].started
    {
      var c :| c in left;
      left := left - {c};
      if clients[c].started < clients[oldest].started {
        oldest := c;
      }
    }
  }

  // ---------------------------------------------------------------- whole runs

  /** Calls serialised in clock order, starting from an empty map. */
  ghost predicate Run(states: seq<Clients>, calls: seq<Call>) {
    && |states| == |calls| + 1 && states[0] == map[]
    && (forall k :: 0 <= k < |calls| ==> Checked(states[k], calls[k], states[k + 1]))
    && (forall i, j :: 0 <= i < j < |calls| ==> calls[i].now <= calls[j].now)
  }

  /** The client map never exceeds its bound. */
  lemma {:induction false} MapIsBounded(states: seq<Clients>, calls: seq<Call>, k: nat)
    requires Run(states, calls) && k <= |calls|
    ensures |states[k]| <= MAX_RATE_LIMIT_CLIENTS
  {
    if k > 0 {
      MapIsBounded(states, calls, k - 1);
      CheckKeepsBound(states[k - 1], calls[k - 1], states[k]);
    }
  }

  lemma CheckKeepsBound(clients: Clients, call: Call, after: Clients)
    requires Checked(clients, call, after) && |clients| <= MAX_RATE_LIMIT_CLIENTS
    ensures |after| <= MAX_RATE_LIMIT_CLIENTS
  {
    var live := Live(clients, call.now);
    SubsetSize(live.Keys, clients.Keys);
    if call.client in live {
      assert after.Keys == live.Keys;
    } else if call.victim.Some? {
      assert (live - {call.victim.value}).Keys == live.Keys - {call.victim.value};
      assert after.Keys == (live.Keys - {call.victim.value}) + {call.client};
    } else {
      assert after.Keys == live.Keys + {call.client};
    }
  }

  predicate Admits(calls: seq<Call>, client: Address, k: nat)
    requires k < |calls|
  {
    calls[k].client == client && calls[k].admitted
  }

  /** Start of the window an admitted call was counted in. */
  ghost function WindowOf(states: seq<Clients>, calls: seq<Call>, k: nat): nat
    requires Run(states, calls) && k < |calls|
  {
    if calls[k].client in states[k + 1] then states[k + 1][calls[k].client].started else 0
  }

  /** Admissions counted in the window that starts at `w`, among the first `n` calls. */
  ghost function InWindow(
    states: seq<Clients>, calls: seq<Call>, client: Address, w: nat, n: nat): nat
    requires Run(states, calls) && n <= |calls|
  {
    if n == 0 then 0 else
      InWindow(states, calls, client, w, n - 1)
      + (if Admits(calls, client, n - 1) && WindowOf(states, calls, n - 1) == w then 1 else 0)
  }

  /** Admissions in the half-open interval of one window length from `t`. */
  ghost function InInterval(calls: seq<Call>, client: Address, t: nat, n: nat): nat
    requires n <= |calls|
  {
    if n == 0 then 0 else
      InInterval(calls, client, t, n - 1)
      + (if Admits(calls, client, n - 1) && t <= calls[n - 1].now < t + RATE_LIMIT_WINDOW then 1 else 0)
  }

  ghost predicate NeverEvicted(calls: seq<Call>, client: Address) {
    forall k :: 0 <= k < |calls| ==> calls[k].victim != Some(client)
  }

  /** Where a client stands after `n` calls: its open window counts its admissions, and every other
      window it used is over. */
  ghost predicate Standing(states: seq<Clients>, calls: seq<Call>, client: Address, n: nat)
    requires Run(states, calls) && n <= |calls|
  {
    && (client in states[n] ==>
          var open := states[n][client];
          && open.requests <= RATE_LIMIT_REQUESTS
          && (n > 0 ==> open.started <= calls[n - 1].now)
          && open.requests == InWindow(states, calls, client, open.started, n)
          && forall k :: 0 <= k < n && Admits(calls, client, k) ==>
               || WindowOf(states, calls, k) == open.started
               || WindowOf(states, calls, k) + RATE_LIMIT_WINDOW <= open.started)
    && (client !in states[n] ==>
          forall k :: 0 <= k < n && Admits(calls, client, k) ==>
            WindowOf(states, calls, k) + RATE_LIMIT_WINDOW <= calls[n - 1].now)
  }

  /** Admissions happen inside their window. */
  ghost predicate InsideWindow(states: seq<Clients>, calls: seq<Call>, k: nat)
    requires Run(states, calls) && k < |calls|
  {
    WindowOf(states, calls, k) <= calls[k].now < WindowOf(states, calls, k) + RATE_LIMIT_WINDOW
  }

  lemma {:induction false} NoSuchWindow(
    states: seq<Clients>, calls: seq<Call>, client: Address, w: nat, n: nat)
    requires Run(states, calls) && n <= |calls|
    requires forall k :: 0 <= k < n && Admits(calls, client, k) ==> WindowOf(states, calls, k) != w
    ensures InWindow(states, calls, client, w, n) == 0
  {
    if n > 0 {
      NoSuchWindow(states, calls, client, w, n - 1);
    }
  }

  /** One call moves every client's standing on. */
  lemma StandingStep(states: seq<Clients>, calls: seq<Call>, client: Address, n: nat)
    requires Run(states, calls) && n < |calls| && calls[n].victim != Some(client)
    requires Standing(states, calls, client, n)
    ensures Standing(states, calls, client, n + 1)
    ensures Admits(calls, client, n) ==> InsideWindow(states, calls, n)
  {
    assert Checked(states[n], calls[n], states[n + 1]);
    assert n > 0 ==> calls[n - 1].now <= calls[n].now;
    var live := Live(states[n], calls[n].now);
    if calls[n].client == client && client !in live {
      NoSuchWindow(states, calls, client, calls[n].now, n);
    }
  }

  lemma {:induction false} AlwaysStanding(states: seq<Clients>, calls: seq<Call>, client: Address, n: nat)
    requires Run(states, calls) && n <= |calls| && NeverEvicted(calls, client)
    ensures Standing(states, calls, client, n)
    ensures forall k :: 0 <= k < n && Admits(calls, client, k) ==> InsideWindow(states, calls, k)
  {
    hide Standing, InsideWindow;
    if n == 0 {
      assert Standing(states, calls, client, 0) by { StandingAtStart(states, calls, client); }
    } else {
      AlwaysStanding(states, calls, client, n - 1);
      StandingStep(states, calls, client, n - 1);
    }
  }

  lemma StandingAtStart(states: seq<Clients>, calls: seq<Call>, client: Address)
    requires Run(states, calls)
    ensures Standing(states, calls, client, 0)
  {
  }

  /** Every window admits at most the limit. */
  lemma {:induction false} WindowIsLimited(
    states: seq<Clients>, calls: seq<Call>, client: Address, w: nat, n: nat)
    requires Run(states, calls) && n <= |calls| && NeverEvicted(calls, client)
    ensures InWindow(states, calls, client, w, n) <= RATE_LIMIT_REQUESTS
  {
    hide Checked;
    if n > 0 {
      WindowIsLimited(states, calls, client, w, n - 1);
      AlwaysStanding(states, calls, client, n);
      if Admits(calls, client, n - 1) && WindowOf(states, calls, n - 1) == w {
        AdmittedIsPresent(states, calls, n - 1);
      }
    }
  }

  lemma AdmittedIsPresent(states: seq<Clients>, calls: seq<Call>, k: nat)
    requires Run(states, calls) && k < |calls|
    ensures calls[k].client in states[k + 1]
  {
    assert Checked(states[k], calls[k], states[k + 1]);
  }

  /** Windows of one client are equal or a window length apart. */
  lemma WindowsAreApart(
    states: seq<Clients>, calls: seq<Call>, client: Address, i: nat, j: nat)
    requires Run(states, calls) && i < j < |calls| && NeverEvicted(calls, client)
    requires Admits(calls, client, i) && Admits(calls, client, j)
    ensures WindowOf(states, calls, i) == WindowOf(states, calls, j)
            || WindowOf(states, calls, i) + RATE_LIMIT_WINDOW <= WindowOf(states, calls, j)
  {
    AlwaysStanding(states, calls, client, j + 1);
    AdmittedIsPresent(states, calls, j);
  }

  ghost predicate Inside(calls: seq<Call>, client: Address, t: nat, k: nat)
    requires k < |calls|
  {
    Admits(calls, client, k) && t <= calls[k].now < t + RATE_LIMIT_WINDOW
  }

  /** An interval of one window length meets at most two windows of a client. */
  lemma TwoWindows(
    states: seq<Clients>, calls: seq<Call>, client: Address, t: nat, i: nat, j: nat, k: nat)
    requires Run(states, calls) && NeverEvicted(calls, client)
    requires i < |calls| && j < |calls| && k < |calls|
    requires Inside(calls, client, t, i) && Inside(calls, client, t, j) && Inside(calls, client, t, k)
    ensures var x, y, z := WindowOf(states, calls, i), WindowOf(states, calls, j), WindowOf(states, calls, k);
            x == y || x == z || y == z
  {
    AlwaysStanding(states, calls, client, |calls|);
    assert InsideWindow(states, calls, i) && InsideWindow(states, calls, j) && InsideWindow(states, calls, k);
    if i < j { WindowsAreApart(states, calls, client, i, j); }
    if j < i { WindowsAreApart(states, calls, client, j, i); }
    if i < k { WindowsAreApart(states, calls, client, i, k); }
    if k < i { WindowsAreApart(states, calls, client, k, i); }
    if j < k { WindowsAreApart(states, calls, client, j, k); }
    if k < j { WindowsAreApart(states, calls, client, k, j); }
  }

  lemma {:induction false} CountedInTwo(
    states: seq<Clients>, calls: seq<Call>, client: Address, t: nat, a: nat, b: nat, n: nat)
    requires Run(states, calls) && n <= |calls|
    requires forall k :: 0 <= k < |calls| && Inside(calls, client, t, k) ==>
               WindowOf(states, calls, k) == a || WindowOf(states, calls, k) == b
    ensures InInterval(calls, client, t, n)
            <= InWindow(states, calls, client, a, n) + InWindow(states, calls, client, b, n)
  {
    hide Checked;
    if n > 0 {
      CountedInTwo(states, calls, client, t, a, b, n - 1);
      assert Inside(calls, client, t, n - 1) ==>
        WindowOf(states, calls, n - 1) == a || WindowOf(states, calls, n - 1) == b;
    }
  }

  /**
   With calls in clock order, a client whose window is never evicted is admitted at most twice
   the limit in any half-open interval of one window length, wherever the interval starts.
   */
  lemma IntervalIsLimited(states: seq<Clients>, calls: seq<Call>, client: Address, t: nat)
    requires Run(states, calls) && NeverEvicted(calls, client)
    ensures InInterval(calls, client, t, |calls|) <= 2 * RATE_LIMIT_REQUESTS
  {
    var a, b := 0, 0;
    if i :| 0 <= i < |calls| && Inside(calls, client, t, i) {
      a := WindowOf(states, calls, i);
      b := a;
      if j :| 0 <= j < |calls| && Inside(calls, client, t, j) && WindowOf(states, calls, j) != a {
        b := WindowOf(states, calls, j);
        forall k | 0 <= k < |calls| && Inside(calls, client, t, k)
          ensures WindowOf(states, calls, k) == a || WindowOf(states, calls, k) == b
        {
          TwoWindows(states, calls, client, t, i, j, k);
        }
      }
    }
    CountedInTwo(states, calls, client, t, a, b, |calls|);
    WindowIsLimited(states, calls, client, a, |calls|);
    WindowIsLimited(states, calls, client, b, |calls|);
  }

  /** Eviction is what the proviso excludes: an exhausted client that was evicted is admitted again
      at once, with a fresh window. */
  lemma EvictionResetsTheBudget(clients: Clients, call: Call, middle: Clients, retry: Call, after: Clients)
    requires Checked(clients, call, middle) && call.victim.Some? && call.victim.value != call.client
    requires Checked(middle, retry, after) && retry.client == call.victim.value
    ensures retry.admitted && after[retry.client] == Window(retry.now, 1)
  {
  }

  // ---------------------------------------------------------------- who is admitted

  /** The client's window is open at a time. */
  predicate Open(clients: Clients, client: Address, now: nat) {
    client in clients && now < clients[client].started + RATE_LIMIT_WINDOW
  }

  /**
   Nobody is turned away early: a client that is never evicted is refused exactly when its open window
   already has the full number of its admissions.
   */
  lemma RefusedOnlyWhenExhausted(states: seq<Clients>, calls: seq<Call>, n: nat)
    requires Run(states, calls) && n < |calls| && NeverEvicted(calls, calls[n].client)
    ensures var client := calls[n].client;
            !calls[n].admitted <==>
              Open(states[n], client, calls[n].now)
              && InWindow(states, calls, client, states[n][client].started, n) == RATE_LIMIT_REQUESTS
  {
    var client := calls[n].client;
    AlwaysStanding(states, calls, client, n);
    assert Checked(states[n], calls[n], states[n + 1]);
    if client in states[n] {
      assert Since(calls[n].now, states[n][client].started) < RATE_LIMIT_WINDOW
             <==> Open(states[n], client, calls[n].now);
    }
  }

  /** A check forgets only closed windows and its victim: every other window stays as it was. */
  lemma OpenWindowsStay(clients: Clients, call: Call, after: Clients, other: Address)
    requires Checked(clients, call, after) && other != call.client
    ensures other in after <==> Open(clients, other, call.now) && call.victim != Some(other)
    ensures other in after ==> after[other] == clients[other]
  {
  }

  /** The victim's window is at least as old as every window that stays, and a victim is taken only
      for a new client when the open windows fill the map. */
  lemma VictimIsOldest(clients: Clients, call: Call, after: Clients, other: Address)
    requires Checked(clients, call, after) && call.victim.Some?
    ensures call.client !in Live(clients, call.now) && |Live(clients, call.now)| >= MAX_RATE_LIMIT_CLIENTS
    ensures call.victim.value in clients
    ensures other in after && other != call.client ==>
              clients[call.victim.value].started <= after[other].started
  {
  }
}
