/**
 Per-team rate and budget limits (`frostglass/gateway/budget.py`), and what holds over whole runs of interleaved
 requests. The clock is a parameter of each check.
 */
module Limits {
  import opened Outcomes

  datatype Principal = Principal(user: string, team: string, monthlyBudgetCents: int, rateLimitRpm: int)

  datatype LimitError = BudgetExceeded | RateLimitExceeded

  datatype State = State(spend: map<string, int>, requests: map<string, seq<real>>)

  function Spend(st: State, team: string): int { if team in st.spend then st.spend[team] else 0 }

  function Window(st: State, team: string): seq<real> { if team in st.requests then st.requests[team] else [] }

  /** Pop entries sixty seconds old or older from the front. */
  function Expire(window: seq<real>, now: real): seq<real> {
    if window != [] && window[0] <= now - 60.0 then Expire(window[1..], now) else window
  }

  function Check(st: State, p: Principal, now: real): (Option<LimitError>, State) {
    if Spend(st, p.team) >= p.monthlyBudgetCents then (Some(BudgetExceeded), st)
    else
      var window := Expire(Window(st, p.team), now);
      if |window| >= p.rateLimitRpm then (Some(RateLimitExceeded), st.(requests := st.requests[p.team := window]))
      else (None, st.(requests := st.requests[p.team := window + [now]]))
  }

  function RecordSpend(st: State, team: string, cents: int): State {
    st.(spend := st.spend[team := Spend(st, team) + cents])
  }

  class Limiter {
    var spend: map<string, int>
    var requests: map<string, seq<real>>

    constructor ()
      ensures Current() == State(map[], map[])
    {
      spend, requests := map[], map[];
    }

    function Current(): State
      reads this
    {
      State(spend, requests)
    }

    method CheckLimits(p: Principal, now: real) returns (error: Option<LimitError>)
      modifies this
      ensures (error, Current()) == Check(old(Current()), p, now)
    {
      if Spend(Current(), p.team) >= p.monthlyBudgetCents {
        return Some(BudgetExceeded);
      }
      var window := Window(Current(), p.team);
      while window != [] && window[0] <= now - 60.0
        invariant Expire(window, now) == Expire(Window(old(Current()), p.team), now)
        decreases |window|
      {
        window := window[1..];
      }
      if |window| >= p.rateLimitRpm {
        requests := requests[p.team := window];
        return Some(RateLimitExceeded);
      }
      requests := requests[p.team := window + [now]];
      error := None;
    }

    method Record(p: Principal, cents: int := 1)
      modifies this`spend
      ensures Current() == RecordSpend(old(Current()), p.team, cents)
    {
      spend := spend[p.team := Spend(Current(), p.team) + cents];
    }
  }

  // ---- runs ----

  /** A check, the spend of a finished request, or a request that ends without spending. */
  datatype Event = Checked(principal: Principal, now: real) | Recorded(team: string) | Abandoned(team: string)

  function After(st: State, e: Event): State {
    match e
    case Checked(p, now) => Check(st, p, now).1
    case Recorded(team) => RecordSpend(st, team, 1)
    case Abandoned(_) => st
  }

  function Run(st: State, events: seq<Event>): State
    decreases |events|
  {
    if events == [] then st else Run(After(st, events[0]), events[1..])
  }

  predicate ChecksTeam(e: Event, team: string) { e.Checked? && e.principal.team == team }

  predicate Admits(st: State, e: Event, team: string) {
    ChecksTeam(e, team) && Check(st, e.principal, e.now).0.None?
  }

  /** When the team's requests were admitted. */
  function Admissions(st: State, events: seq<Event>, team: string): seq<real>
    decreases |events|
  {
    if events == [] then []
    else
      var rest := Admissions(After(st, events[0]), events[1..], team);
      if Admits(st, events[0], team) then [events[0].now] + rest else rest
  }

  /** A check of the team that its budget does not refuse. */
  predicate PassesBudget(st: State, e: Event, team: string) {
    ChecksTeam(e, team) && Spend(st, team) < e.principal.monthlyBudgetCents
  }

  /** When the team's last check within budget took place, or `at` if there was none. */
  function LastPass(st: State, events: seq<Event>, team: string, at: real): real
    decreases |events|
  {
    if events == [] then at
    else
      var at' := if PassesBudget(st, events[0], team) then events[0].now else at;
      LastPass(After(st, events[0]), events[1..], team, at')
  }

  const Fresh := State(map[], map[])

  // ---- the rate limit ----

  /** How many times are later than `t` and no later than `u`. */
  function CountIn(times: seq<real>, t: real, u: real): nat {
    if times == [] then 0 else CountIn(times[..|times| - 1], t, u) + if t < times[|times| - 1] <= u then 1 else 0
  }

  ghost predicate Ascending(times: seq<real>, limit: real) {
    && (forall i, j :: 0 <= i < j < |times| ==> times[i] <= times[j])
    && (forall i :: 0 <= i < |times| ==> times[i] <= limit)
  }

  /** The times later than sixty seconds before `at`, in order. */
  function Recent(times: seq<real>, at: real): seq<real> {
    if times == [] then []
    else
      var front := Recent(times[..|times| - 1], at);
      if times[|times| - 1] > at - 60.0 then front + [times[|times| - 1]] else front
  }

  /** The window holds exactly the admitted times of the sixty seconds to `at`. */
  ghost predicate Tracks(st: State, team: string, admitted: seq<real>, at: real) {
    Ascending(admitted, at) && Window(st, team) == Recent(admitted, at)
  }

  /** Where the times of the last sixty seconds begin. */
  ghost predicate RecentFrom(times: seq<real>, at: real, k: nat) {
    && k <= |times|
    && (forall i :: 0 <= i < k ==> times[i] <= at - 60.0)
    && (forall i :: k <= i < |times| ==> at - 60.0 < times[i])
  }

  lemma {:induction false} RecentIsSuffix(times: seq<real>, at: real, k: nat)
    requires RecentFrom(times, at, k)
    ensures Recent(times, at) == times[k..]
    decreases |times|
  {
    if |times| > k {
      RecentIsSuffix(times[..|times| - 1], at, k);
    } else if times != [] {
      RecentIsSuffix(times[..|times| - 1], at, k - 1);
    }
  }

  lemma {:induction false} RecentBegins(times: seq<real>, at: real) returns (k: nat)
    requires forall i, j :: 0 <= i < j < |times| ==> times[i] <= times[j]
    ensures RecentFrom(times, at, k)
    decreases |times|
  {
    k := |times|;
    if times != [] && times[|times| - 1] > at - 60.0 { k := RecentBegins(times[..|times| - 1], at); }
  }

  lemma {:induction false} RecentCounts(times: seq<real>, at: real)
    requires forall i :: 0 <= i < |times| ==> times[i] <= at
    ensures |Recent(times, at)| == CountIn(times, at - 60.0, at)
    decreases |times|
  {
    if times != [] { RecentCounts(times[..|times| - 1], at); }
  }

  /** Popping leaves a suffix whose head, if any, is recent. */
  lemma {:induction false} ExpireIsSuffix(window: seq<real>, now: real) returns (k: nat)
    ensures k <= |window| && Expire(window, now) == window[k..]
    ensures forall i :: 0 <= i < k ==> window[i] <= now - 60.0
    ensures k < |window| ==> window[k] > now - 60.0
  {
    if window != [] && window[0] <= now - 60.0 {
      var k' := ExpireIsSuffix(window[1..], now);
      k := k' + 1;
      assert forall i :: 1 <= i < |window| ==> window[i] == window[1..][i - 1];
    } else {
      k := 0;
    }
  }

  /** At a check the popped window holds exactly the admitted times of the last sixty seconds. */
  lemma PoppedWindow(admitted: seq<real>, at: real, now: real)
    requires Ascending(admitted, at) && at <= now
    ensures Expire(Recent(admitted, at), now) == Recent(admitted, now)
  {
    var j := RecentBegins(admitted, at);
    RecentIsSuffix(admitted, at, j);
    var window := admitted[j..];
    var l := ExpireIsSuffix(window, now);
    var k := j + l;
    forall i | 0 <= i < k ensures admitted[i] <= now - 60.0 {
      if i >= j { assert admitted[i] == window[i - j]; }
    }
    forall i | k <= i < |admitted| ensures now - 60.0 < admitted[i] {
      assert admitted[k] == window[l];
    }
    RecentIsSuffix(admitted, now, k);
  }

  lemma CheckedWindow(st: State, p: Principal, now: real)
    requires Spend(st, p.team) < p.monthlyBudgetCents
    ensures var (error, st') := Check(st, p, now);
            var window := Expire(Window(st, p.team), now);
            && error == (if |window| >= p.rateLimitRpm then Some(RateLimitExceeded) else None)
            && Window(st', p.team) == if error.None? then window + [now] else window
  {
  }

  lemma AdmittedAscending(admitted: seq<real>, last: real, now: real)
    requires Ascending(admitted, last) && last <= now
    ensures Ascending(admitted, now) && Ascending(admitted + [now], now)
  {
  }

  /**
   A check that is within budget is refused for its rate exactly when the team already had as many admissions in the
   last sixty seconds as the limit allows; and afterwards the window holds exactly the admissions of those seconds.
   */
  lemma RefusedExactlyAtLimit(st: State, p: Principal, now: real, admitted: seq<real>, at: real)
    requires Tracks(st, p.team, admitted, at) && at <= now && Spend(st, p.team) < p.monthlyBudgetCents
    ensures var (error, st') := Check(st, p, now);
            && (error == Some(RateLimitExceeded) <==> CountIn(admitted, now - 60.0, now) >= p.rateLimitRpm)
            && error != Some(BudgetExceeded)
            && Tracks(st', p.team, if error.None? then admitted + [now] else admitted, now)
  {
    CheckedWindow(st, p, now);
    PoppedWindow(admitted, at, now);
    AdmittedAscending(admitted, at, now);
    RecentCounts(admitted, now);
    assert (admitted + [now])[..|admitted|] == admitted;
  }

  /** Nothing has left the sixty seconds between two readings exactly when no time lies in between. */
  lemma {:induction false} RecentUnchangedExactly(times: seq<real>, at: real, now: real)
    requires at <= now
    ensures |Recent(times, now)| + CountIn(times, at - 60.0, now - 60.0) == |Recent(times, at)|
    ensures Recent(times, now) == Recent(times, at) <==> CountIn(times, at - 60.0, now - 60.0) == 0
    decreases |times|
  {
    if times != [] { RecentUnchangedExactly(times[..|times| - 1], at, now); }
  }

  /**
   After any check at `now` the window holds exactly the admissions of the last sixty seconds, if and only if the check
   passed the budget or no admission has left those seconds since the last check that did: a refusal for the budget
   comes before the window is popped.
   */
  lemma WindowExactAfterCheck(st: State, p: Principal, now: real, admitted: seq<real>, at: real)
    requires Tracks(st, p.team, admitted, at) && at <= now
    ensures var (error, st') := Check(st, p, now);
            Tracks(st', p.team, if error.None? then admitted + [now] else admitted, now)
            <==> Spend(st, p.team) < p.monthlyBudgetCents || CountIn(admitted, at - 60.0, now - 60.0) == 0
  {
    if Spend(st, p.team) < p.monthlyBudgetCents {
      RefusedExactlyAtLimit(st, p, now, admitted, at);
    } else {
      RecentUnchangedExactly(admitted, at, now);
    }
  }

  /** Steps of a team in time order. */
  ghost predicate InOrder(events: seq<Event>, team: string, from: real) {
    && (forall i :: 0 <= i < |events| && ChecksTeam(events[i], team) ==> from <= events[i].now)
    && (forall i, j :: 0 <= i < j < |events| && ChecksTeam(events[i], team) && ChecksTeam(events[j], team)
          ==> events[i].now <= events[j].now)
  }

  ghost predicate LimitsAtMost(events: seq<Event>, team: string, r: nat) {
    forall i :: 0 <= i < |events| && ChecksTeam(events[i], team) ==> events[i].principal.rateLimitRpm <= r
  }

  /** No window `(t - 60, t]` holds more than `r` of the times. */
  ghost predicate WindowsAtMost(times: seq<real>, r: nat) {
    forall t :: InMinuteTo(times, t) <= r
  }

  /** How many of the times lie in `(t - 60, t]`. */
  function InMinuteTo(times: seq<real>, t: real): nat { CountIn(times, t - 60.0, t) }

  lemma {:induction false} CountNarrower(times: seq<real>, t: real, u: real, t': real, u': real)
    requires t' <= t && forall i :: 0 <= i < |times| ==> times[i] <= u'
    ensures CountIn(times, t, u) <= CountIn(times, t', u')
    decreases |times|
  {
    if times != [] { CountNarrower(times[..|times| - 1], t, u, t', u'); }
  }

  /** Admitting below the limit keeps every window within it. */
  lemma AdmissionKeepsWindows(admitted: seq<real>, now: real, r: nat)
    requires WindowsAtMost(admitted, r) && Ascending(admitted, now) && CountIn(admitted, now - 60.0, now) < r
    ensures WindowsAtMost(admitted + [now], r)
  {
    forall t ensures InMinuteTo(admitted + [now], t) <= r {
      assert (admitted + [now])[..|admitted|] == admitted;
      if t < now {
        assert InMinuteTo(admitted, t) <= r;
      } else {
        CountNarrower(admitted, t - 60.0, t, now - 60.0, now);
      }
    }
  }

  lemma TrackOther(st: State, e: Event, team: string, admitted: seq<real>, at: real)
    requires Tracks(st, team, admitted, at) && !PassesBudget(st, e, team)
    ensures Tracks(After(st, e), team, admitted, at)
  {
    assert Window(After(st, e), team) == Window(st, team);
  }

  /** A check within budget: the window tracks the admissions, and no sixty seconds hold more than `r`. */
  lemma PassKeepsRate(st: State, p: Principal, now: real, r: nat, admitted: seq<real>, at: real)
    requires Tracks(st, p.team, admitted, at) && WindowsAtMost(admitted, r)
    requires at <= now && p.rateLimitRpm <= r && Spend(st, p.team) < p.monthlyBudgetCents
    ensures var (error, st') := Check(st, p, now);
            var admitted' := if error.None? then admitted + [now] else admitted;
            Tracks(st', p.team, admitted', now) && WindowsAtMost(admitted', r)
  {
    RefusedExactlyAtLimit(st, p, now, admitted, at);
    if Check(st, p, now).0.None? {
      AdmittedAscending(admitted, at, now);
      AdmissionKeepsWindows(admitted, now, r);
    }
  }

  lemma StepKeepsRate(st: State, e: Event, team: string, r: nat, admitted: seq<real>, at: real)
    requires Tracks(st, team, admitted, at) && WindowsAtMost(admitted, r)
    requires ChecksTeam(e, team) ==> at <= e.now && e.principal.rateLimitRpm <= r
    ensures var admitted' := if Admits(st, e, team) then admitted + [e.now] else admitted;
            Tracks(After(st, e), team, admitted', if PassesBudget(st, e, team) then e.now else at)
            && WindowsAtMost(admitted', r)
  {
    if PassesBudget(st, e, team) {
      PassKeepsRate(st, e.principal, e.now, r, admitted, at);
    } else {
      TrackOther(st, e, team, admitted, at);
    }
  }

  lemma TailInOrder(events: seq<Event>, team: string, r: nat, at: real)
    requires events != [] && InOrder(events, team, at) && LimitsAtMost(events, team, r)
    ensures InOrder(events[1..], team, at)
    ensures ChecksTeam(events[0], team) ==> InOrder(events[1..], team, events[0].now)
    ensures LimitsAtMost(events[1..], team, r)
  {
    assert forall i :: 0 <= i < |events[1..]| ==> events[1..][i] == events[i + 1];
  }

  lemma AdmissionsStep(st: State, events: seq<Event>, team: string, admitted: seq<real>)
    requires events != []
    ensures (if Admits(st, events[0], team) then admitted + [events[0].now] else admitted)
              + Admissions(After(st, events[0]), events[1..], team)
         == admitted + Admissions(st, events, team)
  {
  }

  /**
   After every run the window holds exactly the admissions of the sixty seconds to the last check within budget, and
   no sixty seconds hold more admissions than the limit.
   */
  lemma {:induction false} RunKeepsRate(
    st: State, events: seq<Event>, team: string, r: nat, admitted: seq<real>, at: real)
    requires Tracks(st, team, admitted, at) && WindowsAtMost(admitted, r)
    requires InOrder(events, team, at) && LimitsAtMost(events, team, r)
    ensures Tracks(Run(st, events), team, admitted + Admissions(st, events, team), LastPass(st, events, team, at))
    ensures WindowsAtMost(admitted + Admissions(st, events, team), r)
    decreases |events|
  {
    if events == [] {
      assert admitted + [] == admitted;
    } else {
      var e, rest := events[0], events[1..];
      StepKeepsRate(st, e, team, r, admitted, at);
      var admitted' := if Admits(st, e, team) then admitted + [e.now] else admitted;
      TailInOrder(events, team, r, at);
      AdmissionsStep(st, events, team, admitted);
      RunKeepsRate(After(st, e), rest, team, r, admitted', if PassesBudget(st, e, team) then e.now else at);
    }
  }

  /**
   In every run with a clock that never goes back, no sixty seconds hold more admissions of a team than its limit, and
   the window is exact as of the last check within budget.
   */
  lemma RateLimitHolds(events: seq<Event>, team: string, r: nat, start: real)
    requires InOrder(events, team, start) && LimitsAtMost(events, team, r)
    ensures WindowsAtMost(Admissions(Fresh, events, team), r)
    ensures Window(Run(Fresh, events), team)
         == Recent(Admissions(Fresh, events, team), LastPass(Fresh, events, team, start))
  {
    RunKeepsRate(Fresh, events, team, r, [], start);
    assert [] + Admissions(Fresh, events, team) == Admissions(Fresh, events, team);
  }

  // ---- the budget ----

  /** A check is refused for the budget exactly when it is spent, whatever the rate, and then nothing changes. */
  lemma BudgetRefusedExactly(st: State, p: Principal, now: real)
    ensures Check(st, p, now).0 == Some(BudgetExceeded) <==> Spend(st, p.team) >= p.monthlyBudgetCents
    ensures Spend(st, p.team) >= p.monthlyBudgetCents ==> Check(st, p, now).1 == st
  {
  }

  /** Steps of one team leave every other team's spend and window alone, and checks leave all spend alone. */
  lemma OtherTeamsKept(st: State, e: Event, team: string)
    ensures (match e case Checked(p, _) => p.team != team case Recorded(t) => t != team case Abandoned(_) => true)
            ==> Window(After(st, e), team) == Window(st, team)
    ensures !(e.Recorded? && e.team == team) ==> Spend(After(st, e), team) == Spend(st, team)
  {
  }

  /** How many of the steps record a finished request of the team. */
  function Finished(events: seq<Event>, team: string): nat {
    if events == [] then 0 else Finished(events[1..], team) + if events[0] == Recorded(team) then 1 else 0
  }

  /** In every run a team has spent one cent for each of its finished requests. */
  lemma {:induction false} SpendIsFinished(st: State, events: seq<Event>, team: string)
    ensures Spend(Run(st, events), team) == Spend(st, team) + Finished(events, team)
    decreases |events|
  {
    if events != [] {
      OtherTeamsKept(st, events[0], team);
      SpendIsFinished(After(st, events[0]), events[1..], team);
    }
  }

  /** How a step changes the number of the team's requests between check and spend. */
  function FlightChange(st: State, e: Event, team: string): int {
    if Admits(st, e, team) then 1 else if !e.Checked? && e.team == team then -1 else 0
  }

  /** Only admitted requests finish, and at most `k` of the team's requests are between check and spend. */
  ghost predicate AtMostInFlight(st: State, events: seq<Event>, team: string, flight: int, k: nat)
    decreases |events|
  {
    0 <= flight <= k && (events != [] ==>
      AtMostInFlight(After(st, events[0]), events[1..], team, flight + FlightChange(st, events[0], team), k))
  }

  ghost predicate BudgetsAtMost(events: seq<Event>, team: string, budget: int) {
    forall i :: 0 <= i < |events| && ChecksTeam(events[i], team)
      ==> events[i].principal.monthlyBudgetCents <= budget
  }

  lemma {:induction false} RunKeepsBudget(st: State, events: seq<Event>, team: string, flight: int, k: nat, budget: nat)
    requires AtMostInFlight(st, events, team, flight, k) && BudgetsAtMost(events, team, budget)
    requires Spend(st, team) + flight <= budget + k - 1
    ensures Spend(Run(st, events), team) <= budget + k - 1
    decreases |events|
  {
    if events != [] {
      assert forall i :: 0 <= i < |events[1..]| ==> events[1..][i] == events[i + 1];
      RunKeepsBudget(After(st, events[0]), events[1..], team, flight + FlightChange(st, events[0], team), k, budget);
    }
  }

  /**
   With at most `k` requests in flight at one cent each, spend never exceeds a positive budget by more than `k - 1`.
   */
  lemma BudgetHolds(events: seq<Event>, team: string, k: nat, budget: nat)
    requires budget >= 1 && AtMostInFlight(Fresh, events, team, 0, k) && BudgetsAtMost(events, team, budget)
    ensures Spend(Run(Fresh, events), team) <= budget + k - 1
  {
    RunKeepsBudget(Fresh, events, team, 0, k, budget);
  }

  // ---- the budget bound is reached ----

  function Repeat(e: Event, n: nat): seq<Event> { seq(n, i => e) }

  lemma {:induction false} RunAppend(st: State, a: seq<Event>, b: seq<Event>)
    ensures Run(st, a + b) == Run(Run(st, a), b)
    decreases |a|
  {
    if a == [] {
      assert a + b == b;
    } else {
      RunAppend(After(st, a[0]), a[1..], b);
      assert (a + b)[1..] == a[1..] + b;
    }
  }

  /** A team with budget `budget` has `n` requests pass the check at time zero while `spent` cents are recorded. */
  lemma {:induction false} ManyPass(st: State, p: Principal, n: nat, flight: nat, k: nat, rest: seq<Event>)
    requires Spend(st, p.team) < p.monthlyBudgetCents && flight + n <= k
    requires (forall i :: 0 <= i < |Window(st, p.team)| ==> Window(st, p.team)[i] == 0.0)
    requires |Window(st, p.team)| + n <= p.rateLimitRpm
    ensures Spend(Run(st, Repeat(Checked(p, 0.0), n)), p.team) == Spend(st, p.team)
    ensures |Window(Run(st, Repeat(Checked(p, 0.0), n)), p.team)| == |Window(st, p.team)| + n
    ensures forall i :: 0 <= i < |Window(Run(st, Repeat(Checked(p, 0.0), n)), p.team)|
              ==> Window(Run(st, Repeat(Checked(p, 0.0), n)), p.team)[i] == 0.0
    ensures AtMostInFlight(Run(st, Repeat(Checked(p, 0.0), n)), rest, p.team, flight + n, k)
            ==> AtMostInFlight(st, Repeat(Checked(p, 0.0), n) + rest, p.team, flight, k)
    decreases n
  {
    var e := Checked(p, 0.0);
    if n == 0 {
      assert Repeat(e, 0) + rest == rest;
    } else {
      assert Repeat(e, n)[1..] == Repeat(e, n - 1);
      assert (Repeat(e, n) + rest)[1..] == Repeat(e, n - 1) + rest;
      assert Expire(Window(st, p.team), 0.0) == Window(st, p.team);
      ManyPass(After(st, e), p, n - 1, flight + 1, k, rest);
    }
  }

  lemma {:induction false} ManySpend(st: State, team: string, n: nat, k: nat, rest: seq<Event>)
    requires n <= k
    ensures Spend(Run(st, Repeat(Recorded(team), n)), team) == Spend(st, team) + n
    ensures Window(Run(st, Repeat(Recorded(team), n)), team) == Window(st, team)
    ensures AtMostInFlight(Run(st, Repeat(Recorded(team), n)), rest, team, 0, k)
            ==> AtMostInFlight(st, Repeat(Recorded(team), n) + rest, team, n, k)
    decreases n
  {
    var e := Recorded(team);
    if n == 0 {
      assert Repeat(e, 0) + rest == rest;
    } else {
      assert Repeat(e, n)[1..] == Repeat(e, n - 1);
      assert (Repeat(e, n) + rest)[1..] == Repeat(e, n - 1) + rest;
      ManySpend(After(st, e), team, n - 1, k, rest);
    }
  }

  /** `rounds` requests one at a time, then `k` at once. */
  function Burst(p: Principal, rounds: nat, k: nat): seq<Event> {
    if rounds == 0 then Repeat(Checked(p, 0.0), k) + Repeat(Recorded(p.team), k)
    else [Checked(p, 0.0), Recorded(p.team)] + Burst(p, rounds - 1, k)
  }

  lemma {:induction false} BurstSpends(st: State, p: Principal, rounds: nat, k: nat)
    requires 1 <= k && Spend(st, p.team) + rounds < p.monthlyBudgetCents
    requires (forall i :: 0 <= i < |Window(st, p.team)| ==> Window(st, p.team)[i] == 0.0)
    requires |Window(st, p.team)| + rounds + k <= p.rateLimitRpm
    ensures Spend(Run(st, Burst(p, rounds, k)), p.team) == Spend(st, p.team) + rounds + k
    ensures AtMostInFlight(st, Burst(p, rounds, k), p.team, 0, k)
    decreases rounds
  {
    if rounds == 0 {
      var a, b := Repeat(Checked(p, 0.0), k), Repeat(Recorded(p.team), k);
      ManyPass(st, p, k, 0, k, b);
      ManySpend(Run(st, a), p.team, k, k, []);
      assert b + [] == b;
      RunAppend(st, a, b);
    } else {
      var c, d, tail := Checked(p, 0.0), Recorded(p.team), Burst(p, rounds - 1, k);
      assert Expire(Window(st, p.team), 0.0) == Window(st, p.team);
      var st1 := After(st, c);
      var st2 := After(st1, d);
      assert ([c, d] + tail)[1..] == [d] + tail && ([d] + tail)[1..] == tail;
      BurstSpends(st2, p, rounds - 1, k);
    }
  }

  /** For every budget and every `k` some run overspends by exactly `k - 1`. */
  lemma BudgetBoundReached(budget: nat, k: nat)
    requires budget >= 1 && k >= 1
    ensures exists events, team ::
      AtMostInFlight(Fresh, events, team, 0, k) && BudgetsAtMost(events, team, budget)
      && Spend(Run(Fresh, events), team) == budget + k - 1
  {
    var p := Principal("user", "team", budget, budget + k);
    BurstSpends(Fresh, p, budget - 1, k);
    BurstBudgets(p, budget - 1, k);
    assert BudgetsAtMost(Burst(p, budget - 1, k), "team", budget);
  }

  lemma {:induction false} BurstBudgets(p: Principal, rounds: nat, k: nat)
    ensures BudgetsAtMost(Burst(p, rounds, k), p.team, p.monthlyBudgetCents)
  {
    if rounds > 0 { BurstBudgets(p, rounds - 1, k); }
  }
}
