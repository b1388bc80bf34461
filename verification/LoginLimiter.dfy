/** app/api/auth_v2.py: the failed-login limiter, a list of recent failures per address. */
module LoginLimiter {

  const LIMIT := 5
  const WINDOW := 60.0

  function Keep(times: seq<real>, p: real -> bool): seq<real>
    decreases times
  {
    if times == [] then []
    else
      var last := |times| - 1;
      Keep(times[..last], p) + if p(times[last]) then [times[last]] else []
  }

  function Recent(now: real): real -> bool { t => now - t < WINDOW }

  /** The half-open minute starting at `start`. */
  ghost function Minute(start: real): real -> bool { t => start <= t < start + 60.0 }

  datatype Answer = TooMany | BadCredentials | Welcome

  function Failures(attempts: map<string, seq<real>>, ip: string): seq<real> {
    if ip in attempts then attempts[ip] else []
  }

  function Attempted(attempts: map<string, seq<real>>, ip: string, now: real, valid: bool)
    : (map<string, seq<real>>, Answer)
  {
    var recent := Keep(Failures(attempts, ip), Recent(now));
    if |recent| >= LIMIT then (attempts[ip := recent], TooMany)
    else if !valid then (attempts[ip := recent + [now]], BadCredentials)
    else (attempts[ip := recent], Welcome)
  }

  datatype Login = Login(ip: string, now: real, valid: bool)

  class Limiter {
    var attempts: map<string, seq<real>>

    constructor ()
      ensures attempts == map[]
    {
      attempts := map[];
    }

    method Login(ip: string, now: real, valid: bool) returns (r: Answer)
      modifies this
      ensures (attempts, r) == Attempted(old(attempts), ip, now, valid)
    {
      var times := if ip in attempts then attempts[ip] else [];
      var kept: seq<real> := [];
      for i := 0 to |times|
        invariant kept == Keep(times[..i], Recent(now))
      {
        assert times[..i + 1][..i] == times[..i];
        if now - times[i] < WINDOW {
          kept := kept + [times[i]];
        }
      }
      assert times[..|times|] == times;
      attempts := attempts[ip := kept];
      if |attempts[ip]| >= LIMIT {
        return TooMany;
      }
      if !valid {
        attempts := attempts[ip := attempts[ip] + [now]];
        assert attempts == old(attempts)[ip := kept + [now]];
        return BadCredentials;
      }
      r := Welcome;
    }
  }

  // ------------------------------------------------------------------- runs

  /** The limiter's table next to the full history of recorded failures. */
  datatype World = World(attempts: map<string, seq<real>>, history: map<string, seq<real>>)

  const START := World(map[], map[])

  function Next(w: World, l: Login): World {
    var (attempts, answer) := Attempted(w.attempts, l.ip, l.now, l.valid);
    var failures := Failures(w.history, l.ip);
    World(attempts, if answer.BadCredentials? then w.history[l.ip := failures + [l.now]] else w.history)
  }

  function Run(w: World, logins: seq<Login>): World
    decreases logins
  {
    if logins == [] then w else Run(Next(w, logins[0]), logins[1..])
  }

  predicate Ticking(logins: seq<Login>, start: real)
    decreases logins
  {
    logins == [] || (start <= logins[0].now && Ticking(logins[1..], logins[0].now))
  }

  predicate NotAfter(times: seq<real>, now: real) { forall i :: 0 <= i < |times| ==> times[i] <= now }

  /** What `Faithful` says of one address. */
  ghost predicate FaithfulFor(attempts: seq<real>, history: seq<real>, now: real) {
    && NotAfter(history, now)
    && (forall t :: t >= now ==> Keep(attempts, Recent(t)) == Keep(history, Recent(t)))
    && (forall s :: |Keep(history, Minute(s))| <= 5)
  }

  /** From `now` on, the table answers like the full history; and no minute holds more than the limit. */
  ghost predicate Faithful(w: World, now: real) {
    forall ip :: FaithfulFor(Failures(w.attempts, ip), Failures(w.history, ip), now)
  }

  lemma {:induction false} KeepSnoc(times: seq<real>, t: real, p: real -> bool)
    ensures Keep(times + [t], p) == Keep(times, p) + if p(t) then [t] else []
  {
    assert (times + [t])[..|times|] == times;
  }

  /** Pruning now does not matter for what counts as recent later. */
  lemma {:induction false} KeepTwice(times: seq<real>, now: real, later: real)
    requires now <= later
    ensures Keep(Keep(times, Recent(now)), Recent(later)) == Keep(times, Recent(later))
    decreases times
  {
    if times != [] {
      var last := |times| - 1;
      var before := Keep(times[..last], Recent(now));
      KeepTwice(times[..last], now, later);
      KeepSnoc(before, times[last], Recent(later));
      assert before + [] == before;
    }
  }

  lemma {:induction false} KeepMonotone(times: seq<real>, p: real -> bool, q: real -> bool)
    requires forall i :: 0 <= i < |times| && p(times[i]) ==> q(times[i])
    ensures |Keep(times, p)| <= |Keep(times, q)|
    decreases times
  {
    if times != [] {
      KeepMonotone(times[..|times| - 1], p, q);
    }
  }

  lemma {:induction false} EarliestRecent(times: seq<real>, now: real) returns (s: real)
    ensures now - s < WINDOW && s <= now
    ensures forall i :: 0 <= i < |times| && now - times[i] < WINDOW && times[i] <= now ==> s <= times[i]
    decreases times
  {
    if times == [] {
      s := now;
    } else {
      var last := |times| - 1;
      s := EarliestRecent(times[..last], now);
      assert forall i :: 0 <= i < last ==> times[i] == times[..last][i];
      if now - times[last] < WINDOW && times[last] < s {
        s := times[last];
      }
    }
  }

  /** The failures within the last minute all lie in the half-open minute that starts with the first of them. */
  lemma RecentIsSomeMinute(times: seq<real>, now: real)
    requires NotAfter(times, now)
    ensures exists s :: |Keep(times, Recent(now))| <= |Keep(times, Minute(s))|
  {
    var s := EarliestRecent(times, now);
    KeepMonotone(times, Recent(now), Minute(s));
  }

  /** Each answer is decided by the full history: 429 exactly when five failures lie within the last minute. */
  lemma AnswerIsBySlidingWindow(w: World, l: Login, clock: real)
    requires Faithful(w, clock) && clock <= l.now
    ensures var answer := Attempted(w.attempts, l.ip, l.now, l.valid).1;
      var recent := |Keep(Failures(w.history, l.ip), Recent(l.now))|;
      && recent <= 5
      && (answer.TooMany? <==> recent == 5)
      && (answer.BadCredentials? <==> recent < 5 && !l.valid)
  {
    var times := Failures(w.history, l.ip);
    assert Keep(Failures(w.attempts, l.ip), Recent(l.now)) == Keep(times, Recent(l.now));
    RecentIsSomeMinute(times, l.now);
  }

  lemma PruningIsFaithful(attempts: seq<real>, history: seq<real>, clock: real, now: real)
    requires FaithfulFor(attempts, history, clock) && clock <= now
    ensures FaithfulFor(Keep(attempts, Recent(now)), history, now)
  {
    forall t | t >= now ensures Keep(Keep(attempts, Recent(now)), Recent(t)) == Keep(history, Recent(t)) {
      KeepTwice(attempts, now, t);
    }
  }

  lemma RecordingIsFaithful(pruned: seq<real>, history: seq<real>, now: real)
    requires FaithfulFor(pruned, history, now) && |Keep(history, Recent(now))| < 5
    ensures FaithfulFor(pruned + [now], history + [now], now)
  {
    forall t | t >= now ensures Keep(pruned + [now], Recent(t)) == Keep(history + [now], Recent(t)) {
      KeepSnoc(pruned, now, Recent(t));
      KeepSnoc(history, now, Recent(t));
    }
    forall s ensures |Keep(history + [now], Minute(s))| <= 5 {
      KeepSnoc(history, now, Minute(s));
      if Minute(s)(now) {
        KeepMonotone(history, Minute(s), Recent(now));
      }
    }
  }

  lemma StepIsFaithful(w: World, l: Login, clock: real)
    requires Faithful(w, clock) && clock <= l.now
    ensures Faithful(Next(w, l), l.now)
  {
    var w' := Next(w, l);
    AnswerIsBySlidingWindow(w, l, clock);
    forall ip ensures FaithfulFor(Failures(w'.attempts, ip), Failures(w'.history, ip), l.now) {
      var attempts, history := Failures(w.attempts, ip), Failures(w.history, ip);
      assert FaithfulFor(attempts, history, clock);
      if ip == l.ip {
        PruningIsFaithful(attempts, history, clock, l.now);
        if Failures(w'.history, ip) != history {
          RecordingIsFaithful(Keep(attempts, Recent(l.now)), history, l.now);
        }
      } else {
        assert Failures(w'.attempts, ip) == attempts && Failures(w'.history, ip) == history;
      }
    }
  }

  /**
   For every run with a nondecreasing clock the pruned lists and the full history agree on what is recent,
   and no half-open minute ever holds more than five recorded failures of an address.
   */
  lemma {:induction false} LimiterIsSlidingWindow(w: World, logins: seq<Login>, clock: real)
    requires Faithful(w, clock) && Ticking(logins, clock)
    ensures Faithful(Run(w, logins), if logins == [] then clock else logins[|logins| - 1].now)
    decreases logins
  {
    hide Faithful;
    if logins != [] {
      StepIsFaithful(w, logins[0], clock);
      LimiterIsSlidingWindow(Next(w, logins[0]), logins[1..], logins[0].now);
    }
  }

  lemma FromTheStart(logins: seq<Login>, clock: real)
    requires Ticking(logins, clock)
    ensures forall ip, s :: |Keep(Failures(Run(START, logins).history, ip), Minute(s))| <= 5
  {
    LimiterIsSlidingWindow(START, logins, clock);
  }

  /** The times less than 60 seconds before now are those kept, in order and with repetition. */
  lemma {:induction false} RecentAre(times: seq<real>, now: real)
    ensures forall t :: multiset(Keep(times, Recent(now)))[t] == if now - t < 60.0 then multiset(times)[t] else 0
    decreases times
  {
    if times != [] {
      var last := |times| - 1;
      RecentAre(times[..last], now);
      assert times == times[..last] + [times[last]];
    }
  }

  /**
   After any run with a nondecreasing clock, a login is answered 429 exactly when five of the failures answered 401
   so far lie less than 60 seconds back, and otherwise by its credentials; only an answer 401 records a failure.
   */
  lemma EveryAnswerIsByHistory(logins: seq<Login>, l: Login, clock: real)
    requires Ticking(logins, clock) && (if logins == [] then clock else logins[|logins| - 1].now) <= l.now
    ensures var w := Run(START, logins);
      var answer := Attempted(w.attempts, l.ip, l.now, l.valid).1;
      var recent := |Keep(Failures(w.history, l.ip), Recent(l.now))|;
      && (answer == TooMany <==> recent >= 5)
      && (answer == BadCredentials <==> recent < 5 && !l.valid)
      && (answer == Welcome <==> recent < 5 && l.valid)
      && Next(w, l).history ==
        if answer == BadCredentials then w.history[l.ip := Failures(w.history, l.ip) + [l.now]] else w.history
  {
    LimiterIsSlidingWindow(START, logins, clock);
    AnswerIsBySlidingWindow(Run(START, logins), l, if logins == [] then clock else logins[|logins| - 1].now);
  }

  /** An attempt leaves the address with its recent times, and this one more if it failed; others keep theirs. */
  lemma AttemptLeaves(attempts: map<string, seq<real>>, l: Login)
    ensures var (attempts', answer) := Attempted(attempts, l.ip, l.now, l.valid);
      && (forall ip :: ip != l.ip ==> Failures(attempts', ip) == Failures(attempts, ip))
      && Failures(attempts', l.ip) ==
        Keep(Failures(attempts, l.ip), Recent(l.now)) + if answer == BadCredentials then [l.now] else []
  {
  }
}
