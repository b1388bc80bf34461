/** Deployment requests racing for their locks, one mutex-protected block at a time. */
module DeploymentRace {
  import opened DeployLock
  import opened DeploymentLocks

  /** `Taking(n)` holds the first `n` keys; `Undoing(d, n)` has released `d` of the `n` it held. */
  datatype Phase = Taking(n: nat) | Undoing(d: nat, n: nat) | Refused

  datatype Task = Task(req: Request, phase: Phase)

  datatype Race = Race(table: Table, tasks: seq<Task>)

  predicate Won(task: Task) { task.phase == Taking(|Keys(task.req)|) }

  predicate Finished(w: Race) { forall i :: 0 <= i < |w.tasks| ==> Won(w.tasks[i]) || w.tasks[i].phase.Refused? }

  /** The next `acquire` or `release` call of task `i`. */
  function TaskStep(w: Race, i: nat, now: real): Race
    requires i < |w.tasks|
  {
    var task := w.tasks[i];
    var keys := Keys(task.req);
    match task.phase
    case Taking(n) =>
      if n >= |keys| then w
      else
        var (t, ok) := TryAcquire(w.table, keys[n], now);
        var phase := if ok then Taking(n + 1) else if n == 0 then Refused else Undoing(0, n);
        Race(t, w.tasks[i := task.(phase := phase)])
    case Undoing(d, n) =>
      if d >= |keys| then w
      else
        var phase := if d + 1 < n then Undoing(d + 1, n) else Refused;
        Race(Release(w.table, keys[d]), w.tasks[i := task.(phase := phase)])
    case Refused => w
  }

  /** A schedule says which task moves next, and when. */
  function Play(w: Race, schedule: seq<(nat, real)>): (r: Race)
    requires forall s :: s in schedule ==> s.0 < |w.tasks|
    ensures |r.tasks| == |w.tasks|
    decreases schedule
  {
    if schedule == [] then w
    else
      assert schedule[0] in schedule;
      Play(TaskStep(w, schedule[0].0, schedule[0].1), schedule[1..])
  }

  /** The entry of `key`, if any, had expired at time `t0`. */
  predicate Stale(t: Table, key: string, t0: real) {
    key in t.store ==> key in t.stamps && t0 - t.stamps[key] > TTL
  }

  /** Colon-free names, distinct servers, and none of the keys held. */
  predicate Ready(w: Race, t0: real) {
    && Consistent(w.table)
    && (forall i :: 0 <= i < |w.tasks| ==>
      && w.tasks[i].phase == Taking(0) && ColonFree(w.tasks[i].req) && Distinct(w.tasks[i].req.servers)
      && forall k :: k in Keys(w.tasks[i].req) ==> Stale(w.table, k, t0))
  }

  predicate WithinTTL(schedule: seq<(nat, real)>, tasks: nat, t0: real) {
    forall s :: s in schedule ==> s.0 < tasks && t0 <= s.1 <= t0 + TTL
  }

  predicate Leads(task: Task) { task.phase.Taking? && task.phase.n > 0 }

  /** The keys a task holds. */
  function Held(task: Task): seq<string> {
    if task.phase.Taking? && task.phase.n <= |Keys(task.req)| then Keys(task.req)[..task.phase.n] else []
  }

  predicate Rivals(a: Task, b: Task) { Base(a.req) == Base(b.req) }

  predicate IsHeld(w: Race, key: string) { exists j :: 0 <= j < |w.tasks| && key in Held(w.tasks[j]) }

  predicate HasLeader(w: Race, task: Task) {
    exists j :: 0 <= j < |w.tasks| && Leads(w.tasks[j]) && Rivals(w.tasks[j], task)
  }

  predicate Sound(task: Task) {
    && ColonFree(task.req) && Distinct(Keys(task.req))
    && (task.phase.Refused? || (task.phase.Taking? && task.phase.n <= |Keys(task.req)|))
  }

  predicate OneLeader(w: Race) {
    forall i, j | 0 <= i < |w.tasks| && 0 <= j < |w.tasks| && Leads(w.tasks[i]) && Leads(w.tasks[j]) ::
      Rivals(w.tasks[i], w.tasks[j]) ==> i == j
  }

  predicate IsFresh(t: Table, key: string, t0: real) { key in t.store && key in t.stamps && t.stamps[key] >= t0 }

  /** What a task holds is in the table since the race began. */
  predicate HeldIsFresh(w: Race, t0: real) {
    forall i :: 0 <= i < |w.tasks| ==> forall k :: k in Held(w.tasks[i]) ==> IsFresh(w.table, k, t0)
  }

  /** A racing key that is in the table had expired before the race, or some task holds it. */
  predicate Accounted(w: Race, t0: real) {
    forall i :: 0 <= i < |w.tasks| ==>
      forall k :: k in Keys(w.tasks[i].req) ==> Stale(w.table, k, t0) || IsHeld(w, k)
  }

  predicate LosersHaveLeader(w: Race) {
    forall i :: 0 <= i < |w.tasks| && w.tasks[i].phase.Refused? ==> HasLeader(w, w.tasks[i])
  }

  predicate Invariant(w: Race, t0: real) {
    && Consistent(w.table) && (forall i :: 0 <= i < |w.tasks| ==> Sound(w.tasks[i]))
    && OneLeader(w) && HeldIsFresh(w, t0) && Accounted(w, t0) && LosersHaveLeader(w)
  }

  lemma SharedKeyMeansRivals(a: Task, b: Task, key: string)
    requires ColonFree(a.req) && ColonFree(b.req) && key in Keys(a.req) && key in Keys(b.req)
    ensures Rivals(a, b)
  {
    var i :| 0 <= i < |Keys(a.req)| && Keys(a.req)[i] == key;
    var j :| 0 <= j < |Keys(b.req)| && Keys(b.req)[j] == key;
    KeysAreInjective(a.req, b.req, i, j);
  }

  lemma BaseComesFirst(req: Request)
    ensures |Keys(req)| > 0 && Keys(req)[0] == Base(req)
  {
  }

  /** A task's next key is held by someone exactly when it is the base key and a rival leads. */
  lemma NextKeyIsHeldIff(w: Race, i: nat, t0: real)
    requires Invariant(w, t0) && i < |w.tasks|
    requires w.tasks[i].phase.Taking? && w.tasks[i].phase.n < |Keys(w.tasks[i].req)|
    ensures var task := w.tasks[i];
      IsHeld(w, Keys(task.req)[task.phase.n]) <==> task.phase.n == 0 && HasLeader(w, task)
  {
    hide Base, ServerKey, Keys, ColonFree, HeldIsFresh, Accounted, LosersHaveLeader;
    var task := w.tasks[i];
    var keys := Keys(task.req);
    var key := keys[task.phase.n];
    assert key in keys;
    forall j | 0 <= j < |w.tasks| && key in Held(w.tasks[j])
      ensures Leads(w.tasks[j]) && Rivals(w.tasks[j], task) && task.phase.n == 0
    {
      assert key in Keys(w.tasks[j].req);
      SharedKeyMeansRivals(w.tasks[j], task, key);
    }
    if task.phase.n == 0 {
      BaseComesFirst(task.req);
      forall j | 0 <= j < |w.tasks| && Leads(w.tasks[j]) && Rivals(w.tasks[j], task)
        ensures key in Held(w.tasks[j])
      {
        BaseComesFirst(w.tasks[j].req);
        assert Held(w.tasks[j])[0] == key;
      }
    }
  }

  /** So a task can take its next key unless that is the base key and a rival leads. */
  lemma CanTake(w: Race, i: nat, now: real, t0: real)
    requires Invariant(w, t0) && i < |w.tasks| && t0 <= now <= t0 + TTL
    requires w.tasks[i].phase.Taking? && w.tasks[i].phase.n < |Keys(w.tasks[i].req)|
    ensures var task := w.tasks[i];
      TryAcquire(w.table, Keys(task.req)[task.phase.n], now).1 <==> task.phase.n > 0 || !HasLeader(w, task)
  {
    NextKeyIsHeldIff(w, i, t0);
    hide Base, ServerKey, Keys, ColonFree, LosersHaveLeader, OneLeader, HasLeader;
    var key := Keys(w.tasks[i].req)[w.tasks[i].phase.n];
    assert key in Keys(w.tasks[i].req);
    assert IsHeld(w, key) ==> IsFresh(w.table, key, t0);
    assert !IsHeld(w, key) ==> Stale(w.table, key, t0);
  }

  /** An acquisition at `now` touches `key` only, apart from dropping entries older than the race. */
  predicate Extends(t: Table, t': Table, key: string, t0: real) {
    && Consistent(t')
    && (forall k :: k in t'.stamps && k != key ==> k in t.stamps && t'.stamps[k] == t.stamps[k])
    && (forall k :: k in t.stamps && t.stamps[k] >= t0 ==> IsFresh(t', k, t0))
  }

  lemma AcquireExtends(t: Table, key: string, now: real, t0: real)
    requires Consistent(t) && t0 <= now <= t0 + TTL
    ensures var (t', ok) := TryAcquire(t, key, now);
      Extends(t, t', key, t0) && IsFresh(t', key, t0) == (ok || IsFresh(t, key, t0)) && Consistent(t')
  {
  }

  lemma LeadersStay(w: Race, w': Race, i: nat)
    requires LosersHaveLeader(w) && |w.tasks| == |w'.tasks| && i < |w.tasks|
    requires forall j :: 0 <= j < |w.tasks| && j != i ==> w'.tasks[j] == w.tasks[j]
    requires w'.tasks[i].req == w.tasks[i].req && (Leads(w.tasks[i]) ==> Leads(w'.tasks[i]))
    requires w'.tasks[i].phase.Refused? ==> HasLeader(w, w.tasks[i])
    ensures LosersHaveLeader(w')
  {
    hide Base, ServerKey, Keys;
    forall j | 0 <= j < |w'.tasks| && w'.tasks[j].phase.Refused? ensures HasLeader(w', w'.tasks[j]) {
      assert HasLeader(w, w.tasks[j]);
      var m :| 0 <= m < |w.tasks| && Leads(w.tasks[m]) && Rivals(w.tasks[m], w.tasks[j]);
      assert Leads(w'.tasks[m]) && Rivals(w'.tasks[m], w'.tasks[j]);
    }
  }

  lemma TakingKeepsInvariant(w: Race, w': Race, i: nat, t0: real)
    requires Invariant(w, t0) && i < |w.tasks|
    requires w.tasks[i].phase.Taking? && w.tasks[i].phase.n < |Keys(w.tasks[i].req)|
    requires w.tasks[i].phase.n > 0 || !HasLeader(w, w.tasks[i])
    requires w'.tasks == w.tasks[i := w.tasks[i].(phase := Taking(w.tasks[i].phase.n + 1))]
    requires Consistent(w.table) && Extends(w.table, w'.table, Keys(w.tasks[i].req)[w.tasks[i].phase.n], t0)
    requires IsFresh(w'.table, Keys(w.tasks[i].req)[w.tasks[i].phase.n], t0)
    ensures Invariant(w', t0)
  {
    hide Base, ServerKey, Keys, ColonFree, Distinct;
    var task, task' := w.tasks[i], w'.tasks[i];
    var key := Keys(task.req)[task.phase.n];
    assert Held(task') == Held(task) + [key];
    assert forall j :: 0 <= j < |w'.tasks| ==> w'.tasks[j].req == w.tasks[j].req && Sound(w'.tasks[j]);
    assert OneLeader(w') by {
      forall j, m | 0 <= j < |w'.tasks| && 0 <= m < |w'.tasks| && Leads(w'.tasks[j]) && Leads(w'.tasks[m])
                    && Rivals(w'.tasks[j], w'.tasks[m])
        ensures j == m
      {
        assert j != i ==> Leads(w.tasks[j]);
        assert m != i ==> Leads(w.tasks[m]);
        assert Rivals(w.tasks[j], w.tasks[m]) && Rivals(w.tasks[m], w.tasks[j]);
      }
    }
    assert HeldIsFresh(w', t0) by {
      forall j, k | 0 <= j < |w'.tasks| && k in Held(w'.tasks[j]) ensures IsFresh(w'.table, k, t0) {
        assert k == key || k in Held(w.tasks[j]);
      }
    }
    assert Accounted(w', t0) by {
      forall j, k | 0 <= j < |w'.tasks| && k in Keys(w'.tasks[j].req) ensures Stale(w'.table, k, t0) || IsHeld(w', k) {
        if k == key {
          assert k in Held(w'.tasks[i]);
        } else if IsHeld(w, k) {
          var m :| 0 <= m < |w.tasks| && k in Held(w.tasks[m]);
          assert k in Held(w'.tasks[m]);
        }
      }
    }
    assert LosersHaveLeader(w') by { LeadersStay(w, w', i); }
  }

  lemma RefusalKeepsInvariant(w: Race, w': Race, i: nat, t0: real)
    requires Invariant(w, t0) && i < |w.tasks|
    requires w.tasks[i].phase == Taking(0) && HasLeader(w, w.tasks[i])
    requires w'.tasks == w.tasks[i := w.tasks[i].(phase := Refused)]
    requires Consistent(w.table) && 0 < |Keys(w.tasks[i].req)|
    requires Extends(w.table, w'.table, Keys(w.tasks[i].req)[0], t0) && IsHeld(w, Keys(w.tasks[i].req)[0])
    ensures Invariant(w', t0)
  {
    hide Base, ServerKey, Keys, ColonFree, Distinct;
    var key := Keys(w.tasks[i].req)[0];
    assert forall j :: 0 <= j < |w'.tasks| ==>
      w'.tasks[j].req == w.tasks[j].req && Sound(w'.tasks[j]) && Held(w'.tasks[j]) == Held(w.tasks[j]);
    assert OneLeader(w') by {
      forall j, m | 0 <= j < |w'.tasks| && 0 <= m < |w'.tasks| && Leads(w'.tasks[j]) && Leads(w'.tasks[m])
                    && Rivals(w'.tasks[j], w'.tasks[m])
        ensures j == m
      {
        assert Leads(w.tasks[j]) && Leads(w.tasks[m]) && Rivals(w.tasks[j], w.tasks[m]);
      }
    }
    assert HeldIsFresh(w', t0) by {
      forall j, k | 0 <= j < |w'.tasks| && k in Held(w'.tasks[j]) ensures IsFresh(w'.table, k, t0) {
        assert k in Held(w.tasks[j]);
      }
    }
    assert Accounted(w', t0) by {
      forall j, k | 0 <= j < |w'.tasks| && k in Keys(w'.tasks[j].req) ensures Stale(w'.table, k, t0) || IsHeld(w', k) {
        if IsHeld(w, k) {
          var m :| 0 <= m < |w.tasks| && k in Held(w.tasks[m]);
          assert k in Held(w'.tasks[m]);
        }
      }
    }
    assert LosersHaveLeader(w') by { LeadersStay(w, w', i); }
  }

  lemma StepKeepsInvariant(w: Race, i: nat, now: real, t0: real)
    requires Invariant(w, t0) && i < |w.tasks| && t0 <= now <= t0 + TTL
    ensures Invariant(TaskStep(w, i, now), t0)
  {
    var task := w.tasks[i];
    if task.phase.Taking? && task.phase.n < |Keys(task.req)| {
      CanTake(w, i, now, t0);
      NextKeyIsHeldIff(w, i, t0);
      AcquireExtends(w.table, Keys(task.req)[task.phase.n], now, t0);
      hide Base, ServerKey, Keys, ColonFree, Distinct, HasLeader, IsHeld, Extends, IsFresh;
      hide OneLeader, HeldIsFresh, Accounted, LosersHaveLeader, Purge;
      if task.phase.n > 0 || !HasLeader(w, task) {
        TakingKeepsInvariant(w, TaskStep(w, i, now), i, t0);
      } else {
        RefusalKeepsInvariant(w, TaskStep(w, i, now), i, t0);
      }
    }
  }

  lemma {:induction false} PlayKeepsInvariant(w: Race, schedule: seq<(nat, real)>, t0: real)
    requires Invariant(w, t0) && WithinTTL(schedule, |w.tasks|, t0)
    ensures Invariant(Play(w, schedule), t0)
    ensures |Play(w, schedule).tasks| == |w.tasks|
    ensures forall i :: 0 <= i < |w.tasks| ==> Play(w, schedule).tasks[i].req == w.tasks[i].req
    decreases schedule
  {
    hide Invariant;
    if schedule != [] {
      assert schedule[0] in schedule;
      StepKeepsInvariant(w, schedule[0].0, schedule[0].1, t0);
      PlayKeepsInvariant(TaskStep(w, schedule[0].0, schedule[0].1), schedule[1..], t0);
    }
  }

  predicate OneWinnerPerTarget(w: Race) {
    forall i, j | 0 <= i < |w.tasks| && 0 <= j < |w.tasks| && Won(w.tasks[i]) && Won(w.tasks[j]) ::
      Rivals(w.tasks[i], w.tasks[j]) ==> i == j
  }

  predicate WinnersHoldTheirKeys(w: Race) {
    forall i :: 0 <= i < |w.tasks| && Won(w.tasks[i]) ==> forall k :: k in Keys(w.tasks[i].req) ==> k in w.table.store
  }

  predicate HasWinner(w: Race, task: Task) {
    exists j :: 0 <= j < |w.tasks| && Won(w.tasks[j]) && Rivals(w.tasks[j], task)
  }

  predicate EveryTargetIsWon(w: Race) { forall i :: 0 <= i < |w.tasks| ==> HasWinner(w, w.tasks[i]) }

  lemma WinnersLead(task: Task)
    requires Won(task)
    ensures Leads(task) && Held(task) == Keys(task.req)
  {
    BaseComesFirst(task.req);
    hide Keys;
    assert Keys(task.req)[..|Keys(task.req)|] == Keys(task.req);
  }

  lemma WinnersHold(w: Race, t0: real)
    requires HeldIsFresh(w, t0)
    ensures WinnersHoldTheirKeys(w)
  {
    hide Keys, Held, Won;
    forall i | 0 <= i < |w.tasks| && Won(w.tasks[i]) ensures Held(w.tasks[i]) == Keys(w.tasks[i].req) {
      WinnersLead(w.tasks[i]);
    }
  }

  lemma FinishedIsWon(w: Race)
    requires LosersHaveLeader(w) && Finished(w)
    ensures EveryTargetIsWon(w)
  {
    hide Keys, Base;
    forall i | 0 <= i < |w.tasks| ensures HasWinner(w, w.tasks[i]) {
      if Won(w.tasks[i]) {
        assert Rivals(w.tasks[i], w.tasks[i]);
      } else {
        assert HasLeader(w, w.tasks[i]);
        var j :| 0 <= j < |w.tasks| && Leads(w.tasks[j]) && Rivals(w.tasks[j], w.tasks[i]);
        assert Won(w.tasks[j]);
      }
    }
  }

  lemma LeadersDecide(w: Race)
    requires OneLeader(w)
    ensures OneWinnerPerTarget(w)
  {
    hide Keys, Base, Leads, Won, Rivals;
    forall i | 0 <= i < |w.tasks| && Won(w.tasks[i]) ensures Leads(w.tasks[i]) {
      WinnersLead(w.tasks[i]);
    }
  }

  lemma InvariantDecides(w: Race, t0: real)
    requires Invariant(w, t0)
    ensures OneWinnerPerTarget(w) && WinnersHoldTheirKeys(w)
    ensures Finished(w) ==> EveryTargetIsWon(w)
  {
    hide Keys, Base, Won, HeldIsFresh, Accounted, LosersHaveLeader, Finished, EveryTargetIsWon, WinnersHoldTheirKeys;
    WinnersHold(w, t0);
    if Finished(w) { FinishedIsWon(w); }
    LeadersDecide(w);
  }

  lemma ReadyIsInvariant(w: Race, t0: real)
    requires Ready(w, t0)
    ensures Invariant(w, t0)
  {
    forall i | 0 <= i < |w.tasks| ensures Distinct(Keys(w.tasks[i].req)) {
      DistinctKeysIffDistinctServers(w.tasks[i].req);
    }
    hide Base, ServerKey, Keys, ColonFree, Distinct;
    assert forall i :: 0 <= i < |w.tasks| ==> Held(w.tasks[i]) == [];
  }

  /**
   Whatever the interleaving, while nobody gives up a lock it won, at most one of the racing requests
   for a target wins, and it holds all of its keys; once all have finished exactly one has won.
   */
  lemma ExactlyOneWinner(w: Race, schedule: seq<(nat, real)>, t0: real)
    requires Ready(w, t0) && WithinTTL(schedule, |w.tasks|, t0)
    ensures var e := Play(w, schedule);
      && OneWinnerPerTarget(e) && WinnersHoldTheirKeys(e) && (Finished(e) ==> EveryTargetIsWon(e))
      && |e.tasks| == |w.tasks| && forall i :: 0 <= i < |w.tasks| ==> e.tasks[i].req == w.tasks[i].req
  {
    ReadyIsInvariant(w, t0);
    hide *;
    PlayKeepsInvariant(w, schedule, t0);
    InvariantDecides(Play(w, schedule), t0);
  }

  // --------------------------------------------------------- one task by itself

  /** Task `i` moves at the readings `clock[from..stop]`. */
  function Moves(i: nat, clock: seq<real>, from: nat, stop: nat): (r: seq<(nat, real)>)
    requires stop <= |clock|
    ensures forall s :: s in r ==> s.0 == i
    decreases stop - from
  {
    if from >= stop then [] else [(i, clock[from])] + Moves(i, clock, from + 1, stop)
  }

  lemma StepKeepsTasks(w: Race, i: nat, now: real)
    requires i < |w.tasks|
    ensures |TaskStep(w, i, now).tasks| == |w.tasks|
  {
  }

  lemma PlayFirst(w: Race, i: nat, clock: seq<real>, from: nat, stop: nat)
    requires i < |w.tasks| && from < stop <= |clock|
    ensures |TaskStep(w, i, clock[from]).tasks| == |w.tasks|
    ensures Play(w, Moves(i, clock, from, stop)) == Play(TaskStep(w, i, clock[from]), Moves(i, clock, from + 1, stop))
  {
    StepKeepsTasks(w, i, clock[from]);
    hide TaskStep;
    var moves := Moves(i, clock, from, stop);
    assert moves[0] == (i, clock[from]) && moves[1..] == Moves(i, clock, from + 1, stop);
  }

  /** Where its taking ends: with all keys, or refused, or about to undo what it took. */
  function Taken(task: Task, n: nat): Task {
    task.(phase := if n == |Keys(task.req)| then Taking(n) else if n == 0 then Refused else Undoing(0, n))
  }

  lemma {:induction false} TakingAlone(w: Race, i: nat, clock: seq<real>, at: nat)
    requires i < |w.tasks| && w.tasks[i].phase == Taking(at) && at <= |Keys(w.tasks[i].req)| <= |clock|
    ensures var keys := Keys(w.tasks[i].req);
      var (t, n) := TakeKeys(w.table, keys, clock, at);
      Play(w, Moves(i, clock, at, if n == |keys| then n else n + 1)) == Race(t, w.tasks[i := Taken(w.tasks[i], n)])
    decreases |Keys(w.tasks[i].req)| - at
  {
    hide Keys, TryAcquire;
    var task := w.tasks[i];
    var keys := Keys(task.req);
    var n := TakeKeys(w.table, keys, clock, at).1;
    var stop := if n == |keys| then n else n + 1;
    if at == |keys| {
      assert w.tasks[i := Taken(task, n)] == w.tasks;
    } else {
      PlayFirst(w, i, clock, at, stop);
      var next := TaskStep(w, i, clock[at]);
      if TryAcquire(w.table, keys[at], clock[at]).1 {
        TakingAlone(next, i, clock, at + 1);
        assert next.tasks[i := Taken(next.tasks[i], n)] == w.tasks[i := Taken(task, n)];
      } else {
        assert Moves(i, clock, at + 1, stop) == [];
      }
    }
  }

  lemma {:induction false} UndoingAlone(w: Race, i: nat, later: seq<real>, d: nat, n: nat)
    requires i < |w.tasks| && w.tasks[i].phase == Undoing(d, n) && d < n <= |Keys(w.tasks[i].req)| && n <= |later|
    ensures Play(w, Moves(i, later, d, n)) ==
      Race(FreeKeys(w.table, Keys(w.tasks[i].req)[d..n]), w.tasks[i := w.tasks[i].(phase := Refused)])
    decreases n - d
  {
    hide Keys, Release;
    var task := w.tasks[i];
    var keys := Keys(task.req);
    PlayFirst(w, i, later, d, n);
    var next := TaskStep(w, i, later[d]);
    assert keys[d..n][0] == keys[d] && keys[d..n][1..] == keys[d + 1..n];
    if d + 1 < n {
      UndoingAlone(next, i, later, d + 1, n);
      assert next.tasks[i := next.tasks[i].(phase := Refused)] == w.tasks[i := task.(phase := Refused)];
    } else {
      assert Moves(i, later, d + 1, n) == [] && keys[d + 1..n] == [];
    }
  }

  lemma SetTwice(tasks: seq<Task>, i: nat, a: Task, b: Task)
    requires i < |tasks|
    ensures tasks[i := a][i := b] == tasks[i := b]
  {
  }

  /** Refused, a task frees what it took. */
  lemma RefusedAlone(w: Race, i: nat, later: seq<real>, n: nat)
    requires i < |w.tasks| && n <= |Keys(w.tasks[i].req)| && n <= |later|
    requires w.tasks[i].phase == if n == 0 then Refused else Undoing(0, n)
    ensures Play(w, Moves(i, later, 0, n)) ==
      Race(FreeKeys(w.table, Keys(w.tasks[i].req)[..n]), w.tasks[i := w.tasks[i].(phase := Refused)])
  {
    hide Keys, TaskStep;
    var keys := Keys(w.tasks[i].req);
    assert keys[0..n] == keys[..n];
    if n == 0 {
      assert w.tasks[i := w.tasks[i].(phase := Refused)] == w.tasks;
    } else {
      hide Play, Moves, FreeKeys;
      UndoingAlone(w, i, later, 0, n);
    }
  }

  /** Left to itself, a task does what `acquire_deployment_locks` does: finding no key held, it takes them in order. */
  lemma AloneItWins(w: Race, i: nat, clock: seq<real>, keys: seq<string>, t: Table)
    requires i < |w.tasks| && w.tasks[i].phase == Taking(0) && keys == Keys(w.tasks[i].req) && |keys| <= |clock|
    requires TakeKeys(w.table, keys, clock, 0).0 == t && TakeKeys(w.table, keys, clock, 0).1 == |keys|
    ensures Play(w, Moves(i, clock, 0, |keys|)) == Race(t, w.tasks[i := w.tasks[i].(phase := Taking(|keys|))])
  {
    hide Keys, TakeKeys, TaskStep, Play, Moves;
    TakingAlone(w, i, clock, 0);
  }

  /** What it took in a race `w` it gives back there. */
  lemma RefusalUndone(w: Race, i: nat, later: seq<real>, t: Table, n: nat)
    requires i < |w.tasks| && n < |Keys(w.tasks[i].req)| && n <= |later|
    ensures Play(Race(t, w.tasks[i := Taken(w.tasks[i], n)]), Moves(i, later, 0, n)) ==
      Race(FreeKeys(t, Keys(w.tasks[i].req)[..n]), w.tasks[i := w.tasks[i].(phase := Refused)])
  {
    hide Keys, TaskStep, Play, Moves, FreeKeys;
    var task := w.tasks[i];
    var taken := Taken(task, n);
    var mid := Race(t, w.tasks[i := taken]);
    assert mid.tasks[i] == taken && taken.req == task.req && taken.(phase := Refused) == task.(phase := Refused);
    hide Taken;
    RefusedAlone(mid, i, later, n);
    SetTwice(w.tasks, i, taken, task.(phase := Refused));
  }

  /** Finding its key number `n` held, it then frees what it took. No other task is touched. */
  lemma AloneItIsRefused(w: Race, i: nat, clock: seq<real>, later: seq<real>, keys: seq<string>, t: Table, n: nat)
    requires i < |w.tasks| && w.tasks[i].phase == Taking(0) && keys == Keys(w.tasks[i].req)
    requires n < |keys| <= |clock| && n <= |later|
    requires TakeKeys(w.table, keys, clock, 0).0 == t && TakeKeys(w.table, keys, clock, 0).1 == n
    ensures Play(Play(w, Moves(i, clock, 0, n + 1)), Moves(i, later, 0, n)) ==
      Race(FreeKeys(t, keys[..n]), w.tasks[i := w.tasks[i].(phase := Refused)])
  {
    hide Keys, TakeKeys, TaskStep, Play, Moves, FreeKeys, Taken;
    TakingAlone(w, i, clock, 0);
    RefusalUndone(w, i, later, t, n);
  }
}
