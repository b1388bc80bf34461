/** app/core/deploy_lock.py: the in-memory try-lock table whose entries expire. */
module DeployLock {

  const TTL: real := 3600.0

  /** `_lock_store` and `_lock_timestamps`. */
  datatype Table = Table(store: map<string, bool>, stamps: map<string, real>)

  const NO_LOCKS := Table(map[], map[])

  predicate Consistent(t: Table) { t.store.Keys == t.stamps.Keys }

  function Expired(t: Table, now: real): set<string> {
    set k | k in t.stamps && now - t.stamps[k] > TTL
  }

  function Purge(t: Table, now: real): Table {
    Table(t.store - Expired(t, now), t.stamps - Expired(t, now))
  }

  /** The key is held and its entry has not expired. */
  predicate Live(t: Table, key: string, now: real) { key in Purge(t, now).store }

  /** The table after `acquire`, and whether the lock was won. */
  function TryAcquire(t: Table, key: string, now: real): (Table, bool) {
    var p := Purge(t, now);
    if key in p.store then (p, false)
    else (Table(p.store[key := true], p.stamps[key := now]), true)
  }

  function Release(t: Table, key: string): Table { Table(t.store - {key}, t.stamps - {key}) }

  function Refresh(t: Table, key: string, now: real): Table {
    if key in t.store then t.(stamps := t.stamps[key := now]) else t
  }

  /** `is_locked` drops the entry it finds expired. */
  function CheckLocked(t: Table, key: string, now: real): (Table, bool) {
    if key !in t.store then (t, false)
    else if now - (if key in t.stamps then t.stamps[key] else 0.0) > TTL then (Release(t, key), false)
    else (t, true)
  }

  datatype Op =
    | Acquire(who: nat, key: string)
    | Free(who: nat, key: string)
    | Touch(who: nat, key: string)
    | IsLocked(key: string)
    | ListLocked

  /** One mutex-protected block, executed when the clock reads `now`. */
  datatype Step = Step(op: Op, now: real)

  /** The table, and who believes to hold what: the time of the last acquire or refresh of each claim. */
  datatype World = World(table: Table, claims: map<(nat, string), real>)

  const START := World(NO_LOCKS, map[])

  function Next(w: World, s: Step): World {
    match s.op
    case Acquire(who, key) =>
      var (t, ok) := TryAcquire(w.table, key, s.now);
      World(t, if ok then w.claims[(who, key) := s.now] else w.claims)
    case Free(who, key) => World(Release(w.table, key), w.claims - {(who, key)})
    case Touch(who, key) =>
      World(Refresh(w.table, key, s.now),
            if (who, key) in w.claims then w.claims[(who, key) := s.now] else w.claims)
    case IsLocked(key) => w.(table := CheckLocked(w.table, key, s.now).0)
    case ListLocked => w.(table := Purge(w.table, s.now))
  }

  /** A step takes the table of any world from `t` to `t'`. */
  ghost predicate Leads(t: Table, s: Step, t': Table) { forall w: World :: w.table == t ==> Next(w, s).table == t' }

  class LockTable {
    var store: map<string, bool>
    var stamps: map<string, real>

    constructor ()
      ensures State() == NO_LOCKS
    {
      store, stamps := map[], map[];
    }

    function State(): Table
      reads this
    {
      Table(store, stamps)
    }

    /** The purge loops shared by `acquire` and `list_locked`. */
    method DropExpired(now: real)
      modifies this
      ensures State() == Purge(old(State()), now)
    {
      var toRemove: set<string> := {};
      var unseen := stamps.Keys;
      while unseen != {}
        invariant unseen <= stamps.Keys
        invariant toRemove == Expired(State(), now) - unseen
        decreases unseen
      {
        var k :| k in unseen;
        if now - stamps[k] > TTL {
          toRemove := toRemove + {k};
        }
        unseen := unseen - {k};
      }
      ghost var before := State();
      ghost var removed: set<string> := {};
      assert before.store - {} == before.store && before.stamps - {} == before.stamps;
      while toRemove != {}
        invariant removed + toRemove == Expired(before, now)
        invariant store == before.store - removed && stamps == before.stamps - removed
        decreases toRemove
      {
        var k :| k in toRemove;
        store := store - {k};
        stamps := stamps - {k};
        toRemove := toRemove - {k};
        removed := removed + {k};
      }
    }

    method Acquire(key: string, now: real) returns (ok: bool)
      modifies this
      ensures (State(), ok) == TryAcquire(old(State()), key, now)
      ensures forall who :: Leads(old(State()), Step(Op.Acquire(who, key), now), State())
    {
      DropExpired(now);
      if key in store {
        return false;
      }
      store := store[key := true];
      stamps := stamps[key := now];
      ok := true;
    }

    method Free(key: string)
      modifies this
      ensures State() == Release(old(State()), key)
      ensures forall who, now :: Leads(old(State()), Step(Op.Free(who, key), now), State())
    {
      store := store - {key};
      stamps := stamps - {key};
    }

    method Touch(key: string, now: real)
      modifies this
      ensures State() == Refresh(old(State()), key, now)
      ensures forall who :: Leads(old(State()), Step(Op.Touch(who, key), now), State())
    {
      if key in store {
        stamps := stamps[key := now];
      }
    }

    method IsLocked(key: string, now: real) returns (locked: bool)
      modifies this
      ensures (State(), locked) == CheckLocked(old(State()), key, now)
      ensures Leads(old(State()), Step(Op.IsLocked(key), now), State())
    {
      if key !in store {
        return false;
      }
      var stamp := if key in stamps then stamps[key] else 0.0;
      if now - stamp > TTL {
        Free(key);
        return false;
      }
      locked := true;
    }

    method ListLocked(now: real) returns (keys: set<string>)
      modifies this
      ensures State() == Purge(old(State()), now) && keys == store.Keys
      ensures Leads(old(State()), Step(Op.ListLocked, now), State())
    {
      DropExpired(now);
      keys := store.Keys;
    }
  }

  /** On consistent tables `is_locked` answers exactly whether the entry is live. */
  lemma CheckLockedIsLive(t: Table, key: string, now: real)
    requires Consistent(t)
    ensures CheckLocked(t, key, now).1 <==> Live(t, key, now)
    ensures forall k :: Live(CheckLocked(t, key, now).0, k, now) <==> Live(t, k, now)
  {
    var t' := CheckLocked(t, key, now).0;
    forall k ensures Live(t', k, now) <==> Live(t, k, now) {
      assert k in Expired(t', now) ==> k in Expired(t, now);
    }
  }

  /** A lock is live for an hour after its time stamp, the full hour included. */
  lemma LiveIff(t: Table, key: string, now: real)
    requires Consistent(t)
    ensures Live(t, key, now) <==> key in t.store && now - t.stamps[key] <= 3600.0
  {
  }

  /** What `is_locked` answers on any table; an entry without a stamp counts as stamped at 0. */
  lemma CheckedIff(t: Table, key: string, now: real)
    ensures CheckLocked(t, key, now).1 <==>
      key in t.store && now - (if key in t.stamps then t.stamps[key] else 0.0) <= 3600.0
  {
  }

  /** Acquiring wins exactly what is not live; afterwards the live entries are in the table, and the key as stamped. */
  lemma AcquiredIff(t: Table, key: string, now: real)
    requires Consistent(t)
    ensures var (t', ok) := TryAcquire(t, key, now);
      && (ok <==> !(key in t.store && now - t.stamps[key] <= 3600.0))
      && Consistent(t') && key in t'.store
      && (forall k :: k != key ==> (k in t'.store <==> k in t.store && now - t.stamps[k] <= 3600.0))
      && (forall k :: k in t'.store ==> t'.stamps[k] == if ok && k == key then now else t.stamps[k])
  {
  }

  // ------------------------------------------------------- concurrent holders

  function Run(w: World, steps: seq<Step>): World
    decreases steps
  {
    if steps == [] then w else Run(Next(w, steps[0]), steps[1..])
  }

  /** Every claim was renewed within the hour, and keys are freed or refreshed by their holder only. */
  predicate Disciplined(w: World, s: Step) {
    && (forall c :: c in w.claims ==> s.now - w.claims[c] <= 3600.0)
    && ((s.op.Free? || s.op.Touch?) ==> (s.op.who, s.op.key) in w.claims)
  }

  predicate DisciplinedRun(w: World, steps: seq<Step>)
    decreases steps
  {
    steps == [] || (Disciplined(w, steps[0]) && DisciplinedRun(Next(w, steps[0]), steps[1..]))
  }

  predicate OneHolderPerKey(w: World) {
    forall c, d :: c in w.claims && d in w.claims && c.1 == d.1 ==> c == d
  }

  /** Every claim is backed by an entry with the claim's own time stamp. */
  predicate Backed(w: World) {
    forall c :: c in w.claims ==> c.1 in w.table.store && c.1 in w.table.stamps && w.table.stamps[c.1] == w.claims[c]
  }

  /** The two dictionaries keep the same keys whatever the callers do. */
  lemma {:induction false} DictionariesAgree(w: World, steps: seq<Step>)
    requires Consistent(w.table)
    ensures Consistent(Run(w, steps).table)
    decreases steps
  {
    if steps != [] {
      DictionariesAgree(Next(w, steps[0]), steps[1..]);
    }
  }

  lemma StepIsSafe(w: World, s: Step)
    requires OneHolderPerKey(w) && Backed(w) && Disciplined(w, s)
    ensures OneHolderPerKey(Next(w, s)) && Backed(Next(w, s))
  {
    var w' := Next(w, s);
    forall c | c in w'.claims
      ensures c.1 in w'.table.store && c.1 in w'.table.stamps && w'.table.stamps[c.1] == w'.claims[c]
    {
      assert c in w.claims ==> c.1 !in Expired(w.table, s.now);
    }
  }

  /**
   Safety over all interleavings: in every disciplined run no key has two holders, and every holder's lock is in the
   table.
   */
  lemma {:induction false} NoKeyHasTwoHolders(w: World, steps: seq<Step>)
    requires OneHolderPerKey(w) && Backed(w) && DisciplinedRun(w, steps)
    ensures OneHolderPerKey(Run(w, steps)) && Backed(Run(w, steps))
    decreases steps
  {
    if steps != [] {
      StepIsSafe(w, steps[0]);
      NoKeyHasTwoHolders(Next(w, steps[0]), steps[1..]);
    }
  }

  lemma DisciplinedRunsAreSafe(steps: seq<Step>)
    requires DisciplinedRun(START, steps)
    ensures OneHolderPerKey(Run(START, steps)) && Consistent(Run(START, steps).table)
    ensures forall c :: c in Run(START, steps).claims ==> c.1 in Run(START, steps).table.store
  {
    NoKeyHasTwoHolders(START, steps);
    DictionariesAgree(START, steps);
  }

  ghost predicate Contended(w: World, key: string) {
    exists c, d :: c in w.claims && d in w.claims && c != d && c.1 == d.1 == key
  }

  /** An acquisition gives a key a second holder exactly when somebody else held it past the TTL. */
  lemma SecondHolderIffOverdue(w: World, who: nat, key: string, now: real)
    requires OneHolderPerKey(w) && Backed(w)
    ensures Contended(Next(w, Step(Acquire(who, key), now)), key)
       <==> exists c :: c in w.claims && c.1 == key && c.0 != who && now - w.claims[c] > 3600.0
  {
    var w' := Next(w, Step(Acquire(who, key), now));
    if c :| c in w.claims && c.1 == key && c.0 != who && now - w.claims[c] > 3600.0 {
      assert key in Expired(w.table, now);
      assert c in w'.claims && (who, key) in w'.claims && c != (who, key);
    }
  }
}
