/** app/deploy/locks.py: the lock keys of a deployment request, taken together or not at all. */
module DeploymentLocks {
  import opened PyText
  import opened DeployLock

  datatype Request = Request(system: string, service: string, environment: string, servers: seq<string>)

  /** Python's `value or 'default'`. */
  function OrDefault(s: string): string { if s == "" then "default" else s }

  function Base(req: Request): string {
    req.system + (":" + (OrDefault(req.service) + (":" + OrDefault(req.environment))))
  }

  function ServerKey(req: Request, i: nat): string
    requires i < |req.servers|
  {
    Base(req) + (":server:" + req.servers[i])
  }

  /** The base key first, then one key per server. */
  function Keys(req: Request): seq<string> {
    [Base(req)] + seq(|req.servers|, i requires 0 <= i < |req.servers| => ServerKey(req, i))
  }

  predicate Distinct(keys: seq<string>) { forall i, j :: 0 <= i < j < |keys| ==> keys[i] != keys[j] }

  predicate ColonFree(req: Request) {
    ':' !in req.system && ':' !in req.service && ':' !in req.environment
  }

  // ------------------------------------------------------------- key strings

  lemma FieldEnd(field: string, rest: string)
    requires ':' !in field && (rest == "" || rest[0] == ':')
    ensures Find(field + rest, ':') == |field|
  {
    var s := field + rest;
    assert forall i :: 0 <= i < |field| ==> s[i] == field[i];
    assert rest != "" ==> s[|field|] == rest[0];
  }

  /** A colon-free field is determined by the string it starts. */
  lemma SameField(f: string, g: string, restF: string, restG: string)
    requires ':' !in f && ':' !in g && f + restF == g + restG
    requires restF == "" || restF[0] == ':'
    requires restG == "" || restG[0] == ':'
    ensures f == g && restF == restG
  {
    FieldEnd(f, restF);
    FieldEnd(g, restG);
    assert f == (f + restF)[..|f|] && restF == (f + restF)[|f|..];
    assert g == (g + restG)[..|g|] && restG == (g + restG)[|g|..];
  }

  lemma BaseFromTheLeft(r: Request, x: string)
    ensures Base(r) + x == r.system + (":" + (OrDefault(r.service) + (":" + (OrDefault(r.environment) + x))))
  {
  }

  lemma SplitBase(r: Request, q: Request, x: string, y: string)
    requires ColonFree(r) && ColonFree(q) && Base(r) + x == Base(q) + y
    requires (x == "" || x[0] == ':') && (y == "" || y[0] == ':')
    ensures r.system == q.system && OrDefault(r.service) == OrDefault(q.service)
    ensures OrDefault(r.environment) == OrDefault(q.environment) && x == y
  {
    var er, eq := OrDefault(r.environment) + x, OrDefault(q.environment) + y;
    BaseFromTheLeft(r, x);
    BaseFromTheLeft(q, y);
    assert ':' !in OrDefault(r.service) && ':' !in OrDefault(q.service);
    assert ':' !in OrDefault(r.environment) && ':' !in OrDefault(q.environment);
    hide OrDefault, Base;
    FirstField(r.system, OrDefault(r.service) + (":" + er), q.system, OrDefault(q.service) + (":" + eq), ':');
    FirstField(OrDefault(r.service), er, OrDefault(q.service), eq, ':');
    SameField(OrDefault(r.environment), OrDefault(q.environment), x, y);
  }

  /** What a key is meant to lock: a system's service in an environment, or one server of it. */
  datatype Target = Target(system: string, service: string, environment: string, server: Option<string>)

  const SERVER := ":server:"

  function ServerPart(t: Target): string { if t.server.Some? then SERVER + t.server.value else "" }

  function TargetOf(req: Request, i: nat): Target
    requires i < |Keys(req)|
  {
    var server := if i == 0 then None else Some(req.servers[i - 1]);
    Target(req.system, OrDefault(req.service), OrDefault(req.environment), server)
  }

  lemma KeyIsBaseAndServer(req: Request, i: nat)
    requires i < |Keys(req)|
    ensures Keys(req)[i] == Base(req) + ServerPart(TargetOf(req, i))
  {
    assert Base(req) + "" == Base(req);
  }

  /**
   For colon-free names, two requests share a lock key exactly when they agree on system, service
   and environment and it is the base key, or the key of the same server, of both.
   */
  lemma KeysAreInjective(r: Request, q: Request, i: nat, j: nat)
    requires ColonFree(r) && ColonFree(q) && i < |Keys(r)| && j < |Keys(q)|
    ensures Keys(r)[i] == Keys(q)[j] <==>
      && r.system == q.system && OrDefault(r.service) == OrDefault(q.service)
      && OrDefault(r.environment) == OrDefault(q.environment)
      && (i == 0 <==> j == 0) && (i > 0 && j > 0 ==> r.servers[i - 1] == q.servers[j - 1])
  {
    KeyIsBaseAndServer(r, i);
    KeyIsBaseAndServer(q, j);
    if Keys(r)[i] == Keys(q)[j] {
      var x, y := ServerPart(TargetOf(r, i)), ServerPart(TargetOf(q, j));
      SplitBase(r, q, x, y);
      if i > 0 && j > 0 {
        assert r.servers[i - 1] == x[|SERVER|..] && q.servers[j - 1] == y[|SERVER|..];
      }
    }
  }

  /** With a colon in a name, different targets get the same key. */
  lemma ColonsCollide()
    ensures exists r: Request, q: Request :: r.system != q.system && Base(r) == Base(q)
  {
    var r, q := Request("a:b", "c", "d", []), Request("a", "b:c", "d", []);
    assert Base(r) == "a:b:c:d" == Base(q);
  }

  function KeyOf(t: Target): string {
    t.system + ":" + t.service + ":" + t.environment + ServerPart(t)
  }

  /** Service and environment have been given their defaults. */
  predicate Named(t: Target) { t.service != "" && t.environment != "" }

  lemma KeyIsOfTarget(req: Request, i: nat)
    requires i < |Keys(req)|
    ensures Named(TargetOf(req, i)) && Keys(req)[i] == KeyOf(TargetOf(req, i))
  {
    KeyIsBaseAndServer(req, i);
    var service, environment := OrDefault(req.service), OrDefault(req.environment);
    assert Base(req) == req.system + ":" + service + ":" + environment;
  }

  /** Every named target is that of a request. */
  lemma TargetIsAskedFor(t: Target)
    requires Named(t)
    ensures exists req: Request, i: nat :: i < |Keys(req)| && TargetOf(req, i) == t
  {
    var req := Request(t.system, t.service, t.environment, if t.server.Some? then [t.server.value] else []);
    var i := if t.server.Some? then 1 else 0;
    assert TargetOf(req, i) == t;
  }

  /** Where to cut a key: at two colons, and before the server's part, if any. */
  datatype Cut = Cut(i: nat, j: nat, k: Option<nat>)

  function End(key: string, c: Cut): nat { if c.k.Some? then c.k.value else |key| }

  predicate Cuts(key: string, c: Cut) {
    var end := End(key, c);
    && c.i + 1 < c.j && c.j + 1 < end <= |key| && key[c.i] == ':' && key[c.j] == ':'
    && (c.k.Some? ==> StartsWith(key[end..], SERVER))
  }

  function Pieces(key: string, c: Cut): Target
    requires Cuts(key, c)
  {
    var end := End(key, c);
    Target(key[..c.i], key[c.i + 1..c.j], key[c.j + 1..end], if c.k.Some? then Some(key[end + |SERVER|..]) else None)
  }

  /** Where the key was put together. */
  function Seams(t: Target): Cut {
    var j := |t.system| + 1 + |t.service|;
    Cut(|t.system|, j, if t.server.Some? then Some(j + 1 + |t.environment|) else None)
  }

  lemma KeyFromTheLeft(t: Target)
    ensures KeyOf(t) == t.system + (":" + (t.service + (":" + (t.environment + ServerPart(t)))))
  {
  }

  lemma Peel(key: string, at: nat, part: string, rest: string)
    requires at <= |key| && key[at..] == part + rest
    ensures at + |part| <= |key| && key[at..at + |part|] == part && key[at + |part|..] == rest
  {
    assert |key[at..]| == |key| - at;
    assert key[at..at + |part|] == key[at..][..|part|] && key[at + |part|..] == key[at..][|part|..];
  }

  lemma PeelField(key: string, at: nat, field: string, rest: string)
    requires at <= |key| && key[at..] == field + (":" + rest)
    ensures at + |field| < |key| && key[at..at + |field|] == field
    ensures key[at + |field|] == ':' && key[at + |field| + 1..] == rest
  {
    Peel(key, at, field, ":" + rest);
    Peel(key, at + |field|, ":", rest);
    assert key[at + |field|..][0] == key[at + |field|];
  }

  lemma PeelServer(key: string, at: nat, t: Target)
    requires at <= |key| && key[at..] == ServerPart(t)
    ensures t.server.Some? ==> StartsWith(key[at..], SERVER) && key[at + |SERVER|..] == t.server.value
    ensures t.server.None? ==> at == |key|
  {
    if t.server.Some? {
      Peel(key, at, SERVER, t.server.value);
    }
  }

  /** The three fields and the colons after the first two. */
  predicate Fields(key: string, at: nat, a: string, b: string, c: string) {
    var j := at + |a| + 1 + |b|;
    && j + 1 + |c| <= |key| && key[at..at + |a|] == a && key[at + |a|] == ':'
    && key[at + |a| + 1..j] == b && key[j] == ':' && key[j + 1..j + 1 + |c|] == c
  }

  lemma PeelFields(key: string, a: string, b: string, c: string, rest: string)
    requires key == a + (":" + (b + (":" + (c + rest))))
    ensures Fields(key, 0, a, b, c) && key[|a| + 1 + |b| + 1 + |c|..] == rest
  {
    assert key[0..] == key;
    PeelField(key, 0, a, b + (":" + (c + rest)));
    PeelField(key, |a| + 1, b, c + rest);
    Peel(key, |a| + 1 + |b| + 1, c, rest);
  }

  lemma SeamsCut(t: Target)
    requires Named(t)
    ensures Cuts(KeyOf(t), Seams(t)) && Pieces(KeyOf(t), Seams(t)) == t
  {
    KeyFromTheLeft(t);
    hide KeyOf, ServerPart, StartsWith, SERVER;
    PeelFields(KeyOf(t), t.system, t.service, t.environment, ServerPart(t));
    PeelServer(KeyOf(t), |t.system| + 1 + |t.service| + 1 + |t.environment|, t);
    assert KeyOf(t)[..|t.system|] == KeyOf(t)[0..|t.system|];
  }

  lemma CutTogether(key: string, i: nat, j: nat, end: nat)
    requires i < j < end <= |key| && key[i] == ':' && key[j] == ':'
    ensures key == key[..i] + ":" + key[i + 1..j] + ":" + key[j + 1..end] + key[end..]
  {
    assert key[..j] == key[..i] + ":" + key[i + 1..j];
    assert key[..end] == key[..j] + ":" + key[j + 1..end];
    assert key == key[..end] + key[end..];
  }

  lemma ServerEnds(s: string)
    requires StartsWith(s, SERVER)
    ensures |SERVER| <= |s| && s == SERVER + s[|SERVER|..]
  {
  }

  lemma PiecesAre(key: string, c: Cut)
    requires Cuts(key, c)
    ensures var t, end := Pieces(key, c), End(key, c);
            && c.i + 1 < c.j && c.j + 1 < end <= |key| && key[c.i] == ':' && key[c.j] == ':'
            && t.system == key[..c.i] && t.service == key[c.i + 1..c.j] && t.environment == key[c.j + 1..end]
            && ServerPart(t) == key[end..] && (t.server.Some? <==> c.k.Some?) && (c.k.None? ==> end == |key|)
  {
    hide StartsWith, SERVER;
    var end := End(key, c);
    if c.k.Some? {
      ServerEnds(key[end..]);
      assert key[end + |SERVER|..] == key[end..][|SERVER|..];
    }
  }

  lemma PiecesJoin(key: string, c: Cut)
    requires Cuts(key, c)
    ensures Named(Pieces(key, c)) && KeyOf(Pieces(key, c)) == key && Seams(Pieces(key, c)) == c
  {
    PiecesAre(key, c);
    hide Pieces, Cuts, ServerPart;
    CutTogether(key, c.i, c.j, End(key, c));
  }

  ghost predicate SharesKey(t: Target) {
    exists other: Target :: Named(other) && other != t && KeyOf(other) == KeyOf(t)
  }

  ghost predicate CutsOtherwise(t: Target) { exists c: Cut :: Cuts(KeyOf(t), c) && c != Seams(t) }

  /**
   A target shares its key with another one exactly when the key can also be cut elsewhere: at two other colons,
   between which and after which something is left, or at another place that reads `:server:`.
   */
  lemma SharesKeyIff(t: Target)
    requires Named(t)
    ensures SharesKey(t) <==> CutsOtherwise(t)
  {
    hide KeyOf, Cuts, Pieces, Seams;
    SeamsCut(t);
    if SharesKey(t) {
      var other :| Named(other) && other != t && KeyOf(other) == KeyOf(t);
      SeamsCut(other);
    }
    if CutsOtherwise(t) {
      var c :| Cuts(KeyOf(t), c) && c != Seams(t);
      PiecesJoin(KeyOf(t), c);
    }
  }

  function BaseTarget(req: Request): Target { TargetOf(req, 0) }

  ghost predicate BaseIsShared(req: Request) {
    exists q: Request :: Base(q) == Base(req) && BaseTarget(q) != BaseTarget(req)
  }

  ghost predicate BaseCutsOtherwise(req: Request) {
    exists c: Cut :: c.k.None? && Cuts(Base(req), c) && c != Seams(BaseTarget(req))
  }

  lemma BaseIsKeyOfTarget(req: Request)
    ensures Named(BaseTarget(req)) && Base(req) == KeyOf(BaseTarget(req)) && BaseTarget(req).server.None?
  {
    KeyIsOfTarget(req, 0);
  }

  lemma BaseCutIsAskedFor(req: Request, c: Cut)
    requires c.k.None? && Cuts(Base(req), c)
    ensures var t := Pieces(Base(req), c);
            var q := Request(t.system, t.service, t.environment, []);
            BaseTarget(q) == t && (KeyOf(t) == Base(req) ==> Base(q) == Base(req))
  {
    var t := Pieces(Base(req), c);
    BaseIsKeyOfTarget(Request(t.system, t.service, t.environment, []));
  }

  /**
   Another system, service or environment has the same base key exactly when two colons other than those written
   by the join also cut it into a system, a nonempty service and a nonempty environment.
   */
  lemma BaseIsSharedIff(req: Request)
    ensures BaseIsShared(req) <==> BaseCutsOtherwise(req)
  {
    hide KeyOf, Cuts, Pieces, Base, OrDefault;
    BaseIsKeyOfTarget(req);
    SeamsCut(BaseTarget(req));
    if BaseIsShared(req) {
      var q: Request :| Base(q) == Base(req) && BaseTarget(q) != BaseTarget(req);
      BaseIsKeyOfTarget(q);
      SeamsCut(BaseTarget(q));
    }
    if BaseCutsOtherwise(req) {
      var c: Cut :| c.k.None? && Cuts(Base(req), c) && c != Seams(BaseTarget(req));
      PiecesJoin(Base(req), c);
      BaseCutIsAskedFor(req, c);
    }
  }

  /** The keys of one request are pairwise distinct exactly when its servers are. */
  lemma DistinctKeysIffDistinctServers(req: Request)
    ensures Distinct(Keys(req)) <==> Distinct(req.servers)
  {
    var keys := Keys(req);
    forall i, j | 0 <= i < j < |req.servers|
      ensures keys[i + 1] == keys[j + 1] <==> req.servers[i] == req.servers[j]
    {
      var prefix := Base(req) + ":server:";
      assert keys[i + 1] == prefix + req.servers[i] && keys[j + 1] == prefix + req.servers[j];
      assert req.servers[i] == keys[i + 1][|prefix|..] && req.servers[j] == keys[j + 1][|prefix|..];
    }
    forall j | 0 < j < |keys| ensures |keys[0]| < |keys[j]| {
      assert keys[j] == ServerKey(req, j - 1);
    }
    if Distinct(keys) {
      forall i, j | 0 <= i < j < |req.servers| ensures req.servers[i] != req.servers[j] {
        assert keys[i + 1] != keys[j + 1];
      }
    } else {
      var i, j :| 0 <= i < j < |keys| && keys[i] == keys[j];
      assert i > 0 && req.servers[i - 1] == req.servers[j - 1];
    }
  }

  // --------------------------------------------------- one request, by itself

  /** Tries `keys[i..]` in order, each when its clock reading says; the table and how many keys are held. */
  function TakeKeys(t: Table, keys: seq<string>, clock: seq<real>, i: nat): (r: (Table, nat))
    requires i <= |keys| <= |clock|
    ensures i <= r.1 <= |keys|
    decreases |keys| - i
  {
    if i == |keys| then (t, i)
    else
      var (t', ok) := TryAcquire(t, keys[i], clock[i]);
      if ok then TakeKeys(t', keys, clock, i + 1) else (t', i)
  }

  function FreeKeys(t: Table, keys: seq<string>): Table
    decreases keys
  {
    if keys == [] then t else FreeKeys(Release(t, keys[0]), keys[1..])
  }

  datatype LockRecord = LockRecord(deploymentId: string, taskId: string, owner: string, status: string,
                                   createdAt: real, updatedAt: real, expiresAt: real)

  /** What a request writes for each of its keys: a row that is good for an hour. */
  function Claim(deploymentId: string, taskId: string, owner: string, now: real): LockRecord {
    LockRecord(deploymentId, taskId, owner, "locked", now, now, now + 3600.0)
  }

  function Persisted(rows: map<string, LockRecord>, key: string, claim: LockRecord): map<string, LockRecord> {
    rows[key := if key in rows then claim.(createdAt := rows[key].createdAt) else claim]
  }

  function Marked(rows: map<string, LockRecord>, key: string, now: real): map<string, LockRecord> {
    if key in rows then rows[key := rows[key].(status := "released", updatedAt := now)] else rows
  }

  /** The record table after persisting `keys`; a call whose flag is down failed and was swallowed. */
  function PersistAll(rows: map<string, LockRecord>, keys: seq<string>, up: seq<bool>, claim: LockRecord)
    : map<string, LockRecord>
    requires |keys| <= |up|
    decreases keys
  {
    if keys == [] then rows
    else
      var last := |keys| - 1;
      var before := PersistAll(rows, keys[..last], up, claim);
      if up[last] then Persisted(before, keys[last], claim) else before
  }

  function MarkAll(rows: map<string, LockRecord>, keys: seq<string>, up: seq<bool>, now: real)
    : map<string, LockRecord>
    requires |keys| <= |up|
    decreases keys
  {
    if keys == [] then rows
    else
      var last := |keys| - 1;
      var before := MarkAll(rows, keys[..last], up, now);
      if up[last] then Marked(before, keys[last], now) else before
  }

  datatype Answer = Acquired(keys: seq<string>) | Conflict(key: string)

  lemma {:induction false} FreeKeysSnoc(t: Table, keys: seq<string>, key: string)
    ensures FreeKeys(t, keys + [key]) == Release(FreeKeys(t, keys), key)
    decreases keys
  {
    if keys != [] {
      assert (keys + [key])[1..] == keys[1..] + [key];
      FreeKeysSnoc(Release(t, keys[0]), keys[1..], key);
    } else {
      assert ([] + [key])[1..] == [];
    }
  }

  class Locks {
    const table: LockTable
    var rows: map<string, LockRecord>

    constructor (table: LockTable)
      ensures this.table == table && rows == map[]
    {
      this.table := table;
      rows := map[];
    }

    method ReleaseDeploymentLocks(keys: seq<string>, now: real, up: seq<bool>)
      requires |keys| <= |up|
      modifies this, table
      ensures table.State() == FreeKeys(old(table.State()), keys)
      ensures rows == MarkAll(old(rows), keys, up, now)
    {
      assert keys[..0] == [];
      for i := 0 to |keys|
        invariant table.State() == FreeKeys(old(table.State()), keys[..i])
        invariant rows == MarkAll(old(rows), keys[..i], up, now)
      {
        assert keys[..i + 1][..i] == keys[..i];
        FreeKeysSnoc(old(table.State()), keys[..i], keys[i]);
        table.Free(keys[i]);
        if up[i] && keys[i] in rows {
          rows := rows[keys[i] := rows[keys[i]].(status := "released", updatedAt := now)];
        }
        assert keys[..i] + [keys[i]] == keys[..i + 1];
      }
      assert keys[..|keys|] == keys;
    }

    /** `now` and `later` are when the request and its rollback begin. */
    method AcquireDeploymentLocks(req: Request, deploymentId: string, taskId: string, owner: string, now: real,
                                  later: real, clock: seq<real>, up: seq<bool>, upAgain: seq<bool>)
      returns (r: Answer)
      requires |Keys(req)| <= |clock| && |Keys(req)| <= |up| && |Keys(req)| <= |upAgain|
      modifies this, table
      ensures var keys := Keys(req);
        var (t, n) := TakeKeys(old(table.State()), keys, clock, 0);
        var persisted := PersistAll(old(rows), keys[..n], up, Claim(deploymentId, taskId, owner, now));
        if n == |keys| then
          r == Acquired(keys) && table.State() == t && rows == persisted
        else
          && r == Conflict(keys[n]) && table.State() == FreeKeys(t, keys[..n])
          && rows == MarkAll(persisted, keys[..n], upAgain, later)
    {
      hide Keys, TryAcquire, FreeKeys, MarkAll, Claim;
      var keys, claim := Keys(req), Claim(deploymentId, taskId, owner, now);
      assert keys[..0] == [];
      for i := 0 to |keys|
        invariant TakeKeys(old(table.State()), keys, clock, 0) == TakeKeys(table.State(), keys, clock, i)
        invariant rows == PersistAll(old(rows), keys[..i], up, claim)
      {
        var ok := table.Acquire(keys[i], clock[i]);
        if !ok {
          ReleaseDeploymentLocks(keys[..i], later, upAgain);
          return Conflict(keys[i]);
        }
        assert keys[..i + 1][..i] == keys[..i];
        if up[i] {
          rows := rows[keys[i] := if keys[i] in rows then claim.(createdAt := rows[keys[i]].createdAt) else claim];
        }
      }
      assert keys[..|keys|] == keys;
      r := Acquired(keys);
    }
  }

  function Elements(keys: seq<string>): set<string> { set k | k in keys }

  /** Releasing frees every listed key; whether the database calls succeed plays no part. */
  lemma {:induction false} ReleaseFreesEveryKey(t: Table, keys: seq<string>)
    ensures FreeKeys(t, keys) == Table(t.store - Elements(keys), t.stamps - Elements(keys))
    decreases keys
  {
    if keys != [] {
      ReleaseFreesEveryKey(Release(t, keys[0]), keys[1..]);
      assert Elements(keys) == {keys[0]} + Elements(keys[1..]);
    }
  }

  predicate Ticking(clock: seq<real>) { forall i, j :: 0 <= i <= j < |clock| ==> clock[i] <= clock[j] }

  /** Apart from the held keys, the table is `p`. */
  ghost predicate AgreesOutside(t: Table, p: Table, held: seq<string>) {
    && Consistent(t) && Consistent(p)
    && (forall k :: k !in held ==> (k in t.store <==> k in p.store))
    && (forall k :: k !in held && k in p.store ==> t.store[k] == p.store[k] && t.stamps[k] == p.stamps[k])
  }

  /** What holding `keys[..n]` looks like in a table that started as `t`. */
  ghost predicate Holds(t: Table, t': Table, keys: seq<string>, clock: seq<real>, n: nat)
    requires 0 < n <= |keys| <= |clock|
  {
    var p := Purge(t, clock[n - 1]);
    AgreesOutside(t', p, keys[..n]) && forall j :: 0 <= j < n ==> keys[j] !in p.store
  }

  lemma PurgeIsConsistent(t: Table, now: real)
    requires Consistent(t)
    ensures Consistent(Purge(t, now))
  {
  }

  lemma PurgeGrows(t: Table, early: real, late: real)
    requires early <= late
    ensures Expired(t, early) <= Expired(t, late) && Purge(Purge(t, early), late) == Purge(t, late)
  {
    assert Expired(t, early) <= Expired(t, late);
  }

  /** Purging both sides keeps them in agreement. */
  lemma PurgeAgrees(t: Table, p: Table, held: seq<string>, now: real)
    requires AgreesOutside(t, p, held)
    ensures AgreesOutside(Purge(t, now), Purge(p, now), held)
  {
    forall k | k !in held ensures k in Expired(t, now) <==> k in Expired(p, now) {
      assert k in t.stamps <==> k in p.stamps;
    }
  }

  lemma TakingAgrees(t: Table, p: Table, held: seq<string>, key: string, now: real)
    requires AgreesOutside(t, p, held)
    ensures AgreesOutside(Table(t.store[key := true], t.stamps[key := now]), p, held + [key])
  {
  }

  /** The purged table agrees with the purged original outside the keys held so far. */
  lemma StillAgrees(t: Table, t': Table, keys: seq<string>, clock: seq<real>, n: nat)
    requires Consistent(t) && Ticking(clock) && n < |keys| <= |clock|
    requires if n == 0 then t' == t else Holds(t, t', keys, clock, n)
    ensures var p := Purge(t, clock[n]);
            AgreesOutside(Purge(t', clock[n]), p, keys[..n]) && forall j :: 0 <= j < n ==> keys[j] !in p.store
  {
    PurgeIsConsistent(t, clock[n]);
    if n > 0 {
      assert clock[n - 1] <= clock[n];
      PurgeGrows(t, clock[n - 1], clock[n]);
      PurgeAgrees(t', Purge(t, clock[n - 1]), keys[..n], clock[n]);
    }
  }

  lemma HoldsOneMore(t: Table, x: Table, keys: seq<string>, clock: seq<real>, n: nat)
    requires n < |keys| <= |clock| && keys[n] !in x.store
    requires var p := Purge(t, clock[n]);
             AgreesOutside(x, p, keys[..n]) && forall j :: 0 <= j < n ==> keys[j] !in p.store
    ensures Holds(t, Table(x.store[keys[n] := true], x.stamps[keys[n] := clock[n]]), keys, clock, n + 1)
  {
    hide Purge;
    var p := Purge(t, clock[n]);
    TakingAgrees(x, p, keys[..n], keys[n], clock[n]);
    assert keys[..n + 1] == keys[..n] + [keys[n]];
    assert keys[n] !in p.store by {
      if keys[n] in keys[..n] {
        var j :| 0 <= j < n && keys[j] == keys[n];
      }
    }
  }

  lemma TakeOneMore(t: Table, t': Table, keys: seq<string>, clock: seq<real>, n: nat)
    requires Consistent(t) && Ticking(clock) && n < |keys| <= |clock|
    requires if n == 0 then t' == t else Holds(t, t', keys, clock, n)
    requires TryAcquire(t', keys[n], clock[n]).1
    ensures Holds(t, TryAcquire(t', keys[n], clock[n]).0, keys, clock, n + 1)
  {
    hide Holds, AgreesOutside, Purge, Ticking, Consistent;
    StillAgrees(t, t', keys, clock, n);
    HoldsOneMore(t, Purge(t', clock[n]), keys, clock, n);
  }

  lemma AgreementWithoutHeld(t: Table, p: Table, held: seq<string>)
    requires AgreesOutside(t, p, held) && forall k :: k in held ==> k !in p.store
    ensures t.store - Elements(held) == p.store && t.stamps - Elements(held) == p.stamps
  {
  }

  /** A refused request leaves the table as it was, less the entries that have expired. */
  lemma {:induction false} ConflictLeavesNoTrace(t: Table, t': Table, keys: seq<string>, clock: seq<real>, i: nat)
    requires Consistent(t) && Ticking(clock) && i <= |keys| <= |clock|
    requires if i == 0 then t' == t else Holds(t, t', keys, clock, i)
    requires TakeKeys(t', keys, clock, i).1 < |keys|
    ensures var (s, n) := TakeKeys(t', keys, clock, i);
      FreeKeys(s, keys[..n]) == Purge(t, clock[n])
    decreases |keys| - i
  {
    hide Holds, FreeKeys, AgreesOutside, Ticking;
    var (t'', ok) := TryAcquire(t', keys[i], clock[i]);
    if ok {
      TakeOneMore(t, t', keys, clock, i);
      ConflictLeavesNoTrace(t, t'', keys, clock, i + 1);
    } else {
      hide Purge;
      StillAgrees(t, t', keys, clock, i);
      AgreementWithoutHeld(t'', Purge(t, clock[i]), keys[..i]);
      ReleaseFreesEveryKey(t'', keys[..i]);
    }
  }

  predicate NoneLive(t: Table, keys: seq<string>, clock: seq<real>)
    requires |keys| <= |clock|
  {
    forall i :: 0 <= i < |keys| ==> !Live(t, keys[i], clock[i])
  }

  /** The keys taken so far are in the table with the readings they were taken at. */
  predicate Fresh(t': Table, keys: seq<string>, clock: seq<real>, n: nat)
    requires n <= |keys| <= |clock|
  {
    forall j :: 0 <= j < n ==> keys[j] in t'.store && keys[j] in t'.stamps && t'.stamps[keys[j]] >= clock[0]
  }

  lemma {:induction false} TakesFrom(t: Table, t': Table, keys: seq<string>, clock: seq<real>, i: nat)
    requires Consistent(t) && Ticking(clock) && i <= |keys| <= |clock| && 0 < |keys|
    requires clock[|keys| - 1] - clock[0] <= TTL
    requires if i == 0 then t' == t else Holds(t, t', keys, clock, i)
    requires Fresh(t', keys, clock, i)
    ensures TakeKeys(t', keys, clock, i).1 == |keys| <==>
      forall j :: i <= j < |keys| ==> keys[j] !in keys[..j] && !Live(t, keys[j], clock[j])
    decreases |keys| - i
  {
    if i < |keys| {
      var (t'', ok) := TryAcquire(t', keys[i], clock[i]);
      assert clock[0] <= clock[i] <= clock[|keys| - 1];
      assert ok <==> keys[i] !in keys[..i] && !Live(t, keys[i], clock[i]) by {
        if i > 0 { assert clock[i - 1] <= clock[i]; }
        assert keys[i] in Expired(t, if i > 0 then clock[i - 1] else clock[i]) ==> keys[i] in Expired(t, clock[i]);
      }
      if ok {
        TakeOneMore(t, t', keys, clock, i);
        forall j | 0 <= j < i + 1
          ensures keys[j] in t''.store && keys[j] in t''.stamps && t''.stamps[keys[j]] >= clock[0]
        {
          assert keys[j] in keys[..i + 1];
        }
        TakesFrom(t, t'', keys, clock, i + 1);
      }
    }
  }

  /** Run alone and within the TTL, a request succeeds exactly when its keys are distinct and none is live. */
  lemma SucceedsIffDistinctAndFree(t: Table, keys: seq<string>, clock: seq<real>)
    requires Consistent(t) && Ticking(clock) && 0 < |keys| <= |clock|
    requires clock[|keys| - 1] - clock[0] <= TTL
    ensures TakeKeys(t, keys, clock, 0).1 == |keys| <==> Distinct(keys) && NoneLive(t, keys, clock)
  {
    TakesFrom(t, t, keys, clock, 0);
    if Distinct(keys) {
      assert forall j :: 0 <= j < |keys| ==> keys[j] !in keys[..j];
    } else {
      var i, j :| 0 <= i < j < |keys| && keys[i] == keys[j];
      assert keys[j] == keys[..j][i];
    }
  }

  /** A duplicated server makes a request conflict with itself. */
  lemma DuplicateServerConflicts(t: Table, req: Request, clock: seq<real>)
    requires Consistent(t) && Ticking(clock) && |Keys(req)| <= |clock|
    requires clock[|Keys(req)| - 1] - clock[0] <= TTL && !Distinct(req.servers)
    ensures TakeKeys(t, Keys(req), clock, 0).1 < |Keys(req)|
  {
    DistinctKeysIffDistinctServers(req);
    SucceedsIffDistinctAndFree(t, Keys(req), clock);
  }

  // ------------------------------------------------------------ record rows

  /** The key is among those whose database call worked. */
  ghost predicate Worked(keys: seq<string>, up: seq<bool>, key: string)
    requires |keys| <= |up|
  {
    exists i :: 0 <= i < |keys| && keys[i] == key && up[i]
  }

  lemma WorkedSnoc(keys: seq<string>, up: seq<bool>, key: string)
    requires 0 < |keys| <= |up|
    ensures var last := |keys| - 1;
      Worked(keys, up, key) <==> Worked(keys[..last], up, key) || (keys[last] == key && up[last])
  {
    var last := |keys| - 1;
    if Worked(keys, up, key) {
      var i :| 0 <= i < |keys| && keys[i] == key && up[i];
      assert i < last ==> keys[..last][i] == key;
    }
    if Worked(keys[..last], up, key) {
      var i :| 0 <= i < |keys[..last]| && keys[..last][i] == key && up[i];
      assert keys[i] == key;
    }
  }

  /**
   A locked key whose call worked ends with a row of the request, which keeps the time an existing one was created at;
   every other row is as it was.
   */
  lemma {:induction false} LockedRowIs(rows: map<string, LockRecord>, keys: seq<string>, up: seq<bool>,
                                       deploymentId: string, taskId: string, owner: string, now: real, key: string)
    requires |keys| <= |up|
    ensures var rows' := PersistAll(rows, keys, up, Claim(deploymentId, taskId, owner, now));
      if Worked(keys, up, key) then
        && key in rows'
        && rows'[key] == LockRecord(deploymentId, taskId, owner, "locked",
                                    if key in rows then rows[key].createdAt else now, now, now + 3600.0)
      else (key in rows' <==> key in rows) && (key in rows ==> rows'[key] == rows[key])
    decreases keys
  {
    if keys != [] {
      hide Worked;
      LockedRowIs(rows, keys[..|keys| - 1], up, deploymentId, taskId, owner, now, key);
      WorkedSnoc(keys, up, key);
    } else {
      assert !Worked(keys, up, key);
    }
  }

  /** A row is released exactly when the call for its key worked; nothing else in it changes but the time. */
  lemma {:induction false} ReleasedRowIs(rows: map<string, LockRecord>, keys: seq<string>, up: seq<bool>, now: real,
                                         key: string)
    requires |keys| <= |up|
    ensures var rows' := MarkAll(rows, keys, up, now);
      && (key in rows' <==> key in rows)
      && (key in rows ==>
        var old' := rows[key];
        rows'[key] ==
          if Worked(keys, up, key) then
            LockRecord(old'.deploymentId, old'.taskId, old'.owner, "released", old'.createdAt, now, old'.expiresAt)
          else old')
    decreases keys
  {
    if keys != [] {
      hide Worked;
      ReleasedRowIs(rows, keys[..|keys| - 1], up, now, key);
      WorkedSnoc(keys, up, key);
    } else {
      assert !Worked(keys, up, key);
    }
  }

  /** What a request that got every key has in the table: each key with its clock reading, the rest only purged. */
  lemma {:induction false} TakenKeysAreStamped(t: Table, t': Table, keys: seq<string>, clock: seq<real>, i: nat)
    requires i <= |keys| <= |clock| && TakeKeys(t', keys, clock, i).1 == |keys|
    requires forall j :: 0 <= j < i ==> keys[j] in t'.store && keys[j] in t'.stamps && t'.stamps[keys[j]] == clock[j]
    requires Consistent(t) && Consistent(t') && Ticking(clock)
    requires |keys| > 0 ==> clock[|keys| - 1] - clock[0] <= 3600.0
    ensures var s := TakeKeys(t', keys, clock, i).0;
      forall j :: 0 <= j < |keys| ==> keys[j] in s.store && keys[j] in s.stamps && s.stamps[keys[j]] == clock[j]
    decreases |keys| - i
  {
    if i < |keys| {
      var (t'', ok) := TryAcquire(t', keys[i], clock[i]);
      assert ok;
      forall j | 0 <= j < i + 1
        ensures keys[j] in t''.store && keys[j] in t''.stamps && t''.stamps[keys[j]] == clock[j]
      {
        assert clock[0] <= clock[j] && clock[i] <= clock[|keys| - 1];
      }
      TakenKeysAreStamped(t, t'', keys, clock, i + 1);
    }
  }

  /** The keys of a request as written: the base, then one a server behind it, in the order of the servers. */
  lemma KeysAre(req: Request)
    ensures var service := if req.service == "" then "default" else req.service;
      var environment := if req.environment == "" then "default" else req.environment;
      var base := req.system + ":" + service + ":" + environment;
      && |Keys(req)| == 1 + |req.servers| && Keys(req)[0] == base
      && forall i :: 0 <= i < |req.servers| ==> Keys(req)[i + 1] == base + ":server:" + req.servers[i]
  {
    var service, environment := OrDefault(req.service), OrDefault(req.environment);
    assert req.system + (":" + (service + (":" + environment))) == req.system + ":" + service + ":" + environment;
  }
}
