/** app/api/temporary_approvals.py: the life of a temporary approval grant under the administrator's endpoints. */
module TemporaryApprovals {
  import opened PyText

  /** The six fields that bound a grant. */
  datatype Scope = Scope(beneficiary: string, channel: string, account: string, conversation: string,
                         system: string, environment: string)

  datatype Status = Pending | Active | Revoked

  datatype Grant = Grant(scope: Scope, status: Status, duration: int, startsAt: Option<int>, expiresAt: Option<int>,
                         consumedAt: Option<int>, scopeKey: Option<string>, approvedBy: Option<string>,
                         revokedBy: Option<string>, revokedAt: Option<int>, reason: Option<string>, updatedAt: int)

  type Table = map<string, Grant>

  function ScopeKey(s: Scope): string {
    s.beneficiary + ":" + s.channel + ":" + s.account + ":" + s.conversation + ":" + s.system + ":" + s.environment
  }

  function Actor(username: string): string { "web:local:" + username }

  function Reason(reason: string): string { if Strip(reason) == "" then "revoked" else Strip(reason) }

  predicate Contains(s: string, part: string) {
    exists i :: 0 <= i <= |s| && StartsWith(s[i..], part)
  }

  predicate NamesGrant(id: string, phrase: string, upper: string -> string) {
    Contains(upper(Strip(phrase)), upper(if |id| <= 8 then id else id[..8]))
  }

  predicate ScopeTaken(t: Table, id: string)
    requires id in t
  {
    exists other :: other in t && other != id && t[other].scope == t[id].scope && t[other].status.Active?
  }

  /** The unique index on the scope key rejects the update. */
  predicate KeyTaken(t: Table, id: string)
    requires id in t
  {
    exists other :: other in t && other != id && t[other].scopeKey == Some(ScopeKey(t[id].scope))
  }

  datatype Outcome = NotFound | WrongState | BadPhrase | ScopeConflict | IntegrityError | Done

  function Activated(g: Grant, username: string, now: int): Grant {
    g.(status := Active, startsAt := Some(now), expiresAt := Some(now + g.duration),
       approvedBy := Some(Actor(username)), consumedAt := Some(now),
       scopeKey := Some(ScopeKey(g.scope)), updatedAt := now)
  }

  function Withdrawn(g: Grant, username: string, reason: string, now: int): Grant {
    g.(status := Revoked, revokedBy := Some(Actor(username)), revokedAt := Some(now), reason := Some(Reason(reason)),
       scopeKey := None, updatedAt := now)
  }

  function Confirm(t: Table, id: string, named: bool, username: string, now: int): (Table, Outcome) {
    if id !in t then (t, NotFound)
    else if !t[id].status.Pending? || t[id].consumedAt.Some? then (t, WrongState)
    else if !named then (t, BadPhrase)
    else if ScopeTaken(t, id) then (t, ScopeConflict)
    else if KeyTaken(t, id) then (t, IntegrityError)
    else (t[id := Activated(t[id], username, now)], Done)
  }

  function Revoke(t: Table, id: string, username: string, reason: string, now: int): (Table, Outcome) {
    if id !in t then (t, NotFound)
    else if !t[id].status.Active? then (t, WrongState)
    else (t[id := Withdrawn(t[id], username, reason, now)], Done)
  }

  function Delete(t: Table, id: string): (Table, Outcome) {
    if id in t then (t - {id}, Done) else (t, NotFound)
  }

  /** The stripped, nonempty ids of a batch. */
  function BatchIds(ids: seq<string>): set<string> { set i | 0 <= i < |ids| && Strip(ids[i]) != "" :: Strip(ids[i]) }

  function BatchRevoke(t: Table, ids: set<string>, username: string, reason: string, now: int): Table {
    map id | id in t :: if id in ids && t[id].status.Active? then Withdrawn(t[id], username, reason, now) else t[id]
  }

  lemma RevokeOneMore(t: Table, seen: set<string>, id: string, username: string, reason: string, now: int)
    requires id in t && id !in seen
    ensures var before := BatchRevoke(t, seen, username, reason, now);
            id in before && before[id] == t[id] &&
            BatchRevoke(t, seen + {id}, username, reason, now) == Revoke(before, id, username, reason, now).0
  {
    hide Withdrawn;
    assert BatchRevoke(t, seen, username, reason, now)[id] == t[id];
  }

  lemma RevokeNone(t: Table, username: string, reason: string, now: int)
    ensures BatchRevoke(t, {}, username, reason, now) == t
  {
    hide Withdrawn;
  }

  lemma RevokeSettled(t: Table, seen: set<string>, wanted: set<string>, username: string, reason: string, now: int)
    requires forall id :: id in t ==> (id in seen <==> id in wanted)
    ensures BatchRevoke(t, seen, username, reason, now) == BatchRevoke(t, wanted, username, reason, now)
  {
    hide Withdrawn;
  }

  datatype Request =
    | ConfirmOne(id: string, named: bool, username: string, now: int)
    | RevokeOne(id: string, username: string, reason: string, now: int)
    | DeleteOne(id: string)
    | RevokeMany(ids: set<string>, username: string, reason: string, now: int)
    | DeleteMany(ids: set<string>)

  function Next(t: Table, q: Request): Table {
    match q
    case ConfirmOne(id, named, username, now) => Confirm(t, id, named, username, now).0
    case RevokeOne(id, username, reason, now) => Revoke(t, id, username, reason, now).0
    case DeleteOne(id) => Delete(t, id).0
    case RevokeMany(ids, username, reason, now) => BatchRevoke(t, ids, username, reason, now)
    case DeleteMany(ids) => t - ids
  }

  class Approvals {
    const upper: string -> string
    var grants: Table

    constructor (upper: string -> string, grants: Table)
      ensures this.upper == upper && this.grants == grants
    {
      this.upper, this.grants := upper, grants;
    }

    method ConfirmGrant(id: string, phrase: string, username: string, now: int) returns (r: Outcome)
      modifies this
      ensures (grants, r) == Confirm(old(grants), id, NamesGrant(id, phrase, upper), username, now)
      ensures grants == Next(old(grants), ConfirmOne(id, NamesGrant(id, phrase, upper), username, now))
    {
      hide ScopeKey, NamesGrant;
      if id !in grants {
        return NotFound;
      }
      var grant := grants[id];
      if !grant.status.Pending? || grant.consumedAt.Some? {
        return WrongState;
      }
      if !NamesGrant(id, phrase, upper) {
        return BadPhrase;
      }
      if ScopeTaken(grants, id) {
        return ScopeConflict;
      }
      if exists other :: other in grants && other != id && grants[other].scopeKey == Some(ScopeKey(grant.scope)) {
        return IntegrityError;
      }
      grant := grant.(status := Active);
      grant := grant.(startsAt := Some(now), expiresAt := Some(now + grant.duration));
      grant := grant.(approvedBy := Some(Actor(username)), consumedAt := Some(now));
      grant := grant.(scopeKey := Some(ScopeKey(grant.scope)), updatedAt := now);
      grants := grants[id := grant];
      r := Done;
    }

    method RevokeGrant(id: string, username: string, reason: string, now: int) returns (r: Outcome)
      modifies this
      ensures (grants, r) == Revoke(old(grants), id, username, reason, now)
      ensures grants == Next(old(grants), RevokeOne(id, username, reason, now))
    {
      if id !in grants {
        return NotFound;
      }
      if !grants[id].status.Active? {
        return WrongState;
      }
      grants := grants[id := Withdrawn(grants[id], username, reason, now)];
      r := Done;
    }

    method DeleteGrant(id: string) returns (r: Outcome)
      modifies this
      ensures (grants, r) == Delete(old(grants), id)
      ensures grants == Next(old(grants), DeleteOne(id))
    {
      if id !in grants {
        return NotFound;
      }
      grants := grants - {id};
      r := Done;
    }

    /** Revokes the active ones among the ids; an empty batch is refused. */
    method BatchRevokeGrants(ids: seq<string>, username: string, reason: string, now: int)
      returns (revoked: Result<set<string>>)
      modifies this
      ensures revoked.Raised? <==> BatchIds(ids) == {}
      ensures grants == BatchRevoke(old(grants), BatchIds(ids), username, reason, now)
      ensures grants == Next(old(grants), RevokeMany(BatchIds(ids), username, reason, now))
      ensures revoked.Ok? ==>
        revoked.value == set id | id in old(grants) && id in BatchIds(ids) && old(grants)[id].status.Active?
    {
      hide BatchIds, Withdrawn, BatchRevoke;
      var wanted := BatchIds(ids);
      RevokeNone(grants, username, reason, now);
      if wanted == {} {
        return Raised;
      }
      var rows := set id | id in grants && id in wanted;
      var done: set<string> := {};
      ghost var seen: set<string> := {};
      while rows != {}
        invariant rows !! seen && rows + seen == set id | id in old(grants) && id in wanted
        invariant grants == BatchRevoke(old(grants), seen, username, reason, now)
        invariant done == set id | id in seen && id in old(grants) && old(grants)[id].status.Active?
        decreases rows
      {
        var id :| id in rows;
        assert id in old(grants) && id !in seen;
        RevokeOneMore(old(grants), seen, id, username, reason, now);
        if grants[id].status.Active? {
          grants := grants[id := Withdrawn(grants[id], username, reason, now)];
          done := done + {id};
        }
        rows := rows - {id};
        seen := seen + {id};
      }
      assert forall id :: id in old(grants) && id in wanted ==> id in rows + seen;
      RevokeSettled(old(grants), seen, wanted, username, reason, now);
      revoked := Ok(done);
    }

    method BatchDeleteGrants(ids: seq<string>) returns (deleted: Result<set<string>>)
      modifies this
      ensures deleted.Raised? <==> BatchIds(ids) == {}
      ensures grants == old(grants) - BatchIds(ids)
      ensures grants == Next(old(grants), DeleteMany(BatchIds(ids)))
      ensures deleted.Ok? ==> deleted.value == set id | id in old(grants) && id in BatchIds(ids)
    {
      hide BatchIds;
      var wanted := BatchIds(ids);
      if wanted == {} {
        assert grants - wanted == grants;
        return Raised;
      }
      var rows := set id | id in grants && id in wanted;
      var done: set<string> := {};
      while rows != {}
        invariant rows !! done && rows + done == set id | id in old(grants) && id in wanted
        invariant grants == old(grants) - done
        decreases rows
      {
        var id :| id in rows;
        assert old(grants) - done - {id} == old(grants) - (done + {id});
        grants := grants - {id};
        rows := rows - {id};
        done := done + {id};
      }
      assert old(grants) - done == old(grants) - wanted by {
        assert forall id :: id in old(grants) && id in wanted ==> id in rows + done;
      }
      deleted := Ok(done);
    }
  }

  // ------------------------------------------------------------------- runs

  function Run(t: Table, requests: seq<Request>): Table
    decreases requests
  {
    if requests == [] then t else Run(Next(t, requests[0]), requests[1..])
  }

  predicate Fresh(g: Grant) {
    g.status.Pending? && g.startsAt.None? && g.expiresAt.None? && g.consumedAt.None? && g.scopeKey.None?
  }

  predicate Sound(g: Grant) {
    match g.status
    case Pending => Fresh(g)
    case Active =>
      && g.scopeKey == Some(ScopeKey(g.scope)) && g.startsAt.Some? && g.consumedAt == g.startsAt
      && g.expiresAt == Some(g.startsAt.value + g.duration)
    case Revoked =>
      && g.scopeKey.None? && g.startsAt.Some? && g.consumedAt == g.startsAt
      && g.expiresAt == Some(g.startsAt.value + g.duration)
  }

  predicate OneActivePerScope(t: Table) {
    forall a, b | a in t && b in t && t[a].status.Active? && t[b].status.Active? :: t[a].scope == t[b].scope ==> a == b
  }

  predicate AllSound(t: Table) { forall id :: id in t ==> Sound(t[id]) }

  /** The scope and length of a grant never change, it only moves forward, and it is activated at most once. */
  predicate MovesForward(g: Grant, g': Grant) {
    && g'.scope == g.scope && g'.duration == g.duration
    && (g.status.Revoked? ==> g' == g)
    && (g.status.Active? ==> !g'.status.Pending?)
    && (g.startsAt.Some? ==> g'.startsAt == g.startsAt && g'.expiresAt == g.expiresAt && g'.consumedAt == g.consumedAt)
  }

  /** No grant appears, and those that remain have moved forward. */
  predicate Evolves(t: Table, t': Table) { t'.Keys <= t.Keys && forall id :: id in t' ==> MovesForward(t[id], t'[id]) }

  /** A grant left alone, or an active one revoked. */
  predicate KeptOrRevoked(g: Grant, g': Grant) {
    || g' == g
    || (g.status.Active? && g'.status.Revoked? && g'.scopeKey.None? && g'.scope == g.scope && g'.duration == g.duration
        && g'.startsAt == g.startsAt && g'.expiresAt == g.expiresAt && g'.consumedAt == g.consumedAt)
  }

  lemma RevokingKeepsGrants(t: Table, t': Table)
    requires AllSound(t) && OneActivePerScope(t)
    requires t'.Keys <= t.Keys && forall id :: id in t' ==> KeptOrRevoked(t[id], t'[id])
    ensures AllSound(t') && OneActivePerScope(t') && Evolves(t, t')
  {
    hide ScopeKey;
    forall id | id in t' ensures Sound(t'[id]) && MovesForward(t[id], t'[id]) {
      assert Sound(t[id]);
    }
    hide Sound, MovesForward;
    assert forall id :: id in t' && t'[id].status.Active? ==> t'[id] == t[id];
  }

  lemma ConfirmingKeepsGrants(t: Table, id: string, named: bool, username: string, now: int)
    requires AllSound(t) && OneActivePerScope(t)
    ensures var t' := Confirm(t, id, named, username, now).0; AllSound(t') && OneActivePerScope(t') && Evolves(t, t')
  {
    hide ScopeKey, Actor, KeyTaken;
  }

  lemma StepKeepsGrants(t: Table, q: Request)
    requires AllSound(t) && OneActivePerScope(t)
    ensures AllSound(Next(t, q)) && OneActivePerScope(Next(t, q)) && Evolves(t, Next(t, q))
  {
    hide ScopeKey, Actor, Reason, Confirm, AllSound, OneActivePerScope, Evolves;
    if q.ConfirmOne? {
      ConfirmingKeepsGrants(t, q.id, q.named, q.username, q.now);
    } else {
      RevokingKeepsGrants(t, Next(t, q));
    }
  }

  lemma EvolvesIsTransitive(a: Table, b: Table, c: Table)
    requires Evolves(a, b) && Evolves(b, c)
    ensures Evolves(a, c)
  {
  }

  /**
   Over every sequence of requests there is at most one active grant per scope, a grant has a scope key exactly
   while active, lasts exactly as long as requested from its single activation, and stays revoked once revoked.
   */
  lemma {:induction false} EveryRunKeepsGrants(t: Table, requests: seq<Request>)
    requires AllSound(t) && OneActivePerScope(t)
    ensures var t' := Run(t, requests); AllSound(t') && OneActivePerScope(t') && Evolves(t, t')
    decreases requests
  {
    hide AllSound, OneActivePerScope, Next;
    if requests != [] {
      StepKeepsGrants(t, requests[0]);
      EveryRunKeepsGrants(Next(t, requests[0]), requests[1..]);
      EvolvesIsTransitive(t, Next(t, requests[0]), Run(t, requests));
    }
  }

  lemma PendingGrantsAreSound(t: Table)
    requires forall id :: id in t ==> Fresh(t[id])
    ensures AllSound(t) && OneActivePerScope(t)
  {
  }

  function RevokeEach(t: Table, order: seq<string>, username: string, reason: string, now: int): Table
    decreases order
  {
    if order == [] then t
    else RevokeEach(Revoke(t, order[0], username, reason, now).0, order[1..], username, reason, now)
  }

  /** Revoking a batch is revoking its active grants one by one, in any order. */
  lemma {:induction false} BatchIsFold(t: Table, ids: set<string>, order: seq<string>, username: string,
                                       reason: string, now: int)
    requires forall id :: id in order ==> id in ids
    requires forall id :: id in t && id in ids && t[id].status.Active? ==> id in order
    ensures RevokeEach(t, order, username, reason, now) == BatchRevoke(t, ids, username, reason, now)
    decreases order
  {
    hide Actor, Reason;
    if order == [] {
      assert BatchRevoke(t, ids, username, reason, now) == t;
    } else {
      var id := order[0];
      var t' := Revoke(t, id, username, reason, now).0;
      assert id in order;
      assert forall k :: k in order[1..] ==> k in order;
      forall k | k in t' && k in ids && t'[k].status.Active? ensures k in order[1..] {
        assert k in order && k != id;
      }
      BatchIsFold(t', ids, order[1..], username, reason, now);
      assert BatchRevoke(t', ids, username, reason, now) == BatchRevoke(t, ids, username, reason, now);
    }
  }

  predicate PlainButFirst(s: Scope) {
    && ':' !in s.channel && ':' !in s.account && ':' !in s.conversation
    && ':' !in s.system && ':' !in s.environment
  }

  function ThreeFields(s: Scope): string { s.beneficiary + (":" + s.channel) + (":" + s.account) }

  function FourFields(s: Scope): string { ThreeFields(s) + (":" + s.conversation) }

  lemma KeyFromTheRight(s: Scope)
    ensures ScopeKey(s) == FourFields(s) + (":" + s.system) + (":" + s.environment)
  {
  }

  /** Scopes of which only the beneficiary may contain colons share a scope key only when equal. */
  lemma PlainScopesHaveTheirOwnKeys(a: Scope, b: Scope)
    requires PlainButFirst(a) && PlainButFirst(b) && ScopeKey(a) == ScopeKey(b)
    ensures a == b
  {
    KeyFromTheRight(a);
    KeyFromTheRight(b);
    hide ScopeKey;
    LastField(FourFields(a) + (":" + a.system), a.environment, FourFields(b) + (":" + b.system), b.environment, ':');
    LastField(FourFields(a), a.system, FourFields(b), b.system, ':');
    LastField(ThreeFields(a), a.conversation, ThreeFields(b), b.conversation, ':');
    LastField(a.beneficiary + (":" + a.channel), a.account, b.beneficiary + (":" + b.channel), b.account, ':');
    LastField(a.beneficiary, a.channel, b.beneficiary, b.channel, ':');
  }

  function Colons(s: string): nat
    decreases s
  {
    if s == "" then 0 else (if s[0] == ':' then 1 else 0) + Colons(s[1..])
  }

  lemma {:induction false} ColonsAppend(a: string, b: string)
    ensures Colons(a + b) == Colons(a) + Colons(b)
    decreases a
  {
    if a == "" {
      assert a + b == b;
    } else {
      assert (a + b)[0] == a[0] && (a + b)[1..] == a[1..] + b;
      ColonsAppend(a[1..], b);
    }
  }

  lemma ColonsAround(a: string, b: string)
    ensures Colons(a + (":" + b)) == Colons(a) + 1 + Colons(b)
  {
    assert (":" + b)[1..] == b;
    ColonsAppend(a, ":" + b);
  }

  lemma {:induction false} NoColonsIff(s: string)
    ensures Colons(s) == 0 <==> ':' !in s
    decreases s
  {
    if s != "" {
      NoColonsIff(s[1..]);
      assert s == [s[0]] + s[1..];
    }
  }

  function FieldColons(s: Scope): nat {
    Colons(s.beneficiary) + Colons(s.channel) + Colons(s.account) + Colons(s.conversation) + Colons(s.system)
    + Colons(s.environment)
  }

  lemma KeyColons(s: Scope)
    ensures Colons(ScopeKey(s)) == FieldColons(s) + 5
  {
    KeyFromTheRight(s);
    hide ScopeKey, Colons;
    ColonsAround(s.beneficiary, s.channel);
    ColonsAround(s.beneficiary + (":" + s.channel), s.account);
    ColonsAround(ThreeFields(s), s.conversation);
    ColonsAround(FourFields(s), s.system);
    ColonsAround(FourFields(s) + (":" + s.system), s.environment);
  }

  predicate HasColon(s: Scope) { ':' in s.beneficiary || !PlainButFirst(s) }

  lemma HasColonIff(s: Scope)
    ensures HasColon(s) <==> FieldColons(s) > 0
  {
    hide Colons;
    NoColonsIff(s.beneficiary);
    NoColonsIff(s.channel);
    NoColonsIff(s.account);
    NoColonsIff(s.conversation);
    NoColonsIff(s.system);
    NoColonsIff(s.environment);
  }

  ghost predicate SharesScopeKey(s: Scope) { exists other: Scope :: other != s && ScopeKey(other) == ScopeKey(s) }

  /** What is before and after the first colon. */
  lemma FirstColon(f: string) returns (x: string, y: string)
    requires ':' in f
    ensures f == x + (":" + y) && |y| < |f| && |x| < |f|
  {
    var i := Find(f, ':');
    x, y := f[..i], f[i + 1..];
  }

  lemma Regroup(f: string, x: string, y: string)
    ensures f + (":" + (x + (":" + y))) == f + (":" + x) + (":" + y)
  {
  }

  /**
   A scope with the same key: what is before a colon moves to the field before it, or what is after it to the next.
   */
  lemma Twin(s: Scope) returns (other: Scope)
    requires HasColon(s)
    ensures other != s && ScopeKey(other) == ScopeKey(s)
  {
    KeyFromTheRight(s);
    hide ScopeKey;
    if ':' in s.beneficiary {
      var x, y := FirstColon(s.beneficiary);
      other := s.(beneficiary := x, channel := y + (":" + s.channel));
      assert x + (":" + (y + (":" + s.channel))) == s.beneficiary + (":" + s.channel);
    } else if ':' in s.channel {
      var x, y := FirstColon(s.channel);
      other := s.(beneficiary := s.beneficiary + (":" + x), channel := y);
      Regroup(s.beneficiary, x, y);
    } else if ':' in s.account {
      var x, y := FirstColon(s.account);
      other := s.(channel := s.channel + (":" + x), account := y);
      Regroup(s.beneficiary + (":" + s.channel), x, y);
      assert s.beneficiary + (":" + s.channel) + (":" + x) == s.beneficiary + (":" + (s.channel + (":" + x)));
    } else if ':' in s.conversation {
      var x, y := FirstColon(s.conversation);
      other := s.(account := s.account + (":" + x), conversation := y);
      Regroup(ThreeFields(s), x, y);
      Regroup(s.beneficiary + (":" + s.channel), s.account, x);
    } else if ':' in s.system {
      var x, y := FirstColon(s.system);
      other := s.(conversation := s.conversation + (":" + x), system := y);
      Regroup(FourFields(s), x, y);
      Regroup(ThreeFields(s), s.conversation, x);
    } else {
      var x, y := FirstColon(s.environment);
      other := s.(system := s.system + (":" + x), environment := y);
      Regroup(FourFields(s) + (":" + s.system), x, y);
      Regroup(FourFields(s), s.system, x);
    }
    KeyFromTheRight(other);
  }

  /** Another scope has the same key exactly when some field contains a colon. */
  lemma SharesScopeKeyIff(s: Scope)
    ensures SharesScopeKey(s) <==> HasColon(s)
  {
    hide ScopeKey;
    if SharesScopeKey(s) {
      var other :| other != s && ScopeKey(other) == ScopeKey(s);
      KeyColons(s);
      KeyColons(other);
      HasColonIff(s);
      HasColonIff(other);
      hide FieldColons;
      if !HasColon(s) {
        PlainScopesHaveTheirOwnKeys(s, other);
      }
    }
    if HasColon(s) {
      var other := Twin(s);
    }
  }

  /** Different scopes can share a scope key, and then the second confirmation fails on the unique index. */
  lemma ScopeKeysCollide()
    ensures exists a, b: Scope :: a != b && ScopeKey(a) == ScopeKey(b)
  {
    var a, b := Scope("a:b", "c", "", "", "", ""), Scope("a", "b:c", "", "", "", "");
    assert ScopeKey(a) == "a:b:c::::" == ScopeKey(b);
  }

  /** Some active grant of another scope has the same scope key. */
  predicate Collides(t: Table, id: string)
    requires id in t
  {
    exists other | other in t && t[other].status.Active? ::
      t[other].scope != t[id].scope && ScopeKey(t[other].scope) == ScopeKey(t[id].scope)
  }

  /** On sound tables a confirmation that passes the scope check fails only through such a collision. */
  lemma IntegrityErrorIffCollision(t: Table, id: string, username: string, now: int)
    requires AllSound(t) && id in t && Fresh(t[id])
    ensures Confirm(t, id, true, username, now).1.IntegrityError? <==>
      !ScopeTaken(t, id) && Collides(t, id)
  {
    hide ScopeKey;
    if !ScopeTaken(t, id) {
      if KeyTaken(t, id) {
        var other :| other in t && other != id && t[other].scopeKey == Some(ScopeKey(t[id].scope));
        assert Sound(t[other]) && t[other].status.Active?;
      }
      if Collides(t, id) {
        var other :|
          other in t && t[other].status.Active? && t[other].scope != t[id].scope
          && ScopeKey(t[other].scope) == ScopeKey(t[id].scope);
        assert Sound(t[other]) && t[other].scopeKey == Some(ScopeKey(t[id].scope));
      }
    }
  }

  // --------------------------------------------------- which requests get through

  lemma ContainsIff(s: string, part: string)
    ensures Contains(s, part) <==> exists before: string, after: string :: s == before + part + after
  {
    if Contains(s, part) {
      var i :| 0 <= i <= |s| && StartsWith(s[i..], part);
      assert s == s[..i] + part + s[i + |part|..];
    }
    forall before: string, after: string | s == before + part + after ensures Contains(s, part) {
      assert s[|before|..][..|part|] == part;
    }
  }

  /** The phrase holds the first eight characters of the id, both upper-cased. */
  ghost predicate Mentions(phrase: string, id: string, upper: string -> string) {
    var part := if |id| > 8 then id[..8] else id;
    exists before: string, after: string :: upper(Strip(phrase)) == before + upper(part) + after
  }

  lemma NamesGrantIff(id: string, phrase: string, upper: string -> string)
    ensures NamesGrant(id, phrase, upper) <==> Mentions(phrase, id, upper)
  {
    hide Contains, Strip;
    assert |id| == 8 ==> id[..8] == id;
    ContainsIff(upper(Strip(phrase)), upper(if |id| > 8 then id[..8] else id));
  }

  ghost predicate Alone(t: Table, id: string) {
    id in t ==> forall other :: other in t && other != id && t[other].scope == t[id].scope ==> t[other].status != Active
  }

  ghost predicate Unique(t: Table, id: string) {
    id in t ==> forall other :: other in t && other != id ==> t[other].scopeKey != Some(ScopeKey(t[id].scope))
  }

  lemma FreeIff(t: Table, id: string)
    requires id in t
    ensures ScopeTaken(t, id) <==> !Alone(t, id)
    ensures KeyTaken(t, id) <==> !Unique(t, id)
  {
    hide ScopeKey;
  }

  lemma ActivatedIs(g: Grant, username: string, now: int)
    ensures Activated(g, username, now) ==
      Grant(g.scope, Active, g.duration, Some(now), Some(now + g.duration), Some(now), Some(ScopeKey(g.scope)),
            Some("web:local:" + username), g.revokedBy, g.revokedAt, g.reason, now)
  {
    hide ScopeKey;
  }

  /**
   A grant is confirmed exactly when it is pending and not consumed, the phrase mentions its id, no other active grant
   has its scope, and no other grant has its scope key; it is then active for its duration from now on, by this user.
   Every other request changes nothing and says which of these it failed first.
   */
  lemma ConfirmedIff(t: Table, id: string, phrase: string, upper: string -> string, username: string, now: int)
    ensures var (t', r) := Confirm(t, id, NamesGrant(id, phrase, upper), username, now);
      var pending := id in t && t[id].status == Pending && t[id].consumedAt == None;
      var named := Mentions(phrase, id, upper);
      && (r == NotFound <==> id !in t)
      && (r == WrongState <==> id in t && !pending)
      && (r == BadPhrase <==> pending && !named)
      && (r == ScopeConflict <==> pending && named && !Alone(t, id))
      && (r == IntegrityError <==> pending && named && Alone(t, id) && !Unique(t, id))
      && (r == Done <==> pending && named && Alone(t, id) && Unique(t, id))
      && (r != Done ==> t' == t)
      && (r == Done ==>
        var g := t[id];
        t' == t[id := Grant(g.scope, Active, g.duration, Some(now), Some(now + g.duration), Some(now),
                            Some(ScopeKey(g.scope)), Some("web:local:" + username), g.revokedBy, g.revokedAt, g.reason,
                            now)])
  {
    NamesGrantIff(id, phrase, upper);
    if id in t {
      FreeIff(t, id);
      ActivatedIs(t[id], username, now);
    }
    hide NamesGrant, Mentions, ScopeKey, ScopeTaken, KeyTaken, Alone, Unique, Activated;
  }

  /** A grant is revoked exactly when it is active; it then has no scope key, and says by whom, when and why. */
  lemma RevokedIff(t: Table, id: string, username: string, reason: string, now: int)
    ensures var (t', r) := Revoke(t, id, username, reason, now);
      && (r == NotFound <==> id !in t)
      && (r == WrongState <==> id in t && t[id].status != Active)
      && (r == Done <==> id in t && t[id].status == Active)
      && (r != Done ==> t' == t)
      && (r == Done ==>
        var g := t[id];
        var why := if Strip(reason) == "" then "revoked" else Strip(reason);
        t' == t[id := Grant(g.scope, Revoked, g.duration, g.startsAt, g.expiresAt, g.consumedAt, None, g.approvedBy,
                            Some("web:local:" + username), Some(now), Some(why), now)])
  {
    hide Strip;
  }

  /** A grant's row goes exactly when it is there, and no other. */
  lemma DeletedIff(t: Table, id: string)
    ensures var (t', r) := Delete(t, id);
      && (r == NotFound <==> id !in t) && (r == Done <==> id in t)
      && id !in t'
      && forall other :: other != id ==> (other in t' <==> other in t) && (other in t ==> t'[other] == t[other])
  {
  }

  /** A batch names the stripped ids among those given that are not empty. */
  lemma BatchIdsAre(ids: seq<string>, id: string)
    ensures id in BatchIds(ids) <==> id != "" && exists raw: string :: raw in ids && Strip(raw) == id
  {
    hide Strip;
    if id in BatchIds(ids) {
      var i :| 0 <= i < |ids| && Strip(ids[i]) == id;
      assert ids[i] in ids;
    }
  }

  /** After a batch, the active grants it names are revoked, and every other row is as it was. */
  lemma BatchRevokedIff(t: Table, ids: set<string>, username: string, reason: string, now: int, id: string)
    ensures var t' := BatchRevoke(t, ids, username, reason, now);
      && (id in t' <==> id in t)
      && (id in t ==>
        var g := t[id];
        var why := if Strip(reason) == "" then "revoked" else Strip(reason);
        t'[id] ==
          if id in ids && g.status == Active then
            Grant(g.scope, Revoked, g.duration, g.startsAt, g.expiresAt, g.consumedAt, None, g.approvedBy,
                  Some("web:local:" + username), Some(now), Some(why), now)
          else g)
  {
    hide Strip;
  }
}
