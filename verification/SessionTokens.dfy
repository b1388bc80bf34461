/** app/core/auth_v2.py: signed session tokens, and their revocation by a per-user version. */
module SessionTokens {
  import opened PyText

  /** What the token functions take from the platform: the keyed signature and the text forms of numbers and times. */
  datatype Platform = Platform(sign: string -> string, showInt: int -> string, readInt: string -> Option<int>,
                               showTime: int -> string, readTime: string -> Option<int>)

  /** Hex digests, decimal numbers and ISO times contain no pipe, and the latter two read back. */
  ghost predicate Sensible(p: Platform) {
    && (forall s :: '|' !in p.sign(s))
    && (forall n :: '|' !in p.showInt(n) && p.readInt(p.showInt(n)) == Some(n) && p.showInt(n) != "")
    && (forall t :: '|' !in p.showTime(t) && p.readTime(p.showTime(t)) == Some(t))
  }

  function OrOne(n: int): int { if n == 0 then 1 else n }

  function Payload(p: Platform, username: string, version: int, now: int, nonce: string): string {
    username + "|" + (p.showInt(OrOne(version)) + "|" + (p.showTime(now) + "|" + nonce))
  }

  function CreateToken(p: Platform, username: string, version: int, now: int, nonce: string): string {
    var payload := Payload(p, username, version, now, nonce);
    payload + "|" + p.sign(payload)
  }

  /** The index of the last pipe, or -1. */
  function LastPipe(s: string): (i: int)
    ensures -1 <= i < |s| && (i >= 0 ==> s[i] == '|')
    ensures forall j :: i < j < |s| ==> s[j] != '|'
  {
    if s == "" then -1
    else if s[|s| - 1] == '|' then |s| - 1
    else LastPipe(s[..|s| - 1])
  }

  datatype Session = Session(username: string, version: int)

  /** The user, version and time fields; tokens without a version field count as version 1. */
  function Fields(p: Platform, payload: string): Option<(string, int, string)> {
    var parts := SplitOn(payload, '|');
    if |parts| == 3 then Some((parts[0], 1, parts[1]))
    else if |parts| == 4 then
      match if parts[1] == "" then Some(1) else p.readInt(parts[1])
      case Some(version) => Some((parts[0], version, parts[2]))
      case None => None
    else None
  }

  function VerifyToken(p: Platform, token: string, now: int, ttl: int): Option<Session> {
    var i := LastPipe(token);
    if i < 0 || token[i + 1..] != p.sign(token[..i]) then None
    else
      match Fields(p, token[..i])
      case None => None
      case Some((username, version, time)) =>
        match p.readTime(time)
        case None => None
        case Some(t) => if now - t > ttl then None else Some(Session(username, version))
  }

  // ------------------------------------------------------------- round trip

  lemma {:induction false} LastPipeOf(a: string, b: string)
    requires '|' !in b
    ensures LastPipe(a + "|" + b) == |a|
    decreases b
  {
    var s := a + "|" + b;
    if b == "" {
      assert s[|s| - 1] == '|';
    } else {
      var n := |b| - 1;
      assert s[|s| - 1] == b[n] && s[..|s| - 1] == a + "|" + b[..n];
      LastPipeOf(a, b[..n]);
    }
  }

  lemma PipeMakesTwoParts(s: string)
    requires '|' in s
    ensures |SplitOn(s, '|')| >= 2
  {
    assert Find(s, '|') < |s|;
  }

  /**
   A created token verifies exactly for pipe-free usernames and until the TTL, and then names the user and
   the version it was created for.
   */
  lemma CreatedTokenVerifiesIff(p: Platform, username: string, version: int, at: int, nonce: string, now: int, ttl: int)
    requires Sensible(p) && '|' !in nonce
    ensures VerifyToken(p, CreateToken(p, username, version, at, nonce), now, ttl) ==
      if '|' in username || now - at > ttl then None else Some(Session(username, OrOne(version)))
  {
    hide SplitOn, LastPipe;
    var payload := Payload(p, username, version, at, nonce);
    var token := CreateToken(p, username, version, at, nonce);
    LastPipeOf(payload, p.sign(payload));
    assert token[..|payload|] == payload && token[|payload| + 1..] == p.sign(payload);
    SplitOnAppend(username, p.showInt(OrOne(version)) + "|" + (p.showTime(at) + "|" + nonce), '|');
    SplitOnCons(p.showInt(OrOne(version)), p.showTime(at) + "|" + nonce, '|');
    SplitOnCons(p.showTime(at), nonce, '|');
    SplitOnOne(nonce, '|');
    if '|' in username {
      PipeMakesTwoParts(username);
    } else {
      SplitOnOne(username, '|');
    }
  }

  // -------------------------------------------------------- which tokens verify

  /** The fields of a payload: user, version, time and nonce; an empty version counts as 1. */
  ghost predicate HasFields(p: Platform, payload: string, username: string, version: int, time: string) {
    exists v: string, nonce: string ::
      && '|' !in username && '|' !in v && '|' !in time && '|' !in nonce
      && payload == username + ("|" + (v + ("|" + (time + ("|" + nonce)))))
      && if v == "" then version == 1 else p.readInt(v) == Some(version)
  }

  /** The older form, without a version. */
  ghost predicate HasOldFields(payload: string, username: string, time: string) {
    exists nonce: string ::
      && '|' !in username && '|' !in time && '|' !in nonce
      && payload == username + ("|" + (time + ("|" + nonce)))
  }

  ghost predicate IsPayload(p: Platform, payload: string, username: string, version: int, time: string) {
    HasFields(p, payload, username, version, time) || (version == 1 && HasOldFields(payload, username, time))
  }

  /** The token carries the signature of its payload, which names that session and is not too old. */
  ghost predicate Speaks(p: Platform, token: string, now: int, ttl: int, s: Session) {
    exists payload: string, time: string ::
      && token == payload + ("|" + p.sign(payload))
      && IsPayload(p, payload, s.username, s.version, time)
      && p.readTime(time).Some? && now - p.readTime(time).value <= ttl
  }

  lemma {:induction false} PartsArePipeFree(s: string)
    ensures forall part :: part in SplitOn(s, '|') ==> '|' !in part
    decreases |s|
  {
    var i := Find(s, '|');
    if i < |s| {
      PartsArePipeFree(s[i + 1..]);
    }
  }

  lemma SplitThree(a: string, b: string, c: string)
    requires '|' !in a && '|' !in b && '|' !in c
    ensures SplitOn(a + ("|" + (b + ("|" + c))), '|') == [a, b, c]
  {
    hide SplitOn;
    SplitOnOne(c, '|');
    SplitOnCons(b, c, '|');
    SplitOnCons(a, b + "|" + c, '|');
    assert a + ("|" + (b + ("|" + c))) == a + "|" + (b + "|" + c);
  }

  lemma SplitFour(a: string, b: string, c: string, d: string)
    requires '|' !in a && '|' !in b && '|' !in c && '|' !in d
    ensures SplitOn(a + ("|" + (b + ("|" + (c + ("|" + d))))), '|') == [a, b, c, d]
  {
    hide SplitOn;
    SplitThree(b, c, d);
    var rest := b + ("|" + (c + ("|" + d)));
    SplitOnCons(a, rest, '|');
    assert a + ("|" + rest) == a + "|" + rest;
  }

  lemma ThreeParts(s: string)
    requires |SplitOn(s, '|')| == 3
    ensures var f := SplitOn(s, '|'); s == f[0] + ("|" + (f[1] + ("|" + f[2])))
  {
    hide SplitOn;
    var f := SplitOn(s, '|');
    JoinOfSplit(s, '|');
    assert f == [f[0]] + ([f[1]] + [f[2]]);
    hide JoinWith;
    JoinCons(f[0], [f[1]] + [f[2]], '|');
    JoinCons(f[1], [f[2]], '|');
    JoinOne(f[2], '|');
    assert f[0] + "|" + (f[1] + "|" + f[2]) == f[0] + ("|" + (f[1] + ("|" + f[2])));
  }

  lemma FourParts(s: string)
    requires |SplitOn(s, '|')| == 4
    ensures var f := SplitOn(s, '|'); s == f[0] + ("|" + (f[1] + ("|" + (f[2] + ("|" + f[3])))))
  {
    hide SplitOn;
    var f := SplitOn(s, '|');
    JoinOfSplit(s, '|');
    assert f == [f[0]] + ([f[1]] + ([f[2]] + [f[3]]));
    hide JoinWith;
    JoinCons(f[0], [f[1]] + ([f[2]] + [f[3]]), '|');
    JoinCons(f[1], [f[2]] + [f[3]], '|');
    JoinCons(f[2], [f[3]], '|');
    JoinOne(f[3], '|');
    var tail := f[2] + "|" + f[3];
    assert f[0] + "|" + (f[1] + "|" + tail) == f[0] + ("|" + (f[1] + ("|" + (f[2] + ("|" + f[3])))));
  }

  lemma PayloadHasFields(p: Platform, payload: string, username: string, version: int, time: string)
    requires IsPayload(p, payload, username, version, time)
    ensures Fields(p, payload) == Some((username, version, time))
  {
    hide SplitOn;
    forall nonce: string
      ensures '|' !in username && '|' !in time && '|' !in nonce ==>
        SplitOn(username + ("|" + (time + ("|" + nonce))), '|') == [username, time, nonce]
    {
      if '|' !in username && '|' !in time && '|' !in nonce {
        SplitThree(username, time, nonce);
      }
    }
    forall nonce: string, v: string
      ensures '|' !in username && '|' !in v && '|' !in time && '|' !in nonce ==>
        SplitOn(username + ("|" + (v + ("|" + (time + ("|" + nonce))))), '|') == [username, v, time, nonce]
    {
      if '|' !in username && '|' !in v && '|' !in time && '|' !in nonce {
        SplitFour(username, v, time, nonce);
      }
    }
  }

  lemma FieldsMakePayload(p: Platform, payload: string)
    requires Fields(p, payload).Some?
    ensures var (username, version, time) := Fields(p, payload).value; IsPayload(p, payload, username, version, time)
  {
    PartsArePipeFree(payload);
    hide SplitOn;
    var f := SplitOn(payload, '|');
    if |f| == 3 {
      ThreeParts(payload);
    } else {
      FourParts(payload);
    }
  }

  lemma CutAtLastPipe(token: string)
    ensures var i := LastPipe(token); i >= 0 ==> token == token[..i] + ("|" + token[i + 1..])
  {
  }

  lemma SignedPayloadVerifies(p: Platform, payload: string, time: string, now: int, ttl: int, s: Session)
    requires '|' !in p.sign(payload) && IsPayload(p, payload, s.username, s.version, time)
    requires p.readTime(time).Some? && now - p.readTime(time).value <= ttl
    ensures VerifyToken(p, payload + ("|" + p.sign(payload)), now, ttl) == Some(s)
  {
    PayloadHasFields(p, payload, s.username, s.version, time);
    hide IsPayload, LastPipe, Fields;
    LastPipeOf(payload, p.sign(payload));
    var token := payload + ("|" + p.sign(payload));
    assert token == payload + "|" + p.sign(payload);
    assert token[..|payload|] == payload && token[|payload| + 1..] == p.sign(payload);
  }

  /** Whatever the platform does, a token that verifies ends in the signature of the payload it is read from. */
  lemma VerifiedSpeaks(p: Platform, token: string, now: int, ttl: int)
    requires VerifyToken(p, token, now, ttl).Some?
    ensures Speaks(p, token, now, ttl, VerifyToken(p, token, now, ttl).value)
  {
    hide IsPayload, LastPipe, Fields;
    CutAtLastPipe(token);
    FieldsMakePayload(p, token[..LastPipe(token)]);
  }

  /**
   An arbitrary token verifies, as a session, exactly when its last field is the signature of what precedes it,
   that has the fields of a payload for this session, and its time has not passed the TTL.
   */
  lemma VerifiesIff(p: Platform, token: string, now: int, ttl: int, s: Session)
    requires Sensible(p)
    ensures VerifyToken(p, token, now, ttl) == Some(s) <==> Speaks(p, token, now, ttl, s)
  {
    hide VerifyToken, IsPayload;
    if VerifyToken(p, token, now, ttl) == Some(s) {
      VerifiedSpeaks(p, token, now, ttl);
    }
    if Speaks(p, token, now, ttl, s) {
      var payload, time :| && token == payload + ("|" + p.sign(payload))
                           && IsPayload(p, payload, s.username, s.version, time)
                           && p.readTime(time).Some? && now - p.readTime(time).value <= ttl;
      SignedPayloadVerifies(p, payload, time, now, ttl, s);
    }
  }

  /** A token whose last field is not the signature of what precedes it never verifies, nor does one without a pipe. */
  lemma ForgedTokenFails(p: Platform, before: string, last: string, now: int, ttl: int)
    requires '|' !in last
    ensures last != p.sign(before) ==> VerifyToken(p, before + "|" + last, now, ttl).None?
    ensures VerifyToken(p, last, now, ttl).None?
  {
    LastPipeOf(before, last);
    var token := before + "|" + last;
    assert token[..|before|] == before && token[|before| + 1..] == last;
  }

  // ------------------------------------------------------------- revocation

  /** A token given out, with the number of password resets its user had had by then. */
  datatype Issued = Issued(username: string, at: int, token: string, resets: nat)

  /** Each user's session version as stored, the tokens given out, and how often each password was reset. */
  datatype World = World(versions: map<string, int>, issued: seq<Issued>, resets: map<string, nat>)

  const START := World(map[], [], map[])

  datatype Event =
    | CreateUser(username: string)
    | Login(username: string, at: int, nonce: string)
    | ResetPassword(username: string)

  function Resets(w: World, username: string): nat { if username in w.resets then w.resets[username] else 0 }

  /** New users start at version 1; a reset stores the next version. */
  function Next(p: Platform, w: World, e: Event): World {
    match e
    case CreateUser(u) => if u in w.versions then w else w.(versions := w.versions[u := 1])
    case Login(u, at, nonce) =>
      if u !in w.versions then w
      else w.(issued := w.issued + [Issued(u, at, CreateToken(p, u, w.versions[u], at, nonce), Resets(w, u))])
    case ResetPassword(u) =>
      if u !in w.versions then w
      else World(w.versions[u := OrOne(w.versions[u]) + 1], w.issued, w.resets[u := Resets(w, u) + 1])
  }

  function Run(p: Platform, w: World, events: seq<Event>): World
    decreases events
  {
    if events == [] then w else Run(p, Next(p, w, events[0]), events[1..])
  }

  /** `get_current_user`: the token verifies and carries the user's stored version. */
  function CurrentUser(p: Platform, w: World, token: string, now: int, ttl: int): Option<string> {
    if token == "" then None
    else
      match VerifyToken(p, token, now, ttl)
      case None => None
      case Some(s) =>
        if s.username in w.versions && OrOne(w.versions[s.username]) == OrOne(s.version) then Some(s.username) else None
  }

  predicate PipeFreeNonces(events: seq<Event>) {
    forall i :: 0 <= i < |events| && events[i].Login? ==> '|' !in events[i].nonce
  }

  /** The token was created for its user's version of the time it was issued. */
  ghost predicate Genuine(p: Platform, t: Issued) {
    exists nonce :: '|' !in nonce && t.token == CreateToken(p, t.username, 1 + t.resets, t.at, nonce)
  }

  /** A user's version counts the resets, and each token was created for the version of its time. */
  ghost predicate Consistent(p: Platform, w: World) {
    && (forall u :: u in w.versions ==> w.versions[u] == 1 + Resets(w, u))
    && (forall i :: 0 <= i < |w.issued| ==>
      var t := w.issued[i];
      t.username in w.versions && t.resets <= Resets(w, t.username) && Genuine(p, t))
    && (forall u :: u !in w.versions ==> Resets(w, u) == 0)
  }

  lemma NewTokenIsGenuine(p: Platform, t: Issued, nonce: string)
    requires '|' !in nonce && t.token == CreateToken(p, t.username, 1 + t.resets, t.at, nonce)
    ensures Genuine(p, t)
  {
    hide CreateToken;
  }

  lemma StepIsConsistent(p: Platform, w: World, e: Event)
    requires Consistent(p, w) && (e.Login? ==> '|' !in e.nonce)
    ensures Consistent(p, Next(p, w, e))
  {
    hide CreateToken, Genuine;
    var w' := Next(p, w, e);
    forall i | 0 <= i < |w'.issued|
      ensures var t := w'.issued[i]; t.username in w'.versions && t.resets <= Resets(w', t.username) && Genuine(p, t)
    {
      if i < |w.issued| {
        assert w'.issued[i] == w.issued[i];
      } else {
        NewTokenIsGenuine(p, w'.issued[i], e.nonce);
      }
    }
  }

  lemma {:induction false} RunIsConsistent(p: Platform, w: World, events: seq<Event>)
    requires Consistent(p, w) && PipeFreeNonces(events)
    ensures Consistent(p, Run(p, w, events))
    decreases events
  {
    hide Consistent, Next;
    if events != [] {
      StepIsConsistent(p, w, events[0]);
      RunIsConsistent(p, Next(p, w, events[0]), events[1..]);
    }
  }

  lemma CreatedTokenIsNotEmpty(p: Platform, username: string, version: int, at: int, nonce: string)
    ensures CreateToken(p, username, version, at, nonce) != ""
  {
  }

  lemma GenuineTokenAcceptedIff(p: Platform, w: World, t: Issued, now: int, ttl: int)
    requires Sensible(p) && Consistent(p, w) && t in w.issued
    ensures CurrentUser(p, w, t.token, now, ttl) ==
      if '|' !in t.username && now - t.at <= ttl && Resets(w, t.username) == t.resets then Some(t.username) else None
  {
    hide CreateToken, VerifyToken, Sensible;
    var nonce :| '|' !in nonce && t.token == CreateToken(p, t.username, 1 + t.resets, t.at, nonce);
    CreatedTokenVerifiesIff(p, t.username, 1 + t.resets, t.at, nonce, now, ttl);
    CreatedTokenIsNotEmpty(p, t.username, 1 + t.resets, t.at, nonce);
  }

  /**
   Over any run without deletions, a token is accepted, as its own user's, exactly when that name is
   pipe-free, the token is within the TTL, and the password has not been reset since it was issued.
   */
  lemma AcceptedIffNotReset(p: Platform, events: seq<Event>, i: nat, now: int, ttl: int)
    requires Sensible(p) && PipeFreeNonces(events) && i < |Run(p, START, events).issued|
    ensures var w := Run(p, START, events);
      var t := w.issued[i];
      CurrentUser(p, w, t.token, now, ttl) ==
        if '|' !in t.username && now - t.at <= ttl && Resets(w, t.username) == t.resets then Some(t.username) else None
  {
    RunIsConsistent(p, START, events);
    hide Run, Sensible, PipeFreeNonces;
    GenuineTokenAcceptedIff(p, Run(p, START, events), Run(p, START, events).issued[i], now, ttl);
  }

  lemma EmptyTokenIsSilent(p: Platform, now: int, ttl: int, s: Session)
    ensures !Speaks(p, "", now, ttl, s)
  {
    hide IsPayload;
  }

  /**
   Who a bearer of an arbitrary token is, in any world: the user of the session it speaks for, when the user exists
   and has that session's version, absent versions counting as 1.
   */
  lemma CurrentUserIff(p: Platform, w: World, token: string, now: int, ttl: int, username: string)
    requires Sensible(p)
    ensures CurrentUser(p, w, token, now, ttl) == Some(username) <==>
      && username in w.versions
      && exists version: int ::
        && Speaks(p, token, now, ttl, Session(username, version))
        && (w.versions[username] == version || (w.versions[username] in {0, 1} && version in {0, 1}))
  {
    hide VerifyToken, Speaks, Sensible;
    forall s: Session ensures VerifyToken(p, token, now, ttl) == Some(s) <==> Speaks(p, token, now, ttl, s) {
      VerifiesIff(p, token, now, ttl, s);
    }
    if token == "" {
      forall s: Session ensures !Speaks(p, token, now, ttl, s) {
        EmptyTokenIsSilent(p, now, ttl, s);
      }
    }
    var v := VerifyToken(p, token, now, ttl);
    if v.Some? {
      assert v.value == Session(v.value.username, v.value.version);
    }
  }

  /** A forged token is nobody's, after any run. */
  lemma ForgedTokenIsNobodys(p: Platform, events: seq<Event>, before: string, last: string, now: int, ttl: int)
    requires '|' !in last && last != p.sign(before)
    ensures CurrentUser(p, Run(p, START, events), before + "|" + last, now, ttl).None?
    ensures CurrentUser(p, Run(p, START, events), last, now, ttl).None?
  {
    hide VerifyToken, Run;
    ForgedTokenFails(p, before, last, now, ttl);
  }

  lemma {:induction false} RunAppend(p: Platform, w: World, a: seq<Event>, b: seq<Event>)
    ensures Run(p, w, a + b) == Run(p, Run(p, w, a), b)
    decreases a
  {
    hide Next;
    if a == [] {
      assert a + b == b;
    } else {
      assert (a + b)[0] == a[0] && (a + b)[1..] == a[1..] + b;
      RunAppend(p, Next(p, w, a[0]), a[1..], b);
    }
  }

  /** Users stay, and the version of one grows exactly with the resets of its password. */
  lemma {:induction false} VersionsGrowIff(p: Platform, w: World, events: seq<Event>, username: string)
    requires Consistent(p, w) && PipeFreeNonces(events)
    ensures var w' := Run(p, w, events);
      && (username in w'.versions <==> username in w.versions || CreateUser(username) in events)
      && (username in w.versions ==>
        && w'.versions[username] >= w.versions[username]
        && (w'.versions[username] == w.versions[username] <==> ResetPassword(username) !in events))
    decreases events
  {
    if events != [] {
      var e := events[0];
      assert events == [e] + events[1..];
      StepIsConsistent(p, w, e);
      VersionsGrowIff(p, Next(p, w, e), events[1..], username);
      hide Run, Genuine, CreateToken;
    }
  }

  /**
   Over whole runs: the token a user gets at login is accepted, as that user's, exactly when the name is pipe-free,
   the TTL has not passed, and no later event resets the password.
   */
  lemma TokenLastsUntilReset(p: Platform, before: seq<Event>, username: string, at: int, nonce: string,
                             after: seq<Event>, now: int, ttl: int)
    requires Sensible(p) && PipeFreeNonces(before) && PipeFreeNonces(after) && '|' !in nonce
    requires CreateUser(username) in before
    ensures var w := Run(p, START, before);
      && username in w.versions
      && var token := CreateToken(p, username, w.versions[username], at, nonce);
      && CurrentUser(p, Run(p, START, before + ([Login(username, at, nonce)] + after)), token, now, ttl) ==
        if '|' !in username && now - at <= ttl && ResetPassword(username) !in after then Some(username) else None
  {
    var w, login := Run(p, START, before), [Login(username, at, nonce)];
    RunAppend(p, START, before, login + after);
    RunIsConsistent(p, START, before);
    VersionsGrowIff(p, START, before, username);
    assert PipeFreeNonces(login + after);
    VersionsGrowIff(p, w, login + after, username);
    var version := w.versions[username];
    hide Run, Next, CreateToken, VerifyToken, Sensible, Genuine;
    CreatedTokenVerifiesIff(p, username, version, at, nonce, now, ttl);
    CreatedTokenIsNotEmpty(p, username, version, at, nonce);
    assert ResetPassword(username) in login + after <==> ResetPassword(username) in after;
  }
}
