/** ssh_client.py: the pool of SSH connections, each locked block one step, and the keys it is indexed by. */
module SshPool {
  import opened PyText

  // --------------------------------------------------------------------- keys

  /** A machine's address fields; an absent user is "". */
  datatype Machine = Machine(user: string, username: Option<string>, host: string, port: Option<string>)

  /** A jump host: resolved to an address, or still only a name. */
  datatype Jump = Resolved(machine: Machine) | Unresolved(name: string)

  datatype Config = Config(server: Machine, jumpHosts: seq<Jump>, jump: Option<Jump>)

  const ROOT := "root"

  const DEFAULT_PORT := "22"

  const DIRECT := "direct"

  /** The login name, host and port that a machine's fields amount to. */
  datatype Address = Address(user: string, host: string, port: string)

  function AddressOf(m: Machine): Address {
    Address(if m.user != "" then m.user else if m.username.Some? then m.username.value else ROOT, m.host,
            if m.port.Some? then m.port.value else DEFAULT_PORT)
  }

  function Shown(a: Address): string { a.user + "@" + a.host + ":" + a.port }

  function ShowAll(jumps: seq<Address>): seq<string> { seq(|jumps|, i requires 0 <= i < |jumps| => Shown(jumps[i])) }

  function KnownOne(j: Jump): seq<Address> { if j.Resolved? then [AddressOf(j.machine)] else [] }

  /** The addresses among the jump hosts. */
  function Known(jumps: seq<Jump>): seq<Address> { if jumps == [] then [] else KnownOne(jumps[0]) + Known(jumps[1..]) }

  function Hops(c: Config): seq<Address> {
    Known(if c.jumpHosts != [] then c.jumpHosts else if c.jump.Some? then [c.jump.value] else [])
  }

  /** What a key says of the hops. */
  function Chain(hops: seq<Address>): string { if hops == [] then DIRECT else JoinWith(ShowAll(hops), '|') }

  function MakeKey(c: Config): string { Shown(AddressOf(c.server)) + (":" + Chain(Hops(c))) }

  /** No part contains a separator, except that a host may contain colons, as IPv6 addresses do. */
  predicate Plain(a: Address) {
    && (forall c | c in a.user || c in a.port :: c != '@' && c != ':' && c != '|')
    && '@' !in a.host && '|' !in a.host
  }

  predicate AllPlain(jumps: seq<Address>) { forall i :: 0 <= i < |jumps| ==> Plain(jumps[i]) }

  lemma ShownParts(a: Address)
    ensures Shown(a) == a.user + ("@" + (a.host + (":" + a.port)))
  {
  }

  lemma ShownIsInjective(a: Address, b: Address)
    requires Plain(a) && Plain(b) && Shown(a) == Shown(b)
    ensures a == b
  {
    ShownParts(a);
    ShownParts(b);
    hide Shown;
    FirstField(a.user, a.host + (":" + a.port), b.user, b.host + (":" + b.port), '@');
    LastField(a.host, a.port, b.host, b.port, ':');
  }

  lemma ShownHasNoBar(a: Address)
    requires Plain(a)
    ensures '|' !in Shown(a)
  {
  }

  lemma ChainIsInjective(a: seq<Address>, b: seq<Address>)
    requires a != [] && b != [] && AllPlain(a) && AllPlain(b) && Chain(a) == Chain(b)
    ensures a == b
  {
    hide SplitOn, Shown, JoinWith, Plain;
    forall x: Address | Plain(x) ensures '|' !in Shown(x) {
      ShownHasNoBar(x);
    }
    SplitOfJoin(ShowAll(a), '|');
    SplitOfJoin(ShowAll(b), '|');
    forall i | 0 <= i < |a| ensures a[i] == b[i] {
      assert ShowAll(a)[i] == Shown(a[i]) == Shown(b[i]);
      ShownIsInjective(a[i], b[i]);
    }
  }

  lemma ChainBegins(hops: seq<Address>) returns (more: string)
    requires hops != []
    ensures Chain(hops) == Shown(hops[0]) + more
  {
    hide Shown;
    assert ShowAll(hops)[0] == Shown(hops[0]);
    more := Chain(hops)[|Shown(hops[0])|..];
  }

  /** A chain of hops begins with the first hop's user. */
  lemma ChainStarts(hops: seq<Address>) returns (rest: string)
    requires hops != []
    ensures Chain(hops) == hops[0].user + ("@" + rest)
  {
    var a := hops[0];
    var more := ChainBegins(hops);
    ShownParts(a);
    hide Shown, Chain;
    var afterUser := a.host + (":" + a.port);
    rest := afterUser + more;
    assert a.user + ("@" + afterUser) + more == a.user + ("@" + rest);
  }

  function LastWord(c: Config): string { if Hops(c) == [] then DIRECT else Hops(c)[0].user }

  /** The part of a key between the server's user and the next at-sign, if any. */
  function LeftPart(c: Config): string {
    AddressOf(c.server).host + (":" + AddressOf(c.server).port) + (":" + LastWord(c))
  }

  predicate StartsWithAt(s: string) { s == "" || s[0] == '@' }

  lemma KeyParts(c: Config) returns (rest: string)
    requires Plain(AddressOf(c.server)) && AllPlain(Hops(c))
    ensures MakeKey(c) == AddressOf(c.server).user + ("@" + (LeftPart(c) + rest)) && '@' !in LeftPart(c)
    ensures Chain(Hops(c)) == LastWord(c) + rest && StartsWithAt(rest) && (rest == "" <==> Hops(c) == [])
  {
    var a := AddressOf(c.server);
    ShownParts(a);
    hide Shown, AddressOf, Hops, JoinWith;
    var tail := Chain(Hops(c));
    rest := "";
    if Hops(c) != [] {
      rest := ChainStarts(Hops(c));
      rest := "@" + rest;
    } else {
      assert tail == DIRECT + rest && '@' !in DIRECT;
    }
    var last := LastWord(c);
    assert a.user + ("@" + (a.host + (":" + a.port))) + (":" + (last + rest)) == a.user + ("@" + (LeftPart(c) + rest));
  }

  lemma LastWordIsPlain(c: Config)
    requires AllPlain(Hops(c))
    ensures ':' !in LastWord(c)
  {
    hide Hops;
  }

  /** The part before the first at-sign, if there is any. */
  lemma SameStart(x: string, r: string, y: string, q: string)
    requires '@' !in x && '@' !in y && x + r == y + q
    requires StartsWithAt(r) && StartsWithAt(q)
    ensures x == y && r == q
  {
    var s := x + r;
    assert r != "" ==> s[|x|] == '@';
    assert q != "" ==> (y + q)[|y|] == '@';
    assert forall i :: 0 <= i < |x| ==> s[i] == x[i];
    assert forall i :: 0 <= i < |y| ==> (y + q)[i] == y[i];
    assert |x| == |y|;
    assert x == s[..|x|] && y == (y + q)[..|y|] && r == s[|x|..] && q == (y + q)[|y|..];
  }

  /** Configurations with plain addresses share a key exactly when they share the address and the resolved hops. */
  lemma KeysAgreeIff(a: Config, b: Config)
    requires Plain(AddressOf(a.server)) && Plain(AddressOf(b.server)) && AllPlain(Hops(a)) && AllPlain(Hops(b))
    ensures MakeKey(a) == MakeKey(b) <==> AddressOf(a.server) == AddressOf(b.server) && Hops(a) == Hops(b)
  {
    if MakeKey(a) == MakeKey(b) {
      var r := KeyParts(a);
      var q := KeyParts(b);
      var s, t := AddressOf(a.server), AddressOf(b.server);
      LastWordIsPlain(a);
      LastWordIsPlain(b);
      hide MakeKey, Chain, ShowAll, AddressOf, Hops, LastWord, DIRECT;
      FirstField(s.user, LeftPart(a) + r, t.user, LeftPart(b) + q, '@');
      SameStart(LeftPart(a), r, LeftPart(b), q);
      LastField(s.host + (":" + s.port), LastWord(a), t.host + (":" + t.port), LastWord(b), ':');
      LastField(s.host, s.port, t.host, t.port, ':');
      if Hops(a) != [] {
        ChainIsInjective(Hops(a), Hops(b));
      }
    }
  }

  // ------------------------------------------ keys that can be read in two ways

  /** The lengths of an address's parts, which say where to cut its text. */
  datatype Lens = Lens(user: nat, host: nat, port: nat)

  function LensOf(a: Address): Lens { Lens(|a.user|, |a.host|, |a.port|) }

  function Total(l: Lens): nat { l.user + 1 + l.host + 1 + l.port }

  predicate CutsAddress(s: string, l: Lens) {
    |s| == Total(l) && s[l.user] == '@' && s[l.user + 1 + l.host] == ':'
  }

  function AddressAt(s: string, l: Lens): Address
    requires CutsAddress(s, l)
  {
    Address(s[..l.user], s[l.user + 1..l.user + 1 + l.host], s[l.user + 1 + l.host + 1..])
  }

  lemma ShownIsCut(a: Address)
    ensures CutsAddress(Shown(a), LensOf(a)) && AddressAt(Shown(a), LensOf(a)) == a
  {
    var s := Shown(a);
    ShownParts(a);
    assert s[..|a.user|] == a.user && s[|a.user| + 1..] == a.host + (":" + a.port);
    assert s[|a.user| + 1..][|a.host| + 1..] == a.port;
  }

  lemma CutIsShown(s: string, l: Lens)
    requires CutsAddress(s, l)
    ensures Shown(AddressAt(s, l)) == s && LensOf(AddressAt(s, l)) == l
  {
  }

  /** The texts of addresses, a bar between them. */
  predicate CutsHops(s: string, cuts: seq<Lens>)
    requires cuts != []
    decreases cuts
  {
    var n := Total(cuts[0]);
    && n <= |s| && CutsAddress(s[..n], cuts[0])
    && if |cuts| == 1 then n == |s| else n < |s| && s[n] == '|' && CutsHops(s[n + 1..], cuts[1..])
  }

  function HopsAt(s: string, cuts: seq<Lens>): seq<Address>
    requires cuts != [] && CutsHops(s, cuts)
    decreases cuts
  {
    var n := Total(cuts[0]);
    [AddressAt(s[..n], cuts[0])] + if |cuts| == 1 then [] else HopsAt(s[n + 1..], cuts[1..])
  }

  function Lenses(hops: seq<Address>): seq<Lens> { seq(|hops|, i requires 0 <= i < |hops| => LensOf(hops[i])) }

  lemma JoinedOnce(hops: seq<Address>)
    requires hops != []
    ensures JoinWith(ShowAll(hops), '|') ==
      if |hops| == 1 then Shown(hops[0]) else Shown(hops[0]) + ['|'] + JoinWith(ShowAll(hops[1..]), '|')
  {
    hide Shown;
    assert ShowAll(hops)[1..] == ShowAll(hops[1..]);
  }

  lemma ShownLength(a: Address)
    ensures |Shown(a)| == Total(LensOf(a))
  {
  }

  lemma {:induction false} HopsAreCut(hops: seq<Address>)
    requires hops != []
    ensures var s := JoinWith(ShowAll(hops), '|'); CutsHops(s, Lenses(hops)) && HopsAt(s, Lenses(hops)) == hops
    decreases hops
  {
    hide Shown, CutsAddress, AddressAt, JoinWith;
    var s := JoinWith(ShowAll(hops), '|');
    var first := Shown(hops[0]);
    JoinedOnce(hops);
    ShownIsCut(hops[0]);
    assert |first| == Total(LensOf(hops[0])) by { ShownLength(hops[0]); }
    if |hops| > 1 {
      HopsAreCut(hops[1..]);
      assert Lenses(hops)[1..] == Lenses(hops[1..]);
      assert s[..|first|] == first && s[|first| + 1..] == JoinWith(ShowAll(hops[1..]), '|');
    } else {
      assert s[..|first|] == first;
    }
  }

  lemma LensesCons(first: Address, rest: seq<Address>)
    ensures Lenses([first] + rest) == [LensOf(first)] + Lenses(rest)
  {
  }

  lemma JoinedHops(first: Address, rest: seq<Address>)
    ensures JoinWith(ShowAll([first] + rest), '|') ==
      if rest == [] then Shown(first) else Shown(first) + ['|'] + JoinWith(ShowAll(rest), '|')
  {
    hide Shown;
    JoinedOnce([first] + rest);
    assert ([first] + rest)[1..] == rest;
  }

  lemma LensesOfNone()
    ensures Lenses([]) == []
  {
  }

  lemma {:induction false} CutsAreHops(s: string, cuts: seq<Lens>)
    requires cuts != [] && CutsHops(s, cuts)
    ensures var hops := HopsAt(s, cuts); hops != [] && JoinWith(ShowAll(hops), '|') == s && Lenses(hops) == cuts
    decreases cuts
  {
    hide Shown, CutsAddress, AddressAt, JoinWith, ShowAll, Lenses, LensOf, Total;
    var n := Total(cuts[0]);
    var first := AddressAt(s[..n], cuts[0]);
    CutIsShown(s[..n], cuts[0]);
    if |cuts| > 1 {
      var rest := HopsAt(s[n + 1..], cuts[1..]);
      CutsAreHops(s[n + 1..], cuts[1..]);
      JoinedHops(first, rest);
      LensesCons(first, rest);
      assert s == s[..n] + ['|'] + s[n + 1..];
    } else {
      JoinedHops(first, []);
      LensesCons(first, []);
      LensesOfNone();
      assert s[..n] == s && [first] + [] == [first] && cuts == [cuts[0]] + [];
    }
  }

  /** Where to cut a key: the server's address, and those of the hops, if it does not end in `direct`. */
  datatype Cut = Cut(server: Lens, hops: seq<Lens>)

  predicate Cuts(key: string, c: Cut) {
    var n := Total(c.server);
    && n < |key| && CutsAddress(key[..n], c.server) && key[n] == ':'
    && if c.hops == [] then key[n + 1..] == DIRECT else CutsHops(key[n + 1..], c.hops)
  }

  /** The address and hops a key reads as when cut there. */
  function Reading(key: string, c: Cut): (Address, seq<Address>)
    requires Cuts(key, c)
  {
    var n := Total(c.server);
    (AddressAt(key[..n], c.server), if c.hops == [] then [] else HopsAt(key[n + 1..], c.hops))
  }

  function SeamsOf(c: Config): Cut { Cut(LensOf(AddressOf(c.server)), Lenses(Hops(c))) }

  ghost predicate SharesKey(c: Config) {
    exists d: Config :: MakeKey(d) == MakeKey(c) && (AddressOf(d.server) != AddressOf(c.server) || Hops(d) != Hops(c))
  }

  ghost predicate CutsOtherwise(c: Config) { exists cut: Cut :: Cuts(MakeKey(c), cut) && cut != SeamsOf(c) }

  lemma TextSplits(first: string, rest: string)
    ensures var s := first + (":" + rest); s[..|first|] == first && s[|first|] == ':' && s[|first| + 1..] == rest
  {
  }

  lemma ChainIsCut(hops: seq<Address>)
    ensures var tail, cuts := Chain(hops), Lenses(hops);
            if cuts == [] then tail == DIRECT && hops == [] else CutsHops(tail, cuts) && HopsAt(tail, cuts) == hops
  {
    hide ShowAll, JoinWith, CutsHops, HopsAt, LensOf;
    if hops != [] {
      HopsAreCut(hops);
    }
  }

  lemma WholeIsCut(server: Address, tail: string, cuts: seq<Lens>)
    requires if cuts == [] then tail == DIRECT else CutsHops(tail, cuts)
    ensures var key, cut := Shown(server) + (":" + tail), Cut(LensOf(server), cuts);
            Cuts(key, cut) && Reading(key, cut) == (server, if cuts == [] then [] else HopsAt(tail, cuts))
  {
    ShownIsCut(server);
    ShownLength(server);
    hide Shown, CutsAddress, AddressAt, CutsHops, HopsAt, LensOf, Total, DIRECT;
    TextSplits(Shown(server), tail);
  }

  lemma KeyIsCut(c: Config)
    ensures Cuts(MakeKey(c), SeamsOf(c)) && Reading(MakeKey(c), SeamsOf(c)) == (AddressOf(c.server), Hops(c))
  {
    hide Shown, Cuts, Reading, CutsHops, HopsAt, Hops, AddressOf, LensOf, Lenses, Chain, DIRECT;
    ChainIsCut(Hops(c));
    WholeIsCut(AddressOf(c.server), Chain(Hops(c)), Lenses(Hops(c)));
  }

  function MachineAt(a: Address): Machine { Machine("", Some(a.user), a.host, Some(a.port)) }

  /** A configuration that a cut of a key stands for. */
  function Configured(server: Address, hops: seq<Address>): Config {
    Config(MachineAt(server), seq(|hops|, i requires 0 <= i < |hops| => Resolved(MachineAt(hops[i]))), None)
  }

  lemma {:induction false} ConfiguredHops(hops: seq<Address>)
    ensures Known(Configured(Address("", "", ""), hops).jumpHosts) == hops
    decreases hops
  {
    if hops != [] {
      ConfiguredHops(hops[1..]);
      var nobody := Address("", "", "");
      assert Configured(nobody, hops).jumpHosts[1..] == Configured(nobody, hops[1..]).jumpHosts;
    }
  }

  lemma ConfiguredMeans(server: Address, hops: seq<Address>)
    ensures var d := Configured(server, hops); AddressOf(d.server) == server && Hops(d) == hops
  {
    ConfiguredHops(hops);
  }

  lemma TailIsWritten(tail: string, cuts: seq<Lens>)
    requires if cuts == [] then tail == DIRECT else CutsHops(tail, cuts)
    ensures var hops := if cuts == [] then [] else HopsAt(tail, cuts); Chain(hops) == tail && Lenses(hops) == cuts
  {
    hide ShowAll, JoinWith, CutsHops, HopsAt, LensOf;
    if cuts == [] {
      LensesOfNone();
    } else {
      CutsAreHops(tail, cuts);
    }
  }

  /** The text of what a cut reads is the key again, and has that cut for its seams. */
  lemma ReadingIsWritten(key: string, cut: Cut)
    requires Cuts(key, cut)
    ensures var (server, hops) := Reading(key, cut);
            Shown(server) + (":" + Chain(hops)) == key && Cut(LensOf(server), Lenses(hops)) == cut
  {
    hide Shown, CutsAddress, AddressAt, CutsHops, HopsAt, Lenses, LensOf, Total, Chain, DIRECT;
    var n := Total(cut.server);
    CutIsShown(key[..n], cut.server);
    TailIsWritten(key[n + 1..], cut.hops);
    assert key == key[..n] + (":" + key[n + 1..]);
  }

  lemma CutIsConfigured(key: string, cut: Cut) returns (d: Config)
    requires Cuts(key, cut)
    ensures MakeKey(d) == key && SeamsOf(d) == cut
  {
    ReadingIsWritten(key, cut);
    hide Shown, Cuts, Reading, Chain, Hops, AddressOf, LensOf, Configured, Lenses;
    var (server, hops) := Reading(key, cut);
    d := Configured(server, hops);
    ConfiguredMeans(server, hops);
  }

  lemma SeamsAreOfMeaning(c: Config, d: Config)
    ensures AddressOf(c.server) == AddressOf(d.server) && Hops(c) == Hops(d) ==> SeamsOf(c) == SeamsOf(d)
  {
  }

  /**
   A configuration shares its key with one of another address or other resolved hops exactly when the key can also be
   cut elsewhere into an address, and hops or `direct`.
   */
  lemma SharesKeyIff(c: Config)
    ensures SharesKey(c) <==> CutsOtherwise(c)
  {
    hide MakeKey, Cuts, SeamsOf, AddressOf, Hops;
    if SharesKey(c) {
      var d: Config :|
        MakeKey(d) == MakeKey(c) && (AddressOf(d.server) != AddressOf(c.server) || Hops(d) != Hops(c));
      KeyIsCut(c);
      KeyIsCut(d);
    }
    if CutsOtherwise(c) {
      var cut :| Cuts(MakeKey(c), cut) && cut != SeamsOf(c);
      var d := CutIsConfigured(MakeKey(c), cut);
      assert SeamsOf(d) != SeamsOf(c);
      SeamsAreOfMeaning(c, d);
    }
  }

  /** With an at-sign in a user or host, different addresses can share a key. */
  lemma AtSignsCollide()
    ensures exists a: Address, b: Address :: a != b && Shown(a) == Shown(b)
  {
    var a, b := Address("a@b", "c", "22"), Address("a", "b@c", "22");
    assert Shown(a) == "a@b@c:22" == Shown(b);
  }

  /** The hops a new connection is given: the jump hosts as listed, unresolved ones included. */
  function Route(c: Config): seq<Jump> {
    if c.jumpHosts != [] then c.jumpHosts else if c.jump.Some? && c.jump.value.Resolved? then [c.jump.value] else []
  }

  /** The key is that of the route's resolved part, so an unresolved name in the list is invisible to it. */
  lemma KeySeesResolvedPart(c: Config)
    ensures Hops(c) == Known(Route(c))
  {
    if c.jump.Some? {
      assert Known([c.jump.value]) == KnownOne(c.jump.value);
    }
  }

  predicate AllResolved(jumps: seq<Jump>) { forall i :: 0 <= i < |jumps| ==> jumps[i].Resolved? }

  /** The addresses a fully resolved route leads through. */
  function RouteAddresses(jumps: seq<Jump>): seq<Address>
    requires AllResolved(jumps)
  {
    seq(|jumps|, i requires 0 <= i < |jumps| => AddressOf(jumps[i].machine))
  }

  lemma {:induction false} AllAreKnown(jumps: seq<Jump>)
    requires AllResolved(jumps)
    ensures Known(jumps) == RouteAddresses(jumps)
    decreases jumps
  {
    hide AddressOf;
    if jumps != [] {
      AllAreKnown(jumps[1..]);
      assert RouteAddresses(jumps) == KnownOne(jumps[0]) + RouteAddresses(jumps[1..]);
    }
  }

  /** Where every hop is resolved and plain, the key tells address and route. */
  lemma KeyTellsRouteIff(a: Config, b: Config)
    requires AllResolved(Route(a)) && AllResolved(Route(b))
    requires Plain(AddressOf(a.server)) && AllPlain(RouteAddresses(Route(a)))
    requires Plain(AddressOf(b.server)) && AllPlain(RouteAddresses(Route(b)))
    ensures MakeKey(a) == MakeKey(b) <==>
      AddressOf(a.server) == AddressOf(b.server) && RouteAddresses(Route(a)) == RouteAddresses(Route(b))
  {
    hide MakeKey, Plain, Hops, Route, AddressOf;
    KeySeesResolvedPart(a);
    KeySeesResolvedPart(b);
    AllAreKnown(Route(a));
    AllAreKnown(Route(b));
    KeysAgreeIff(a, b);
  }

  lemma SameHopsSameKey(c: Config, d: Config)
    requires Hops(c) == Hops(d) && c.server == d.server
    ensures MakeKey(c) == MakeKey(d)
  {
  }

  lemma {:induction false} KnownAppend(a: seq<Jump>, b: seq<Jump>)
    ensures Known(a + b) == Known(a) + Known(b)
    decreases a
  {
    hide KnownOne;
    if a == [] {
      assert a + b == b;
    } else {
      assert (a + b)[1..] == a[1..] + b;
      KnownAppend(a[1..], b);
    }
  }

  /** Every configuration shares its key with one whose route has an unresolved hop more. */
  lemma UnresolvedHopsShareKeys(c: Config, name: string)
    ensures var d := c.(jumpHosts := Route(c) + [Unresolved(name)]);
            MakeKey(d) == MakeKey(c) && Route(d) == Route(c) + [Unresolved(name)]
  {
    hide MakeKey;
    var d := c.(jumpHosts := Route(c) + [Unresolved(name)]);
    KnownAppend(Route(c), [Unresolved(name)]);
    assert Known([Unresolved(name)]) == [];
    KeySeesResolvedPart(c);
    KeySeesResolvedPart(d);
    hide Hops, Known;
    assert Hops(d) == Hops(c);
    SameHopsSameKey(c, d);
  }

  // --------------------------------------------------------------------- pool

  /** A client that was stored: the key it was made for, whether it has a connection, whether `close` was called. */
  datatype Client = Client(key: string, connected: bool, closed: bool)

  /** `clients` holds every client ever stored, by identity. */
  datatype State = State(pool: map<string, nat>, access: map<string, int>, clients: seq<Client>)

  predicate InStore(s: State) { forall k :: k in s.pool ==> s.pool[k] < |s.clients| }

  /** `close` drops the connection, unless closing it raises. */
  function Close(c: Client, fails: bool): Client { c.(closed := true, connected := c.connected && fails) }

  function CloseAt(clients: seq<Client>, ids: set<nat>, fails: set<nat>): seq<Client> {
    seq(|clients|, i requires 0 <= i < |clients| => if i in ids then Close(clients[i], i in fails) else clients[i])
  }

  function Clients(s: State, keys: set<string>): set<nat> { set k | k in keys && k in s.pool :: s.pool[k] }

  /** Closes and forgets the entries of some keys. */
  function Evict(s: State, keys: set<string>, fails: set<nat>): State {
    State(s.pool - keys, s.access - keys, CloseAt(s.clients, Clients(s, keys), fails))
  }

  /** The first locked block of `get`; `active` says whether the connection's transport is found active. */
  function Lookup(s: State, key: string, now: int, active: bool, fails: set<nat>): (State, Option<nat>)
    requires InStore(s)
  {
    if key !in s.pool then (s, None)
    else if s.clients[s.pool[key]].connected && active then (s.(access := s.access[key := now]), Some(s.pool[key]))
    else (Evict(s, {key}, fails), None)
  }

  /** The second locked block of `get`: a freshly connected client enters the pool. */
  function Store(s: State, key: string, now: int): State {
    State(s.pool[key := |s.clients|], s.access[key := now], s.clients + [Client(key, true, false)])
  }

  function Idle(s: State, now: int, limit: int): set<string> { set k | k in s.access && now - s.access[k] > limit }

  function Get(s: State, key: string, now: int, active: bool, fails: set<nat>, connects: bool,
               later: int): (State, Option<nat>)
    requires InStore(s)
  {
    var (t, hit) := Lookup(s, key, now, active, fails);
    if hit.Some? || !connects then (t, hit) else (Store(t, key, later), Some(|t.clients|))
  }

  lemma EvictOneMore(s: State, keys: set<string>, k: string, fails: set<nat>)
    requires InStore(s) && k !in keys
    ensures Evict(Evict(s, keys, fails), {k}, fails) == Evict(s, keys + {k}, fails)
  {
    var t := Evict(s, keys, fails);
    assert Clients(s, keys + {k}) == Clients(s, keys) + Clients(t, {k});
    assert s.pool - keys - {k} == s.pool - (keys + {k});
    assert s.access - keys - {k} == s.access - (keys + {k});
  }

  lemma EvictNone(s: State, fails: set<nat>)
    ensures Evict(s, {}, fails) == s
  {
    assert Clients(s, {}) == {};
    assert s.pool - {} == s.pool && s.access - {} == s.access;
  }

  lemma EvictOne(s: State, key: string, fails: set<nat>)
    requires InStore(s) && key in s.pool
    ensures var id := s.pool[key];
            Evict(s, {key}, fails) ==
            State(s.pool - {key}, s.access - {key}, s.clients[id := Close(s.clients[id], id in fails)])
  {
    assert Clients(s, {key}) == {s.pool[key]};
  }

  lemma EvictUnpooled(s: State, key: string, fails: set<nat>)
    requires key !in s.pool
    ensures Evict(s, {key}, fails) == s.(access := s.access - {key})
  {
    assert Clients(s, {key}) == {};
    assert s.pool - {key} == s.pool;
  }

  /** One locked block run by some thread, or a caller closing a client it was given. */
  datatype Step =
    | Look(key: string, now: int, active: bool, fails: set<nat>)
    | Put(key: string, now: int)
    | Clean(now: int, fails: set<nat>)
    | CloseEvery(fails: set<nat>)
    | CallerCloses(id: nat, fails: set<nat>)

  predicate Sound(s: State) {
    && s.pool.Keys == s.access.Keys && InStore(s)
    && forall k :: k in s.pool ==> s.clients[s.pool[k]].key == k
  }

  function Next(s: State, step: Step, limit: int): State
    requires Sound(s)
  {
    match step
    case Look(key, now, active, fails) => Lookup(s, key, now, active, fails).0
    case Put(key, now) => Store(s, key, now)
    case Clean(now, fails) => Evict(s, Idle(s, now, limit), fails)
    case CloseEvery(fails) => State(map[], map[], CloseAt(s.clients, Clients(s, s.pool.Keys), fails))
    case CallerCloses(id, fails) => s.(clients := CloseAt(s.clients, {id}, fails))
  }

  class SSHConnectionPool {
    const maxIdle: int
    var pool: map<string, nat>
    var lastAccess: map<string, int>
    var clients: seq<Client>

    constructor (maxIdle: int)
      ensures this.maxIdle == maxIdle && Now() == State(map[], map[], [])
    {
      this.maxIdle, pool, lastAccess, clients := maxIdle, map[], map[], [];
    }

    function Now(): State reads this { State(pool, lastAccess, clients) }

    method CloseClient(id: nat, fails: set<nat>)
      requires id < |clients|
      modifies this`clients
      ensures clients == old(clients)[id := Close(old(clients)[id], id in fails)]
      ensures Sound(old(Now())) ==> Now() == Next(old(Now()), CallerCloses(id, fails), maxIdle)
    {
      var c := clients[id];
      if c.connected && id !in fails {
        c := c.(connected := false);
      }
      clients := clients[id := c.(closed := true)];
    }

    method GetClient(key: string, now: int, active: bool, fails: set<nat>, connects: bool,
                     later: int) returns (client: Option<nat>)
      requires InStore(Now())
      modifies this
      ensures (Now(), client) == Get(old(Now()), key, now, active, fails, connects, later)
    {
      hide Evict;
      if key in pool {
        var id := pool[key];
        if clients[id].connected && active {
          lastAccess := lastAccess[key := now];
          return Some(id);
        }
        EvictOne(Now(), key, fails);
        pool, lastAccess := pool - {key}, lastAccess - {key};
        CloseClient(id, fails);
      }
      if !connects {
        return None;
      }
      client := Some(|clients|);
      clients := clients + [Client(key, true, false)];
      pool, lastAccess := pool[key := client.value], lastAccess[key := later];
    }

    method Cleanup(now: int, fails: set<nat>)
      requires InStore(Now())
      modifies this
      ensures Now() == Evict(old(Now()), Idle(old(Now()), now, maxIdle), fails)
      ensures Sound(old(Now())) ==> Now() == Next(old(Now()), Clean(now, fails), maxIdle)
    {
      hide Evict;
      ghost var before := Now();
      ghost var done: set<string> := {};
      var remaining := set k | k in lastAccess && now - lastAccess[k] > maxIdle;
      EvictNone(before, fails);
      while remaining != {}
        invariant InStore(Now()) && remaining !! done && remaining + done == Idle(before, now, maxIdle)
        invariant Now() == Evict(before, done, fails)
        decreases remaining
      {
        var key :| key in remaining;
        EvictOneMore(before, done, key, fails);
        if key in pool {
          EvictOne(Now(), key, fails);
          var id := pool[key];
          pool, lastAccess := pool - {key}, lastAccess - {key};
          CloseClient(id, fails);
        } else {
          EvictUnpooled(Now(), key, fails);
          lastAccess := lastAccess - {key};
        }
        remaining, done := remaining - {key}, done + {key};
      }
      assert done == Idle(before, now, maxIdle);
    }

    method CloseAll(fails: set<nat>)
      requires InStore(Now())
      modifies this
      ensures Now() == State(map[], map[], CloseAt(old(clients), Clients(old(Now()), old(pool).Keys), fails))
      ensures Sound(old(Now())) ==> Now() == Next(old(Now()), CloseEvery(fails), maxIdle)
    {
      ghost var before := Now();
      ghost var done: set<string> := {};
      var remaining := pool.Keys;
      while remaining != {}
        invariant remaining !! done && remaining + done == before.pool.Keys
        invariant pool == before.pool && clients == CloseAt(before.clients, Clients(before, done), fails)
        decreases remaining
      {
        var key :| key in remaining;
        assert Clients(before, done + {key}) == Clients(before, done) + {pool[key]};
        CloseClient(pool[key], fails);
        remaining, done := remaining - {key}, done + {key};
      }
      assert done == before.pool.Keys;
      pool, lastAccess := map[], map[];
    }
  }

  // --------------------------------------------------------------------- runs

  lemma EvictKeepsSound(s: State, keys: set<string>, fails: set<nat>)
    requires Sound(s)
    ensures Sound(Evict(s, keys, fails))
  {
    hide Clients;
  }

  /** The two dictionaries have the same keys after every locked block, whatever the threads do in between. */
  lemma StepKeepsSound(s: State, step: Step, limit: int)
    requires Sound(s)
    ensures Sound(Next(s, step, limit))
  {
    match step
    case Look(key, now, active, fails) => EvictKeepsSound(s, {key}, fails);
    case Put(key, now) =>
    case Clean(now, fails) => EvictKeepsSound(s, Idle(s, now, limit), fails);
    case CloseEvery(fails) =>
    case CallerCloses(id, fails) =>
  }

  function Run(s: State, steps: seq<Step>, limit: int): (r: State)
    requires Sound(s)
    ensures Sound(r)
    decreases steps
  {
    if steps == [] then s
    else
      StepKeepsSound(s, steps[0], limit);
      Run(Next(s, steps[0], limit), steps[1..], limit)
  }

  /** A hit is the live client that was made for this very key, and touches nothing but its access time. */
  lemma HitIsLive(s: State, key: string, now: int, active: bool, fails: set<nat>)
    requires Sound(s)
    ensures var (t, hit) := Lookup(s, key, now, active, fails);
            && (hit.Some? ==> active && hit.value < |s.clients| && t == s.(access := s.access[key := now]))
            && (hit.Some? ==> s.clients[hit.value].key == key && s.clients[hit.value].connected)
            && (hit.None? ==> key !in t.pool && key !in t.access)
  {
  }

  /** A clean-up removes exactly the entries idle for longer than the limit, and closes exactly their clients. */
  lemma CleanupRemovesIff(s: State, now: int, limit: int, fails: set<nat>, k: string)
    requires Sound(s) && k in s.pool
    ensures var t := Evict(s, Idle(s, now, limit), fails);
            var client := s.pool[k];
            if now - s.access[k] > limit then k !in t.pool && t.clients[client].closed
            else
              && k in t.pool && t.pool[k] == client && t.access[k] == s.access[k]
              && t.clients[client] == s.clients[client]
  {
    var keys := Idle(s, now, limit);
    if k in keys {
      assert s.pool[k] in Clients(s, keys);
    } else {
      assert forall j :: j in keys && j in s.pool && s.pool[j] == s.pool[k] ==> j == k;
      assert s.pool[k] !in Clients(s, keys);
    }
  }

  predicate Pooled(s: State, id: nat)
    requires id < |s.clients|
  {
    s.clients[id].key in s.pool && s.pool[s.clients[id].key] == id
  }

  /** Every client ever stored is still pooled or had `close` called. */
  predicate Accounted(s: State) { forall id: nat | id < |s.clients| :: s.clients[id].closed || Pooled(s, id) }

  /** A step that stores over a client nobody closed. */
  predicate Overwrites(s: State, step: Step)
    requires InStore(s)
  {
    step.Put? && step.key in s.pool && !s.clients[s.pool[step.key]].closed
  }

  lemma EvictAccounts(s: State, keys: set<string>, fails: set<nat>)
    requires Sound(s) && Accounted(s)
    ensures Accounted(Evict(s, keys, fails))
  {
    var t := Evict(s, keys, fails);
    forall id: nat | id < |t.clients| ensures t.clients[id].closed || Pooled(t, id) {
      var key := s.clients[id].key;
      assert s.clients[id].closed || Pooled(s, id);
      if Pooled(s, id) && key in keys {
        assert id in Clients(s, keys);
      }
    }
  }

  /** A step loses a client, neither pooled nor closed, exactly when it stores over one nobody closed. */
  lemma StepAccountsIff(s: State, step: Step, limit: int)
    requires Sound(s) && Accounted(s)
    ensures Accounted(Next(s, step, limit)) <==> !Overwrites(s, step)
  {
    var t := Next(s, step, limit);
    match step
    case Look(key, now, active, fails) =>
      EvictAccounts(s, {key}, fails);
      hide Evict;
      assert forall id: nat | id < |s.clients| :: s.clients[id].closed || Pooled(s, id);
    case Put(key, now) =>
      if Overwrites(s, step) {
        var id := s.pool[key];
        assert t.clients[id] == s.clients[id] && !Pooled(t, id);
      } else {
        forall id: nat | id < |t.clients| ensures t.clients[id].closed || Pooled(t, id) {
          if id < |s.clients| {
            assert t.clients[id] == s.clients[id];
            assert s.clients[id].closed || Pooled(s, id);
          }
        }
      }
    case Clean(now, fails) => EvictAccounts(s, Idle(s, now, limit), fails);
    case CloseEvery(fails) =>
      forall id: nat | id < |t.clients| ensures t.clients[id].closed {
        assert s.clients[id].closed || Pooled(s, id);
        assert Pooled(s, id) ==> id in Clients(s, s.pool.Keys);
      }
    case CallerCloses(id, fails) =>
      assert forall id: nat | id < |s.clients| :: s.clients[id].closed || Pooled(s, id);
  }

  /** No step of the run stores over a client nobody closed. */
  predicate NeverOverwrites(s: State, steps: seq<Step>, limit: int)
    requires Sound(s)
    decreases steps
  {
    steps != [] ==>
      !Overwrites(s, steps[0])
      && (StepKeepsSound(s, steps[0], limit); NeverOverwrites(Next(s, steps[0], limit), steps[1..], limit))
  }

  /** Over every interleaving of locked blocks that never stores over an open client, no client is lost. */
  lemma {:induction false} RunsAccount(s: State, steps: seq<Step>, limit: int)
    requires Sound(s) && Accounted(s) && NeverOverwrites(s, steps, limit)
    ensures Accounted(Run(s, steps, limit))
    decreases steps
  {
    hide Next, Accounted, Overwrites;
    if steps != [] {
      StepKeepsSound(s, steps[0], limit);
      StepAccountsIff(s, steps[0], limit);
      RunsAccount(Next(s, steps[0], limit), steps[1..], limit);
    }
  }

  /** What one thread does at a time. */
  datatype Call =
    | GetCall(key: string, now: int, active: bool, fails: set<nat>, connects: bool, later: int)
    | Other(step: Step)

  function Blocks(s: State, call: Call): seq<Step>
    requires InStore(s)
  {
    match call
    case GetCall(key, now, active, fails, connects, later) =>
      [Look(key, now, active, fails)]
      + if connects && Lookup(s, key, now, active, fails).1.None? then [Put(key, later)] else []
    case Other(step) => if step.Put? then [] else [step]
  }

  function Serial(s: State, calls: seq<Call>, limit: int): (r: State)
    requires Sound(s)
    ensures Sound(r)
    decreases calls
  {
    if calls == [] then s else Serial(Run(s, Blocks(s, calls[0]), limit), calls[1..], limit)
  }

  lemma CallAccounts(s: State, call: Call, limit: int)
    requires Sound(s) && Accounted(s)
    ensures Accounted(Run(s, Blocks(s, call), limit))
    ensures call.GetCall? ==>
      Run(s, Blocks(s, call), limit) == Get(s, call.key, call.now, call.active, call.fails, call.connects, call.later).0
  {
    hide Accounted;
    var steps := Blocks(s, call);
    if call.GetCall? {
      HitIsLive(s, call.key, call.now, call.active, call.fails);
      var look := steps[0];
      StepKeepsSound(s, look, limit);
      var t := Next(s, look, limit);
      hide Lookup;
      assert NeverOverwrites(t, steps[1..], limit);
      assert !Overwrites(s, look) && NeverOverwrites(s, steps, limit);
      assert Run(s, steps, limit) == Run(t, steps[1..], limit);
      assert steps[1..] != [] ==> Run(t, steps[1..], limit) == Store(t, call.key, call.later) by {
        assert forall u: State | Sound(u) :: Run(u, [], limit) == u;
      }
    }
    assert NeverOverwrites(s, steps, limit) by {
      assert !call.GetCall? && steps != [] ==> steps[1..] == [];
    }
    RunsAccount(s, steps, limit);
  }

  /** With one thread, every client ever stored is at all times still pooled or closed. */
  lemma {:induction false} SerialRunsAccount(s: State, calls: seq<Call>, limit: int)
    requires Sound(s) && Accounted(s)
    ensures Accounted(Serial(s, calls, limit))
    decreases calls
  {
    hide Accounted, Blocks, Run;
    if calls != [] {
      CallAccounts(s, calls[0], limit);
      SerialRunsAccount(Run(s, Blocks(s, calls[0]), limit), calls[1..], limit);
    }
  }

  function Empty(): State { State(map[], map[], []) }

  function DoubleMiss(key: string): seq<Step> {
    var look, put := Look(key, 0, true, {}), Put(key, 1);
    [look, look, put, put]
  }

  /** With two threads that miss the same key together, the first one's client is lost. */
  lemma DoubleMissLeaks(key: string, limit: int)
    ensures !Accounted(Run(Empty(), DoubleMiss(key), limit))
  {
    var s, look, put := Empty(), Look(key, 0, true, {}), Put(key, 1);
    var once := Store(s, key, 1);
    var twice := Store(once, key, 1);
    assert Run(once, [put], limit) == twice;
    assert [put, put][1..] == [put] && [look, put, put][1..] == [put, put];
    assert [look, look, put, put][1..] == [look, put, put];
    assert Run(s, [put, put], limit) == twice;
    assert Run(s, [look, put, put], limit) == twice;
    assert Run(s, [look, look, put, put], limit) == twice;
    assert !twice.clients[0].closed && !Pooled(twice, 0);
  }

  /** Closing marks a client closed and drops its connection, unless dropping it raises; nothing else changes. */
  lemma ClosedIs(c: Client, fails: bool)
    ensures var d := Close(c, fails); d.closed && d.key == c.key && (d.connected <==> c.connected && fails)
  {
  }

  /**
   A `get` that connects gives a client that was not there before, connected and open under this key; the next `get`
   gives the same one again as long as its transport is active, and neither touches any other client or key.
   */
  lemma StoredIsHit(s: State, key: string, now: int, later: int, fails: set<nat>)
    requires Sound(s) && key !in s.pool
    ensures var (t, got) := Get(s, key, now, false, fails, true, now);
      && got == Some(|s.clients|) && t.clients == s.clients + [Client(key, true, false)]
      && (forall k :: k != key ==> (k in t.pool <==> k in s.pool) && (k in s.pool ==> t.pool[k] == s.pool[k]))
      && (forall k :: k in t.access ==> t.access[k] == if k == key then now else s.access[k])
      && Lookup(t, key, later, true, fails) == (t.(access := t.access[key := later]), got)
  {
    hide Evict;
  }

  // -------------------------------------------------------- what a key is made of

  /** Where a machine is: its user, else its username, else root; its host; its port, else 22. */
  ghost predicate IsAt(m: Machine, a: Address) {
    && (m.user != "" ==> a.user == m.user)
    && (m.user == "" && m.username.Some? ==> a.user == m.username.value)
    && (m.user == "" && m.username.None? ==> a.user == "root")
    && a.host == m.host
    && (m.port.Some? ==> a.port == m.port.value)
    && (m.port.None? ==> a.port == "22")
  }

  lemma AddressIs(m: Machine, a: Address)
    ensures AddressOf(m) == a <==> IsAt(m, a)
  {
  }
}
