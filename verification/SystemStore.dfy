/** app/config/systems.py: saving a system with its services and environments, and reading it back. */
module SystemStore {
  import opened PyText
  import Systems

  /** Text and collection fields hold "", `map[]` or `[]` for every value Python takes as false. */
  datatype Service = Service(name: string, displayName: string, repo: string, buildCmd: string, startCmd: string,
                             template: string, pipeline: string, variables: map<string, Json>, servers: seq<Json>)

  datatype ServiceRow = ServiceRow(id: string, fields: Service)

  datatype EnvironmentFields = EnvironmentFields(
    displayName: string, category: string, description: string, basePath: string, deployPath: string,
    servers: seq<Json>, variables: map<string, Json>, serviceOverrides: map<string, Json>,
    groupOverrides: map<string, Json>)

  /** The part of an environment that `Systems` resolves. */
  function ForResolution(e: EnvironmentFields): Systems.Environment {
    Systems.Environment(e.variables, e.serviceOverrides)
  }

  datatype EnvironmentRow = EnvironmentRow(id: string, fields: EnvironmentFields)

  datatype SystemRow = SystemRow(
    id: string, displayName: string, strategy: string, basePath: string, description: string,
    variables: map<string, Json>, servers: seq<Json>, routing: Json)

  /** `None` is an absent key, `Some("")` a given but false value; a service that is no dictionary is `None`. */
  datatype Payload = Payload(
    displayName: string, strategy: Option<string>, basePath: Option<string>, description: string,
    variables: map<string, Json>, servers: seq<Json>, routing: Json,
    services: Option<seq<Option<Service>>>, environments: Option<map<string, Option<EnvironmentFields>>>)

  datatype View = View(displayName: string, strategy: string, basePath: string, description: string,
                       variables: map<string, Json>, servers: seq<Json>, routing: Json,
                       services: map<string, ServiceRow>, environments: map<string, EnvironmentFields>)

  /** Rows are indexed by system and name, which the tables keep unique together. */
  type Rows<R> = map<(string, string), R>

  datatype Store = Store(
    systems: map<string, SystemRow>, services: Rows<ServiceRow>, environments: Rows<EnvironmentRow>)

  function Or(s: string, otherwise: string): string { if s == "" then otherwise else s }

  const WORKFLOW := "WORKFLOW"

  const APP_PATH := "/data/web/app"

  const CUSTOM := "custom"

  const ROUTING_KEY := "message_routing"

  function OrEmpty(v: Json): Json { if v.Null? then Dict(map[]) else v }

  // ------------------------------------------------------------------ diff-sync

  function Was<R>(rows: Rows<R>, k: (string, string)): Option<R> { if k in rows then Some(rows[k]) else None }

  function Placed(system: string, names: set<string>): set<(string, string)> { set n | n in names :: (system, n) }

  /** All rows of one system replaced by the incoming ones, each written over the row it had, if any. */
  function ReplaceAll<P, R>(rows: Rows<R>, system: string, incoming: map<string, P>,
                            write: (string, Option<R>, P) -> R): Rows<R> {
    map k: (string, string) | k in rows.Keys + Placed(system, incoming.Keys) && (k.0 != system || k.1 in incoming) ::
      if k.0 != system then rows[k] else write(k.1, Was(rows, k), incoming[k.1])
  }

  /** Which rows there are while the writing of some is pending, and what they hold. */
  predicate IsPresent<P, R>(stored: Rows<R>, system: string, incoming: map<string, P>, pending: set<string>,
                            k: (string, string)) {
    || (k in stored && (k.0 != system || k.1 in incoming))
    || (k.0 == system && k.1 in incoming.Keys - pending)
  }

  function Synced<P, R>(stored: Rows<R>, system: string, incoming: map<string, P>, write: (string, Option<R>, P) -> R,
                        pending: set<string>, k: (string, string)): R
    requires IsPresent(stored, system, incoming, pending, k)
  {
    if k.0 == system && k.1 !in pending then write(k.1, Was(stored, k), incoming[k.1]) else stored[k]
  }

  /** Deletes the rows that are not coming in, then edits or adds the others one by one. */
  method SyncRows<P, R>(stored: Rows<R>, system: string, incoming: map<string, P>, write: (string, Option<R>, P) -> R)
    returns (rows: Rows<R>)
    ensures rows == ReplaceAll(stored, system, incoming, write)
  {
    rows := stored;
    var stale := set k | k in stored && k.0 == system && k.1 !in incoming;
    var gone: set<(string, string)> := {};
    while stale != {}
      invariant rows == stored - gone && gone !! stale
      invariant gone + stale == set k | k in stored && k.0 == system && k.1 !in incoming
      decreases stale
    {
      var k :| k in stale;
      rows, stale, gone := rows - {k}, stale - {k}, gone + {k};
    }
    var pending := incoming.Keys;
    while pending != {}
      invariant pending <= incoming.Keys
      invariant forall k :: k in rows <==> IsPresent(stored, system, incoming, pending, k)
      invariant forall k :: k in rows ==> rows[k] == Synced(stored, system, incoming, write, pending, k)
      decreases pending
    {
      var name :| name in pending;
      var k := (system, name);
      rows := rows[k := write(name, Was(stored, k), incoming[name])];
      pending := pending - {name};
    }
  }

  /** The payloads that count, by stripped name, a later one replacing an earlier one. */
  function Incoming(items: seq<Option<Service>>): map<string, Service> {
    if items == [] then map[]
    else
      var last := items[|items| - 1];
      var before := Incoming(items[..|items| - 1]);
      if last.None? || Strip(last.value.name) == "" then before else before[Strip(last.value.name) := last.value]
  }

  method CollectServices(items: seq<Option<Service>>) returns (incoming: map<string, Service>)
    ensures incoming == Incoming(items)
  {
    hide Strip;
    incoming := map[];
    for i := 0 to |items|
      invariant incoming == Incoming(items[..i])
    {
      assert items[..i + 1][..i] == items[..i];
      if items[i].Some? && Strip(items[i].value.name) != "" {
        incoming := incoming[Strip(items[i].value.name) := items[i].value];
      }
    }
    assert items[..|items|] == items;
  }

  predicate NamedAt(items: seq<Option<Service>>, i: nat, name: string) {
    i < |items| && items[i].Some? && Strip(items[i].value.name) == name
  }

  /** The last of several services with one name is the one saved. */
  lemma {:induction false} LastDuplicateWins(items: seq<Option<Service>>, i: nat, name: string)
    requires NamedAt(items, i, name) && name != ""
    requires forall j | i < j < |items| :: !NamedAt(items, j, name)
    ensures name in Incoming(items) && Incoming(items)[name] == items[i].value
    decreases items
  {
    hide Strip;
    if i < |items| - 1 {
      var init := items[..|items| - 1];
      assert !NamedAt(items, |items| - 1, name);
      assert forall j | i < j < |init| :: !NamedAt(init, j, name) by {
        assert forall j | i < j < |init| :: NamedAt(init, j, name) ==> NamedAt(items, j, name);
      }
      LastDuplicateWins(init, i, name);
    }
  }

  lemma {:induction false} IncomingIsNamed(items: seq<Option<Service>>, name: string)
    requires name in Incoming(items)
    ensures name != "" && Strip(name) == name
    ensures exists i: nat :: NamedAt(items, i, name) && Incoming(items)[name] == items[i].value
    decreases items
  {
    hide Strip;
    var init, last := items[..|items| - 1], items[|items| - 1];
    if last.Some? && Strip(last.value.name) == name && name != "" {
      StripTwice(last.value.name);
      assert NamedAt(items, |items| - 1, name);
    } else {
      IncomingIsNamed(init, name);
      var i: nat :| NamedAt(init, i, name) && Incoming(init)[name] == init[i].value;
      assert NamedAt(items, i, name);
    }
  }

  // ------------------------------------------------------------------ save, read

  function WriteService(newId: string -> string): (string, Option<ServiceRow>, Service) -> ServiceRow {
    (name: string, row: Option<ServiceRow>, p: Service) =>
      ServiceRow(if row.Some? then row.value.id else newId(name),
                 p.(name := name, displayName := Or(p.displayName, name), variables := p.variables - {ROUTING_KEY}))
  }

  /** A payload that is no dictionary counts as an empty one. */
  function Given(p: Option<EnvironmentFields>): EnvironmentFields {
    if p.Some? then p.value else EnvironmentFields("", "", "", "", "", [], map[], map[], map[])
  }

  function Completed(name: string, e: EnvironmentFields): EnvironmentFields {
    e.(displayName := Or(e.displayName, name), category := Or(e.category, CUSTOM),
       basePath := Or(e.basePath, e.deployPath), deployPath := "")
  }

  type EnvironmentWriter = (string, Option<EnvironmentRow>, Option<EnvironmentFields>) -> EnvironmentRow

  function WriteEnvironment(newId: string -> string): EnvironmentWriter {
    (name: string, row: Option<EnvironmentRow>, p: Option<EnvironmentFields>) =>
      EnvironmentRow(if row.Some? then row.value.id else newId(name), Completed(name, Given(p)))
  }

  function WriteSystem(name: string, row: Option<SystemRow>, p: Payload, routing: Json,
                       newId: string -> string): SystemRow {
    SystemRow(if row.Some? then row.value.id else newId(name), Or(p.displayName, name),
              if p.strategy.Some? then p.strategy.value else WORKFLOW,
              if p.basePath.Some? then p.basePath.value else APP_PATH, p.description, p.variables, p.servers, routing)
  }

  function RowOf(store: Store, name: string): Option<SystemRow> {
    if name in store.systems then Some(store.systems[name]) else None
  }

  /** The store after `save_system`, or `Raised` when it gives up; `newId` supplies the ids of new rows. */
  function Save(store: Store, name: string, p: Payload, routing: Json -> Result<Json>,
                newId: string -> string): Result<Store> {
    var normal := routing(OrEmpty(p.routing));
    if normal.Raised? then Raised
    else
      Ok(Store(
        store.systems[name := WriteSystem(name, RowOf(store, name), p, normal.value, newId)],
        if p.services.None? then store.services
        else ReplaceAll(store.services, name, Incoming(p.services.value), WriteService(newId)),
        if p.environments.None? then store.environments
        else ReplaceAll(store.environments, name, p.environments.value, WriteEnvironment(newId))))
  }

  class Database {
    const routing: Json -> Result<Json>
    const newId: string -> string
    var store: Store

    constructor (routing: Json -> Result<Json>, newId: string -> string, store: Store)
      ensures this.routing == routing && this.newId == newId && this.store == store
    {
      this.routing, this.newId, this.store := routing, newId, store;
    }

    method SaveSystem(name: string, p: Payload) returns (ok: bool)
      modifies this
      ensures var saved := Save(old(store), name, p, routing, newId);
              ok == saved.Ok? && store == if saved.Ok? then saved.value else old(store)
    {
      hide ReplaceAll, Incoming, WriteService, WriteEnvironment, WriteSystem;
      var normal := routing(OrEmpty(p.routing));
      if normal.Raised? {
        return false;
      }
      var row := WriteSystem(name, RowOf(store, name), p, normal.value, newId);
      var after := store.(systems := store.systems[name := row]);
      if p.services.Some? {
        var incoming := CollectServices(p.services.value);
        var rows := SyncRows(after.services, name, incoming, WriteService(newId));
        after := after.(services := rows);
      }
      if p.environments.Some? {
        var rows := SyncRows(after.environments, name, p.environments.value, WriteEnvironment(newId));
        after := after.(environments := rows);
      }
      store := after;
      ok := true;
    }
  }

  function ReadService(name: string, row: ServiceRow): ServiceRow {
    row.(fields := row.fields.(name := name, displayName := Or(row.fields.displayName, name)))
  }

  function ReadEnvironment(name: string, row: EnvironmentRow): EnvironmentFields {
    var fields := row.fields;
    fields.(displayName := Or(fields.displayName, name), category := Or(fields.category, CUSTOM), deployPath := "")
  }

  function ServicesOf(store: Store, system: string): map<string, ServiceRow> {
    map n | n in (set k | k in store.services && k.0 == system :: k.1) :: ReadService(n, store.services[(system, n)])
  }

  function EnvironmentsOf(store: Store, system: string): map<string, EnvironmentFields> {
    map n | n in (set k | k in store.environments && k.0 == system :: k.1) ::
      ReadEnvironment(n, store.environments[(system, n)])
  }

  /** What reading a system shows; its services by name, as the listing order is up to the database. */
  function Read(store: Store, name: string, routing: Json -> Result<Json>): Result<View> {
    if name !in store.systems || routing(OrEmpty(store.systems[name].routing)).Raised? then Raised
    else
      var row := store.systems[name];
      Ok(View(Or(row.displayName, name), Or(row.strategy, WORKFLOW), Or(row.basePath, APP_PATH), row.description,
              row.variables, row.servers, routing(OrEmpty(row.routing)).value, ServicesOf(store, name),
              EnvironmentsOf(store, name)))
  }

  // ------------------------------------------------------------------ properties

  lemma ReplaceAllAt<P, R>(rows: Rows<R>, system: string, incoming: map<string, P>,
                           write: (string, Option<R>, P) -> R, k: (string, string))
    ensures var after := ReplaceAll(rows, system, incoming, write);
            && (k in after <==> if k.0 == system then k.1 in incoming else k in rows)
            && (k in after && k.0 != system ==> after[k] == rows[k])
            && (k in after && k.0 == system ==>
                  after[k] == write(k.1, Was(rows, k), incoming[k.1]))
  {
  }

  /** What is read of a service after a save that supplied it. */
  function SavedService(store: Store, system: string, name: string, p: Service, newId: string -> string): ServiceRow {
    ServiceRow(if (system, name) in store.services then store.services[(system, name)].id else newId(name),
               p.(name := name, displayName := Or(p.displayName, name), variables := p.variables - {ROUTING_KEY}))
  }

  function SavedEnvironment(name: string, p: Option<EnvironmentFields>): EnvironmentFields {
    if p.None? then EnvironmentFields(name, "custom", "", "", "", [], map[], map[], map[])
    else
      var e := p.value;
      EnvironmentFields(if e.displayName == "" then name else e.displayName,
                        if e.category == "" then "custom" else e.category, e.description,
                        if e.basePath == "" then e.deployPath else e.basePath, "", e.servers, e.variables,
                        e.serviceOverrides, e.groupOverrides)
  }

  /** A save that supplies services leaves exactly those, with the ids they had, and no other system's rows change. */
  lemma SavedServicesAreRead(store: Store, name: string, p: Payload, routing: Json -> Result<Json>,
                             newId: string -> string)
    requires p.services.Some?
    requires Save(store, name, p, routing, newId).Ok?
    ensures var after := Save(store, name, p, routing, newId).value;
            && ServicesOf(after, name) ==
               (map n | n in Incoming(p.services.value) ::
                  SavedService(store, name, n, Incoming(p.services.value)[n], newId))
            && (forall k | k in after.services && k.0 != name ::
                  k in store.services && after.services[k] == store.services[k])
            && (forall k | k in store.services && k.0 != name :: k in after.services)
  {
    hide Incoming, ROUTING_KEY, WriteSystem, WriteEnvironment;
    var after := Save(store, name, p, routing, newId).value;
    var incoming := Incoming(p.services.value);
    forall k ensures k in after.services <==> if k.0 == name then k.1 in incoming else k in store.services {
      ReplaceAllAt(store.services, name, incoming, WriteService(newId), k);
    }
    forall k | k in after.services && k.0 != name ensures after.services[k] == store.services[k] {
      ReplaceAllAt(store.services, name, incoming, WriteService(newId), k);
    }
    forall n | n in incoming
      ensures ReadService(n, after.services[(name, n)]) == SavedService(store, name, n, incoming[n], newId)
    {
      ReplaceAllAt(store.services, name, incoming, WriteService(newId), (name, n));
    }
    hide ReplaceAll, ReadService, SavedService, Save;
    assert forall n :: n in incoming <==> n in ServicesOf(after, name) by {
      assert forall n :: n in incoming <==> (name, n) in after.services;
      assert forall k | k in after.services && k.0 == name :: k == (name, k.1);
    }
  }

  lemma WrittenEnvironmentIsRead(name: string, row: Option<EnvironmentRow>, p: Option<EnvironmentFields>,
                                 newId: string -> string)
    ensures ReadEnvironment(name, WriteEnvironment(newId)(name, row, p)) == SavedEnvironment(name, p)
  {
    assert Or("", name) == name && Or("", CUSTOM) == CUSTOM && Or("", "") == "";
    assert WriteEnvironment(newId)(name, row, p).fields == Completed(name, Given(p));
  }

  lemma ReadEnvironmentIsSettled(name: string, row: EnvironmentRow)
    ensures SavedEnvironment(name, Some(ReadEnvironment(name, row))) == ReadEnvironment(name, row)
  {
  }

  lemma SavedEnvironmentsAreRead(store: Store, name: string, p: Payload, routing: Json -> Result<Json>,
                                 newId: string -> string)
    requires p.environments.Some?
    requires Save(store, name, p, routing, newId).Ok?
    ensures var after := Save(store, name, p, routing, newId).value;
            && EnvironmentsOf(after, name) ==
               (map n | n in p.environments.value :: SavedEnvironment(n, p.environments.value[n]))
            && (forall k | k in after.environments && k.0 != name ::
                  k in store.environments && after.environments[k] == store.environments[k])
            && (forall k | k in store.environments && k.0 != name :: k in after.environments)
  {
    hide Incoming, WriteSystem, WriteService, WriteEnvironment, ReplaceAll, ReadEnvironment, SavedEnvironment;
    var after := Save(store, name, p, routing, newId).value;
    var incoming := p.environments.value;
    forall k ensures k in after.environments <==> if k.0 == name then k.1 in incoming else k in store.environments {
      ReplaceAllAt(store.environments, name, incoming, WriteEnvironment(newId), k);
    }
    forall k | k in after.environments && k.0 != name ensures after.environments[k] == store.environments[k] {
      ReplaceAllAt(store.environments, name, incoming, WriteEnvironment(newId), k);
    }
    forall n | n in incoming
      ensures ReadEnvironment(n, after.environments[(name, n)]) == SavedEnvironment(n, incoming[n])
    {
      ReplaceAllAt(store.environments, name, incoming, WriteEnvironment(newId), (name, n));
      WrittenEnvironmentIsRead(n, Was(store.environments, (name, n)), incoming[n], newId);
    }
    hide Save;
    assert forall n :: n in incoming <==> n in EnvironmentsOf(after, name) by {
      assert forall n :: n in incoming <==> (name, n) in after.environments;
      assert forall k | k in after.environments && k.0 == name :: k == (name, k.1);
    }
  }

  /**
   Resolution sees the variables and service overrides that were saved, or none for a payload that is no dictionary.
   */
  lemma SavedEnvironmentIsResolved(store: Store, name: string, p: Payload, routing: Json -> Result<Json>,
                                   newId: string -> string, environment: string)
    requires p.environments.Some? && environment in p.environments.value
    requires Save(store, name, p, routing, newId).Ok?
    ensures var read := EnvironmentsOf(Save(store, name, p, routing, newId).value, name);
            var given := p.environments.value[environment];
            && environment in read
            && ForResolution(read[environment]) ==
              if given.None? then Systems.Environment(map[], map[])
              else Systems.Environment(given.value.variables, given.value.serviceOverrides)
  {
    hide Save, EnvironmentsOf;
    SavedEnvironmentsAreRead(store, name, p, routing, newId);
  }

  /** The normalisation of message routing gives an object and has nothing left to do on its own results. */
  ghost predicate Normalises(routing: Json -> Result<Json>) {
    forall v :: routing(v).Ok? ==> routing(v).value.Dict? && routing(routing(v).value) == routing(v)
  }

  /** The payload a client gets by editing nothing in what it read; `order` is the order the services are listed in. */
  function Unedited(v: View, order: seq<string>): Payload
    requires forall n :: n in order ==> n in v.services
  {
    Payload(v.displayName, Some(v.strategy), Some(v.basePath), v.description, v.variables, v.servers, v.routing,
            Some(seq(|order|, i requires 0 <= i < |order| => Some(v.services[order[i]].fields))),
            Some(map e | e in v.environments :: Some(v.environments[e])))
  }

  predicate Plain(name: string, row: ServiceRow) {
    name != "" && Strip(name) == name && ROUTING_KEY !in row.fields.variables
  }

  predicate AllPlain(services: map<string, ServiceRow>) { forall n :: n in services ==> Plain(n, services[n]) }

  ghost predicate Lists(order: seq<string>, services: map<string, ServiceRow>) {
    forall n :: n in order <==> n in services
  }

  predicate IsReadFrom(store: Store, system: string, name: string, row: ServiceRow) {
    && row.fields.name == name && Or(row.fields.displayName, name) == row.fields.displayName
    && (system, name) in store.services && row.id == store.services[(system, name)].id
  }

  lemma ReadNames(store: Store, system: string)
    ensures forall n :: n in ServicesOf(store, system) <==> (system, n) in store.services
    ensures forall n :: n in ServicesOf(store, system) ==> IsReadFrom(store, system, n, ServicesOf(store, system)[n])
  {
    assert forall k | k in store.services && k.0 == system :: k == (system, k.1);
    assert forall n | (system, n) in store.services :: (system, n).1 == n;
  }

  lemma {:induction false} NamedIsIncoming(items: seq<Option<Service>>, i: nat, name: string)
    requires NamedAt(items, i, name) && name != ""
    ensures name in Incoming(items)
    decreases items
  {
    hide Strip;
    if i < |items| - 1 {
      assert NamedAt(items[..|items| - 1], i, name);
      NamedIsIncoming(items[..|items| - 1], i, name);
    }
  }

  /** What is saved from an unedited read: the plain names keep their payload, the others get lost. */
  lemma UneditedIncoming(v: View, order: seq<string>, name: string)
    requires Lists(order, v.services)
    requires forall n :: n in v.services ==> v.services[n].fields.name == n
    ensures var incoming := Incoming(Unedited(v, order).services.value);
            && (AllPlain(v.services) ==> (name in incoming <==> name in v.services))
            && (AllPlain(v.services) && name in incoming ==> incoming[name] == v.services[name].fields)
            && (name in incoming ==> name != "" && Strip(name) == name)
  {
    hide Strip;
    var items := Unedited(v, order).services.value;
    if name in Incoming(items) {
      IncomingIsNamed(items, name);
      var i: nat :| NamedAt(items, i, name) && Incoming(items)[name] == items[i].value;
      assert order[i] in v.services;
      assert AllPlain(v.services) ==> Plain(order[i], v.services[order[i]]);
    }
    if AllPlain(v.services) && name in v.services && name !in Incoming(items) {
      var i :| 0 <= i < |order| && order[i] == name;
      assert Plain(name, v.services[name]);
      assert NamedAt(items, i, name);
      NamedIsIncoming(items, i, name);
    }
  }

  lemma EnvironmentsRoundTrip(store: Store, name: string, p: Payload, routing: Json -> Result<Json>,
                              newId: string -> string)
    requires p.environments == Some(map e | e in EnvironmentsOf(store, name) :: Some(EnvironmentsOf(store, name)[e]))
    requires Save(store, name, p, routing, newId).Ok?
    ensures EnvironmentsOf(Save(store, name, p, routing, newId).value, name) == EnvironmentsOf(store, name)
  {
    hide SavedEnvironment, ReadEnvironment, Save;
    var was := EnvironmentsOf(store, name);
    forall n | n in was ensures SavedEnvironment(n, Some(was[n])) == was[n] {
      var row := store.environments[(name, n)];
      assert was[n] == ReadEnvironment(n, row);
      ReadEnvironmentIsSettled(n, row);
    }
    hide EnvironmentsOf;
    SavedEnvironmentsAreRead(store, name, p, routing, newId);
    assert forall n :: n in was <==> n in p.environments.value;
  }

  lemma PlainIsKept(store: Store, system: string, name: string, row: ServiceRow, newId: string -> string)
    requires Plain(name, row) && IsReadFrom(store, system, name, row)
    ensures SavedService(store, system, name, row.fields, newId) == row
  {
    hide ROUTING_KEY;
    assert row.fields.variables - {ROUTING_KEY} == row.fields.variables;
  }

  lemma SavedIsPlain(store: Store, system: string, name: string, p: Service, newId: string -> string)
    requires name != "" && Strip(name) == name
    ensures Plain(name, SavedService(store, system, name, p, newId))
  {
    hide ROUTING_KEY, Strip;
  }

  lemma ServicesRoundTripIff(store: Store, name: string, v: View, order: seq<string>, routing: Json -> Result<Json>,
                             newId: string -> string)
    requires v.services == ServicesOf(store, name) && Lists(order, v.services)
    requires Save(store, name, Unedited(v, order), routing, newId).Ok?
    ensures var saved := Save(store, name, Unedited(v, order), routing, newId).value;
            ServicesOf(saved, name) == v.services <==> AllPlain(v.services)
  {
    hide Strip, Save, ServicesOf, Incoming, ROUTING_KEY, Plain, Or;
    var p := Unedited(v, order);
    var incoming := Incoming(p.services.value);
    var after := ServicesOf(Save(store, name, p, routing, newId).value, name);
    ReadNames(store, name);
    SavedServicesAreRead(store, name, p, routing, newId);
    forall n ensures (n in incoming ==> n != "" && Strip(n) == n)
                     && (AllPlain(v.services) ==> (n in incoming <==> n in v.services))
                     && (AllPlain(v.services) && n in incoming ==> incoming[n] == v.services[n].fields)
    {
      UneditedIncoming(v, order, n);
    }
    if AllPlain(v.services) {
      forall n | n in v.services ensures SavedService(store, name, n, incoming[n], newId) == v.services[n] {
        assert Plain(n, v.services[n]);
        PlainIsKept(store, name, n, v.services[n], newId);
      }
    }
    if after == v.services {
      forall n | n in v.services ensures Plain(n, v.services[n]) {
        assert n in incoming && v.services[n] == SavedService(store, name, n, incoming[n], newId);
        SavedIsPlain(store, name, n, incoming[n], newId);
      }
    }
  }

  /**
   Saving back what was read leaves the read view unchanged exactly when every service has a stripped, nonempty name
   and no routing among its template variables.
   */
  lemma SavingBackIsNeutralIff(store: Store, name: string, order: seq<string>, routing: Json -> Result<Json>,
                               newId: string -> string)
    requires Normalises(routing) && Read(store, name, routing).Ok?
    requires Lists(order, Read(store, name, routing).value.services)
    ensures var v := Read(store, name, routing).value;
            var saved := Save(store, name, Unedited(v, order), routing, newId);
            saved.Ok? && (Read(saved.value, name, routing) == Ok(v) <==> AllPlain(v.services))
  {
    hide Strip, ServicesOf, EnvironmentsOf, Incoming, ROUTING_KEY, AllPlain, ReplaceAll, WriteService, WriteEnvironment;
    var v := Read(store, name, routing).value;
    var row := store.systems[name];
    assert routing(OrEmpty(row.routing)).Ok?;
    assert routing(v.routing) == Ok(v.routing) && v.routing.Dict?;
    var p := Unedited(v, order);
    assert Save(store, name, p, routing, newId).Ok?;
    EnvironmentsRoundTrip(store, name, p, routing, newId);
    ServicesRoundTripIff(store, name, v, order, routing, newId);
    var after := Save(store, name, p, routing, newId).value;
    assert Read(after, name, routing) == Ok(v.(services := ServicesOf(after, name)));
  }

  /** A save that supplies services leaves only such services, so that any state it reaches can be saved back. */
  lemma SavedStatesArePlain(store: Store, name: string, p: Payload, routing: Json -> Result<Json>,
                            newId: string -> string)
    requires Normalises(routing) && p.services.Some? && Save(store, name, p, routing, newId).Ok?
    ensures var after := Save(store, name, p, routing, newId).value;
            Read(after, name, routing).Ok? && AllPlain(ServicesOf(after, name))
  {
    hide Strip, ServicesOf, EnvironmentsOf, Incoming, ROUTING_KEY, Plain, ReplaceAll, WriteService, WriteEnvironment;
    var after := Save(store, name, p, routing, newId).value;
    SavedServicesAreRead(store, name, p, routing, newId);
    assert routing(OrEmpty(p.routing)).Ok?;
    forall n | n in ServicesOf(after, name) ensures Plain(n, ServicesOf(after, name)[n]) {
      IncomingIsNamed(p.services.value, n);
      SavedIsPlain(store, name, n, Incoming(p.services.value)[n], newId);
    }
  }

  function RoutedService(): ServiceRow {
    ServiceRow("1", Service("a", "", "", "", "", "", "", map[ROUTING_KEY := Str("x")], []))
  }

  function RoutedStore(): Store {
    Store(map["s" := SystemRow("0", "", "", "", "", map[], [], Null)], map[("s", "a") := RoutedService()], map[])
  }

  /** A service with a routing of its own loses it when what was read is saved back. */
  lemma RoutingIsLost(newId: string -> string)
    ensures var routing := (v: Json) => Ok(Dict(map[]));
            var v := Read(RoutedStore(), "s", routing);
            && v.Ok? && "a" in v.value.services
            && var saved := Save(RoutedStore(), "s", Unedited(v.value, ["a"]), routing, newId);
               saved.Ok? && Read(saved.value, "s", routing) != v
  {
    var routing := (v: Json) => Ok(Dict(map[]));
    var store := RoutedStore();
    var v := Read(store, "s", routing).value;
    assert forall n :: n in v.services <==> n == "a" by {
      assert forall k | k in store.services :: k == ("s", "a");
      assert ("s", "a") in store.services;
    }
    assert ROUTING_KEY in v.services["a"].fields.variables;
    assert !Plain("a", v.services["a"]);
    hide Read, Save, Plain, RoutedStore;
    SavingBackIsNeutralIff(store, "s", ["a"], routing, newId);
  }

  /** The fields of a service as saved and read: names filled in, everything else as given but for its routing. */
  lemma SavedServiceIs(store: Store, name: string, p: Payload, routing: Json -> Result<Json>, newId: string -> string,
                       n: string)
    requires p.services.Some? && n in Incoming(p.services.value)
    requires Save(store, name, p, routing, newId).Ok?
    ensures var read := ServicesOf(Save(store, name, p, routing, newId).value, name);
            var given := Incoming(p.services.value)[n];
            && n in read
            && read[n].fields ==
              Service(n, if given.displayName == "" then n else given.displayName, given.repo, given.buildCmd,
                      given.startCmd, given.template, given.pipeline, given.variables - {"message_routing"},
                      given.servers)
            && read[n].id == if (name, n) in store.services then store.services[(name, n)].id else newId(n)
  {
    SavedServicesAreRead(store, name, p, routing, newId);
    hide Save, ServicesOf, Incoming;
  }

  /** Environments keep the ids of their rows, and new ones get new ids. */
  lemma EnvironmentIdsAreKept(store: Store, name: string, p: Payload, routing: Json -> Result<Json>,
                              newId: string -> string, n: string)
    requires p.environments.Some? && n in p.environments.value
    requires Save(store, name, p, routing, newId).Ok?
    ensures var after, k := Save(store, name, p, routing, newId).value.environments, (name, n);
            k in after && after[k].id == if k in store.environments then store.environments[k].id else newId(n)
  {
    hide Incoming, WriteSystem, WriteService, ReplaceAll;
    ReplaceAllAt(store.environments, name, p.environments.value, WriteEnvironment(newId), (name, n));
  }

  /**
   A save gets through exactly when the routing, or `{}` for none, can be normalised. The system's own row then keeps
   its id and reads as given, defaults filled in; other systems, and the tables the payload is silent about, stay.
   */
  lemma SavedSystemIsRead(store: Store, name: string, p: Payload, routing: Json -> Result<Json>,
                          newId: string -> string)
    requires Normalises(routing)
    ensures var normal := routing(if p.routing == Null then Dict(map[]) else p.routing);
      var saved := Save(store, name, p, routing, newId);
      && (saved.Ok? <==> normal.Ok?)
      && (saved.Ok? ==>
        var after := saved.value;
        && after.systems.Keys == store.systems.Keys + {name}
        && (forall other :: other in store.systems && other != name ==> after.systems[other] == store.systems[other])
        && after.systems[name].id == (if name in store.systems then store.systems[name].id else newId(name))
        && (p.services.None? ==> after.services == store.services)
        && (p.environments.None? ==> after.environments == store.environments)
        && Read(after, name, routing) ==
          Ok(View(if p.displayName == "" then name else p.displayName,
                  if p.strategy.None? || p.strategy.value == "" then "WORKFLOW" else p.strategy.value,
                  if p.basePath.None? || p.basePath.value == "" then "/data/web/app" else p.basePath.value,
                  p.description, p.variables, p.servers, normal.value, ServicesOf(after, name),
                  EnvironmentsOf(after, name))))
  {
    hide ReplaceAll, Incoming, WriteService, WriteEnvironment, ServicesOf, EnvironmentsOf;
  }
}
