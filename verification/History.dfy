/** app/deploy/history.py: deleting one deployment or a batch of them together with everything they own. */
module History {
  import opened PyText

  /** A row that may name a deployment and a task; `data` stands for the other columns. */
  datatype Row = Row(deployment: Option<string>, task: Option<string>, data: string)

  type Table = map<string, Row>

  datatype Tables = Tables(deployments: map<string, Option<string>>, tasks: Table, logs: Table,
                           steps: Table, serverTasks: Table, distributions: Table)

  datatype Counts = Counts(distributions: nat, steps: nat, serverTasks: nat, logs: nat, tasks: nat, deployments: nat)

  function Plus(a: Counts, b: Counts): Counts {
    Counts(a.distributions + b.distributions, a.steps + b.steps, a.serverTasks + b.serverTasks,
           a.logs + b.logs, a.tasks + b.tasks, a.deployments + b.deployments)
  }

  datatype Outcome = BadRequest | NotFound(missing: seq<string>) | Unconfirmed | StillActive | Deleted(counts: Counts)

  // ---------------------------------------------------------------- clean ids

  function CleanFrom(raw: seq<string>, seen: set<string>): (ids: seq<string>)
    ensures forall id :: id in ids ==> id !in seen && id != "" && Strip(id) == id
    ensures forall i, j | 0 <= i < j < |ids| :: ids[i] != ids[j]
    decreases raw
  {
    hide Strip;
    if raw == [] then []
    else
      var id := Strip(raw[0]);
      if id == "" || id in seen then CleanFrom(raw[1..], seen)
      else StripTwice(raw[0]); [id] + CleanFrom(raw[1..], seen + {id})
  }

  function Clean(raw: seq<string>): seq<string> { CleanFrom(raw, {}) }

  lemma CleanStep(raw: seq<string>, i: nat, seen: set<string>)
    requires i < |raw|
    ensures var id := Strip(raw[i]);
            CleanFrom(raw[i..], seen) == if id == "" || id in seen then CleanFrom(raw[i + 1..], seen)
                                         else [id] + CleanFrom(raw[i + 1..], seen + {id})
  {
    hide Strip;
    assert raw[i..][1..] == raw[i + 1..];
  }

  lemma CleanNothing(seen: set<string>)
    ensures CleanFrom([], seen) == []
  {
  }

  method CleanDeploymentIds(raw: seq<string>) returns (cleaned: seq<string>)
    ensures cleaned == Clean(raw)
  {
    hide Strip, CleanFrom;
    assert raw[0..] == raw;
    cleaned := [];
    var seen: set<string> := {};
    for i := 0 to |raw|
      invariant Clean(raw) == cleaned + CleanFrom(raw[i..], seen)
    {
      var id := Strip(raw[i]);
      CleanStep(raw, i, seen);
      if id != "" && id !in seen {
        cleaned := cleaned + [id];
        seen := seen + {id};
      }
    }
    assert raw[|raw|..] == [];
    CleanNothing(seen);
  }

  predicate IsClean(ids: seq<string>) {
    && (forall id :: id in ids ==> id != "" && Strip(id) == id)
    && (forall i, j | 0 <= i < j < |ids| :: ids[i] != ids[j])
  }

  predicate Mentions(raw: seq<string>, id: string) { exists i :: 0 <= i < |raw| && Strip(raw[i]) == id }

  lemma MentionsCons(raw: seq<string>, id: string)
    requires raw != []
    ensures Mentions(raw, id) <==> Strip(raw[0]) == id || Mentions(raw[1..], id)
  {
    hide Strip;
    assert raw == [raw[0]] + raw[1..];
    assert forall i :: 0 < i < |raw| ==> raw[i] == raw[1..][i - 1];
    assert forall i :: 0 <= i < |raw[1..]| ==> raw[1..][i] == raw[i + 1];
  }

  /** Cleaning keeps exactly the stripped, nonempty ids. */
  lemma {:induction false} CleanKeepsIds(raw: seq<string>, seen: set<string>)
    ensures forall id :: id in CleanFrom(raw, seen) <==> id != "" && id !in seen && Mentions(raw, id)
    decreases raw
  {
    hide Strip;
    if raw != [] {
      hide Mentions;
      var first := Strip(raw[0]);
      CleanKeepsIds(raw[1..], seen);
      CleanKeepsIds(raw[1..], seen + {first});
      forall id ensures Mentions(raw, id) <==> first == id || Mentions(raw[1..], id) {
        MentionsCons(raw, id);
      }
    }
  }

  /** Cleaning clean ids changes nothing, so the confirmation of a request is that of its cleaned ids. */
  lemma {:induction false} CleanOfClean(ids: seq<string>, seen: set<string>)
    requires IsClean(ids) && forall id :: id in ids ==> id !in seen
    ensures CleanFrom(ids, seen) == ids
    decreases ids
  {
    hide Strip;
    if ids != [] {
      assert ids[0] in ids;
      assert forall id :: id in ids[1..] ==> id in ids && id != ids[0];
      CleanOfClean(ids[1..], seen + {ids[0]});
    }
  }

  // -------------------------------------------------------------- deleting rows

  predicate Names(r: Row, ids: set<string>) { r.deployment.Some? && r.deployment.value in ids }

  function Naming(t: Table, ids: set<string>): set<string> { set k | k in t && Names(t[k], ids) }

  /** The ids of the tasks that go; a falsy id is skipped. */
  function TaskIds(t: Tables, ids: set<string>): set<string> { Naming(t.tasks, ids) - {""} }

  predicate LogGoes(r: Row, ids: set<string>, tasks: set<string>) {
    Names(r, ids) || (r.task.Some? && r.task.value in tasks)
  }

  function LogsNaming(logs: Table, ids: set<string>, tasks: set<string>): set<string> {
    set k | k in logs && LogGoes(logs[k], ids, tasks)
  }

  function Remove(t: Tables, ids: set<string>): Tables {
    Tables(t.deployments - ids, t.tasks - Naming(t.tasks, ids), t.logs - LogsNaming(t.logs, ids, TaskIds(t, ids)),
           t.steps - Naming(t.steps, ids), t.serverTasks - Naming(t.serverTasks, ids),
           t.distributions - Naming(t.distributions, ids))
  }

  function Counted(t: Tables, ids: set<string>): Counts {
    Counts(|Naming(t.distributions, ids)|, |Naming(t.steps, ids)|, |Naming(t.serverTasks, ids)|,
           |LogsNaming(t.logs, ids, TaskIds(t, ids))|, |Naming(t.tasks, ids)|, |t.deployments.Keys * ids|)
  }

  function IdSet(ids: seq<string>): set<string> { set i | 0 <= i < |ids| :: ids[i] }

  lemma NamingSplits(t: Table, a: set<string>, b: set<string>)
    ensures var t' := t - Naming(t, a);
            Naming(t, a + b) == Naming(t, a) + Naming(t', b) && Naming(t, a) !! Naming(t', b)
            && |Naming(t, a)| + |Naming(t', b)| == |Naming(t, a + b)| && t' - Naming(t', b) == t - Naming(t, a + b)
  {
  }

  lemma NamesUnion(r: Row, a: set<string>, b: set<string>)
    ensures Names(r, a + b) <==> Names(r, a) || Names(r, b)
  {
  }

  lemma LogGoesUnion(log: Row, a: set<string>, b: set<string>, p: set<string>, q: set<string>)
    ensures LogGoes(log, a + b, p + q) <==> LogGoes(log, a, p) || LogGoes(log, b, q)
  {
    NamesUnion(log, a, b);
    hide Names;
  }

  lemma SetsSplit(logs: Table, gone: set<string>, next: set<string>, both: set<string>)
    requires gone <= logs.Keys && next <= logs.Keys && both <= logs.Keys
    requires forall k :: k in logs ==> (k in both <==> k in gone || k in next) && !(k in gone && k in next)
    ensures gone + next == both && |gone| + |next| == |both| && logs - gone - next == logs - both
  {
    assert gone + next == both && gone !! next;
  }

  lemma LogTableSplits(logs: Table, a: set<string>, b: set<string>, p: set<string>, q: set<string>)
    ensures var gone := LogsNaming(logs, a, p);
            var next, both := LogsNaming(logs - gone, b, q), LogsNaming(logs, a + b, p + q);
            gone + next == both && |gone| + |next| == |both| && logs - gone - next == logs - both
  {
    hide LogGoes;
    var gone, both := LogsNaming(logs, a, p), LogsNaming(logs, a + b, p + q);
    var next := LogsNaming(logs - gone, b, q);
    forall k | k in logs
      ensures (k in both <==> k in gone || k in next) && !(k in gone && k in next)
    {
      LogGoesUnion(logs[k], a, b, p, q);
    }
    hide LogsNaming;
    SetsSplit(logs, gone, next, both);
  }

  lemma LogsSplit(t: Tables, a: set<string>, b: set<string>)
    ensures var t' := Remove(t, a);
            var gone, next, both := LogsNaming(t.logs, a, TaskIds(t, a)), LogsNaming(t'.logs, b, TaskIds(t', b)),
                                    LogsNaming(t.logs, a + b, TaskIds(t, a + b));
            |gone| + |next| == |both| && t'.logs - next == t.logs - both
  {
    hide Naming, LogsNaming;
    NamingSplits(t.tasks, a, b);
    var t' := Remove(t, a);
    assert TaskIds(t, a + b) == TaskIds(t, a) + TaskIds(t', b);
    LogTableSplits(t.logs, a, b, TaskIds(t, a), TaskIds(t', b));
  }

  lemma DeploymentsSplit(t: Tables, a: set<string>, b: set<string>)
    ensures t.deployments - a - b == t.deployments - (a + b)
    ensures |t.deployments.Keys * a| + |(t.deployments - a).Keys * b| == |t.deployments.Keys * (a + b)|
  {
    var first, second := t.deployments.Keys * a, (t.deployments - a).Keys * b;
    assert t.deployments.Keys * (a + b) == first + second && first !! second;
  }

  lemma RowsUnion(t: Tables, a: set<string>, b: set<string>)
    ensures Remove(Remove(t, a), b) == Remove(t, a + b)
  {
    hide Naming, LogsNaming, TaskIds;
    var one, two, both := Remove(t, a), Remove(Remove(t, a), b), Remove(t, a + b);
    LogsSplit(t, a, b);
    assert two.logs == both.logs;
    NamingSplits(t.tasks, a, b);
    assert two.tasks == both.tasks;
    NamingSplits(t.steps, a, b);
    assert two.steps == both.steps;
    NamingSplits(t.serverTasks, a, b);
    assert two.serverTasks == both.serverTasks;
    NamingSplits(t.distributions, a, b);
    assert two.distributions == both.distributions;
    assert two.deployments == both.deployments by {
      DeploymentsSplit(t, a, b);
    }
  }

  lemma CountsUnion(t: Tables, a: set<string>, b: set<string>)
    ensures Plus(Counted(t, a), Counted(Remove(t, a), b)) == Counted(t, a + b)
  {
    hide Naming, LogsNaming, TaskIds;
    LogsSplit(t, a, b);
    NamingSplits(t.tasks, a, b);
    NamingSplits(t.steps, a, b);
    NamingSplits(t.serverTasks, a, b);
    NamingSplits(t.distributions, a, b);
    DeploymentsSplit(t, a, b);
  }

  /** Deleting two sets of deployments one after the other deletes their union, and the counts add up. */
  lemma RemoveUnion(t: Tables, a: set<string>, b: set<string>)
    ensures Remove(Remove(t, a), b) == Remove(t, a + b)
    ensures Plus(Counted(t, a), Counted(Remove(t, a), b)) == Counted(t, a + b)
  {
    hide Naming, LogsNaming, TaskIds;
    RowsUnion(t, a, b);
    CountsUnion(t, a, b);
  }

  lemma NamingNothing(t: Table)
    ensures Naming(t, {}) == {} && t - {} == t
  {
  }

  lemma LogsNothing(t: Table)
    ensures LogsNaming(t, {}, {}) == {} && t - {} == t
  {
  }

  lemma RemoveNothing(t: Tables)
    ensures Remove(t, {}) == t && Counted(t, {}) == Counts(0, 0, 0, 0, 0, 0)
  {
    LogsNothing(t.logs);
    assert TaskIds(t, {}) == {} by {
      NamingNothing(t.tasks);
    }
    hide Naming, LogsNaming, TaskIds;
    NamingNothing(t.tasks);
    NamingNothing(t.steps);
    NamingNothing(t.serverTasks);
    NamingNothing(t.distributions);
    assert t.deployments.Keys * {} == {} && t.deployments - {} == t.deployments;
  }

  predicate Outlives(t: Table, t': Table, ids: set<string>, k: string) {
    && (k in t' <==> k in t && !(t[k].deployment.Some? && t[k].deployment.value in ids))
    && (k in t' ==> t'[k] == t[k])
  }

  /** A row outlives its deployment's deletion unchanged exactly when it names no deleted deployment. */
  lemma RowsOutliveIff(t: Tables, ids: set<string>, k: string)
    ensures var t' := Remove(t, ids);
            && (k in t'.deployments <==> k in t.deployments && k !in ids)
            && (k in t'.deployments ==> t'.deployments[k] == t.deployments[k])
            && Outlives(t.tasks, t'.tasks, ids, k) && Outlives(t.steps, t'.steps, ids, k)
            && Outlives(t.serverTasks, t'.serverTasks, ids, k) && Outlives(t.distributions, t'.distributions, ids, k)
  {
  }

  predicate NamesLostTask(log: Row, t: Tables, t': Tables) {
    log.task.Some? && log.task.value != "" && log.task.value in t.tasks && log.task.value !in t'.tasks
  }

  /**
   A log goes exactly when it names a deleted deployment or a task, other than one with an empty id, that was
   deleted with one.
   */
  lemma LogsOutliveIff(t: Tables, ids: set<string>, k: string)
    ensures var t', log := Remove(t, ids), if k in t.logs then t.logs[k] else Row(None, None, "");
            var named := log.deployment.Some? && log.deployment.value in ids;
            && (k in t'.logs <==> k in t.logs && !named && !NamesLostTask(log, t, t'))
            && (k in t'.logs ==> t'.logs[k] == log)
  {
  }

  predicate LostItsTask(log: Row, t: Tables, t': Tables) {
    log.task.Some? && log.task.value in t.tasks && log.task.value !in t'.tasks
  }

  /** Some log names a task of `t` that `t'` no longer has. */
  predicate HasOrphan(t: Tables, t': Tables) {
    exists k :: k in t'.logs && LostItsTask(t'.logs[k], t, t')
  }

  predicate EmptyTaskIsNamed(t: Tables, ids: set<string>) {
    "" in Naming(t.tasks, ids) && exists k :: k in t.logs && t.logs[k].task == Some("") && !Names(t.logs[k], ids)
  }

  /** A log is orphaned exactly when a deleted task has the empty id and a log of another deployment names it. */
  lemma OrphanIff(t: Tables, ids: set<string>)
    ensures HasOrphan(t, Remove(t, ids)) <==> EmptyTaskIsNamed(t, ids)
  {
    var t' := Remove(t, ids);
    if HasOrphan(t, t') {
      var k :| k in t'.logs && LostItsTask(t'.logs[k], t, t');
      assert k in t.logs && t.logs[k] == t'.logs[k];
    }
    if EmptyTaskIsNamed(t, ids) {
      var k :| k in t.logs && t.logs[k].task == Some("") && !Names(t.logs[k], ids);
      assert k in t'.logs;
    }
  }

  // ------------------------------------------------------------------ requests

  function Decimal(n: nat): (s: string)
    ensures s != "" && forall i :: 0 <= i < |s| ==> '0' <= s[i] <= '9'
  {
    (if n < 10 then "" else Decimal(n / 10)) + ["0123456789"[n % 10]]
  }

  const ONE_PREFIX := "DELETE DEPLOYMENT "

  const MANY_PREFIX := "DELETE DEPLOYMENTS "

  function ConfirmText(id: string): string { ONE_PREFIX + Strip(id) }

  function BatchConfirmText(ids: seq<string>): string { MANY_PREFIX + Decimal(|Clean(ids)|) }

  const PENDING := "pending"

  const RUNNING := "running"

  const QUEUED := "queued"

  /** Whether the status, lower-cased by `lower`, keeps a deployment from deletion. */
  predicate Blocked(status: Option<string>, lower: string -> string) {
    var s := lower(Strip(if status.Some? then status.value else ""));
    s == PENDING || s == RUNNING || s == QUEUED
  }

  function DeleteOne(t: Tables, raw: string, confirm: string, force: bool, lower: string -> string): (Tables, Outcome) {
    var id := Strip(raw);
    if id == "" then (t, BadRequest)
    else if id !in t.deployments then (t, NotFound([id]))
    else if Strip(confirm) != ConfirmText(id) then (t, Unconfirmed)
    else if Blocked(t.deployments[id], lower) && !force then (t, StillActive)
    else (Remove(t, {id}), Deleted(Counted(t, {id})))
  }

  function MissingOf(t: Tables, ids: seq<string>): (missing: seq<string>)
    ensures missing == [] <==> forall id :: id in ids ==> id in t.deployments
    decreases ids
  {
    if ids == [] then []
    else
      assert forall id :: id in ids <==> id == ids[0] || id in ids[1..];
      (if ids[0] in t.deployments then [] else [ids[0]]) + MissingOf(t, ids[1..])
  }

  lemma MissingFirst(t: Tables, ids: seq<string>)
    requires ids != []
    ensures MissingOf(t, ids) == (if ids[0] in t.deployments then [] else [ids[0]]) + MissingOf(t, ids[1..])
  {
  }

  lemma MissingStep(t: Tables, ids: seq<string>, i: nat)
    requires i < |ids|
    ensures MissingOf(t, ids[i..]) == (if ids[i] in t.deployments then [] else [ids[i]]) + MissingOf(t, ids[i + 1..])
  {
    hide MissingOf;
    assert ids[i..][1..] == ids[i + 1..];
    MissingFirst(t, ids[i..]);
  }

  predicate AnyBlocked(t: Tables, ids: seq<string>, lower: string -> string) {
    exists id :: id in ids && id in t.deployments && Blocked(t.deployments[id], lower)
  }

  function DeleteMany(t: Tables, raw: seq<string>, confirm: string, force: bool,
                      lower: string -> string): (Tables, Outcome) {
    var ids := Clean(raw);
    if ids == [] || |ids| > 200 then (t, BadRequest)
    else if MissingOf(t, ids) != [] then (t, NotFound(MissingOf(t, ids)))
    else if Strip(confirm) != BatchConfirmText(ids) then (t, Unconfirmed)
    else if AnyBlocked(t, ids, lower) && !force then (t, StillActive)
    else (Remove(t, IdSet(ids)), Deleted(Counted(t, IdSet(ids))))
  }

  class Database {
    const lower: string -> string
    var tables: Tables

    constructor (lower: string -> string, tables: Tables)
      ensures this.lower == lower && this.tables == tables
    {
      this.lower, this.tables := lower, tables;
    }

    method DeleteDeploymentRows(raw: seq<string>) returns (deleted: Counts)
      modifies this
      ensures tables == Remove(old(tables), IdSet(Clean(raw))) && deleted == Counted(old(tables), IdSet(Clean(raw)))
    {
      hide Clean, Naming, LogsNaming;
      var list := CleanDeploymentIds(raw);
      deleted := Counts(0, 0, 0, 0, 0, 0);
      if list == [] {
        assert IdSet(list) == {};
        RemoveNothing(tables);
        return;
      }
      var ids := IdSet(list);
      var tasks := TaskIds(tables, ids);
      var rows := Naming(tables.distributions, ids);
      tables, deleted := tables.(distributions := tables.distributions - rows), deleted.(distributions := |rows|);
      rows := Naming(tables.steps, ids);
      tables, deleted := tables.(steps := tables.steps - rows), deleted.(steps := |rows|);
      rows := Naming(tables.serverTasks, ids);
      tables, deleted := tables.(serverTasks := tables.serverTasks - rows), deleted.(serverTasks := |rows|);
      rows := LogsNaming(tables.logs, ids, tasks);
      tables, deleted := tables.(logs := tables.logs - rows), deleted.(logs := |rows|);
      rows := Naming(tables.tasks, ids);
      tables, deleted := tables.(tasks := tables.tasks - rows), deleted.(tasks := |rows|);
      rows := tables.deployments.Keys * ids;
      tables, deleted := tables.(deployments := tables.deployments - ids), deleted.(deployments := |rows|);
    }

    method DeleteDeploymentHistory(raw: string, confirm: string, force: bool) returns (r: Outcome)
      modifies this
      ensures (tables, r) == DeleteOne(old(tables), raw, confirm, force, lower)
    {
      hide Remove, Counted, Strip, Blocked, ONE_PREFIX, CleanFrom;
      var id := Strip(raw);
      if id == "" {
        return BadRequest;
      }
      if id !in tables.deployments {
        return NotFound([id]);
      }
      if Strip(confirm) != ConfirmText(id) {
        return Unconfirmed;
      }
      if Blocked(tables.deployments[id], lower) && !force {
        return StillActive;
      }
      StripTwice(raw);
      CleanOfClean([id], {});
      assert [id][0] in IdSet([id]);
      assert IdSet([id]) == {id};
      var deleted := DeleteDeploymentRows([id]);
      r := Deleted(deleted);
    }

    method MissingIds(ids: seq<string>) returns (missing: seq<string>)
      ensures missing == MissingOf(tables, ids)
    {
      hide MissingOf;
      missing := [];
      assert ids[0..] == ids;
      for i := 0 to |ids|
        invariant MissingOf(tables, ids) == missing + MissingOf(tables, ids[i..])
      {
        MissingStep(tables, ids, i);
        ghost var rest := MissingOf(tables, ids[i + 1..]);
        assert missing + ([] + rest) == missing + rest && missing + ([ids[i]] + rest) == missing + [ids[i]] + rest;
        if ids[i] !in tables.deployments {
          missing := missing + [ids[i]];
        }
      }
    }

    method DeleteDeploymentHistories(raw: seq<string>, confirm: string, force: bool) returns (r: Outcome)
      modifies this
      ensures (tables, r) == DeleteMany(old(tables), raw, confirm, force, lower)
    {
      hide Remove, Counted, Strip, Blocked, BatchConfirmText, CleanFrom, IdSet, AnyBlocked, MissingOf;
      var ids := CleanDeploymentIds(raw);
      if ids == [] || |ids| > 200 {
        return BadRequest;
      }
      var missing := MissingIds(ids);
      if missing != [] {
        return NotFound(missing);
      }
      if Strip(confirm) != BatchConfirmText(ids) {
        return Unconfirmed;
      }
      if AnyBlocked(tables, ids, lower) && !force {
        return StillActive;
      }
      CleanOfClean(ids, {});
      var deleted := DeleteDeploymentRows(ids);
      r := Deleted(deleted);
    }
  }

  // ------------------------------------------------------------- batch and fold

  /** Deletes the ids one after the other, each rightly confirmed, summing the counts; stops at the first refusal. */
  function DeleteEach(t: Tables, ids: seq<string>, force: bool, lower: string -> string): (Tables, Option<Counts>)
    decreases ids
  {
    if ids == [] then (t, Some(Counts(0, 0, 0, 0, 0, 0)))
    else
      var (t', first) := DeleteOne(t, ids[0], ConfirmText(ids[0]), force, lower);
      if !first.Deleted? then (t', None)
      else
        var (t'', rest) := DeleteEach(t', ids[1..], force, lower);
        (t'', if rest.None? then None else Some(Plus(first.counts, rest.value)))
  }

  /** The text asked for passes its own check. */
  lemma ConfirmationIsAttainable(id: string)
    requires id != "" && Strip(id) == id
    ensures Strip(ConfirmText(id)) == ConfirmText(id)
  {
    hide Trim;
    var left, right := TrimSplits(id, IsSpace);
    TrimOfTrimmed(ONE_PREFIX + id, IsSpace);
  }

  lemma BatchConfirmationIsAttainable(ids: seq<string>)
    ensures Strip(BatchConfirmText(ids)) == BatchConfirmText(ids)
  {
    hide Trim, Clean;
    var digits := Decimal(|Clean(ids)|);
    hide Decimal;
    assert '0' <= digits[|digits| - 1] <= '9';
    TrimOfTrimmed(MANY_PREFIX + digits, IsSpace);
  }

  predicate Deletable(t: Tables, id: string, force: bool, lower: string -> string) {
    id in t.deployments && (force || !Blocked(t.deployments[id], lower))
  }

  predicate AllDeletable(t: Tables, ids: seq<string>, force: bool, lower: string -> string) {
    forall id :: id in ids ==> Deletable(t, id, force, lower)
  }

  lemma OneStep(t: Tables, id: string, force: bool, lower: string -> string)
    requires id != "" && Strip(id) == id
    ensures DeleteOne(t, id, ConfirmText(id), force, lower).1.Deleted? <==> Deletable(t, id, force, lower)
    ensures Deletable(t, id, force, lower) ==>
      DeleteOne(t, id, ConfirmText(id), force, lower) == (Remove(t, {id}), Deleted(Counted(t, {id})))
  {
    hide Strip, Blocked, Remove, Counted, ONE_PREFIX;
    ConfirmationIsAttainable(id);
  }

  lemma OthersStayDeletable(t: Tables, ids: seq<string>, force: bool, lower: string -> string)
    requires IsClean(ids) && ids != []
    ensures var t' := Remove(t, {ids[0]});
            var first := Deletable(t, ids[0], force, lower);
            AllDeletable(t, ids, force, lower) <==> first && AllDeletable(t', ids[1..], force, lower)
  {
    hide Strip, Blocked, Naming, LogsNaming, TaskIds;
    var t' := Remove(t, {ids[0]});
    assert ids[0] in ids;
    forall id | id in ids[1..]
      ensures id in ids && (Deletable(t', id, force, lower) <==> Deletable(t, id, force, lower))
    {
      assert id != ids[0];
    }
    assert forall id :: id in ids ==> id == ids[0] || id in ids[1..];
  }

  /**
   Deleting one by one gets through exactly when every deployment is there and idle, and then it is one joint
   deletion.
   */
  lemma {:induction false} EachIsJoint(t: Tables, ids: seq<string>, force: bool, lower: string -> string)
    requires IsClean(ids)
    ensures var each := DeleteEach(t, ids, force, lower);
            && (each.1.Some? <==> AllDeletable(t, ids, force, lower))
            && (each.1.Some? ==> each == (Remove(t, IdSet(ids)), Some(Counted(t, IdSet(ids)))))
    decreases ids
  {
    hide DeleteOne, Remove, Counted, Deletable, Strip;
    if ids == [] {
      assert IdSet(ids) == {};
      RemoveNothing(t);
    } else {
      assert ids[0] in ids;
      assert forall id :: id in ids[1..] ==> id in ids;
      OneStep(t, ids[0], force, lower);
      OthersStayDeletable(t, ids, force, lower);
      EachIsJoint(Remove(t, {ids[0]}), ids[1..], force, lower);
      RemoveUnion(t, {ids[0]}, IdSet(ids[1..]));
      assert IdSet(ids) == {ids[0]} + IdSet(ids[1..]);
    }
  }

  /**
   A rightly confirmed batch of 1 to 200 ids is carried out exactly when deleting them one by one would get through,
   with the same rows gone and the same counts; otherwise nothing changes.
   */
  lemma BatchIsFold(t: Tables, raw: seq<string>, force: bool, lower: string -> string)
    ensures var each := DeleteEach(t, Clean(raw), force, lower);
            var batch := DeleteMany(t, raw, BatchConfirmText(raw), force, lower);
            && (batch.1.Deleted? <==> 1 <= |Clean(raw)| <= 200 && each.1.Some?)
            && (batch.1.Deleted? ==> each == (batch.0, Some(batch.1.counts)))
            && (!batch.1.Deleted? ==> batch.0 == t)
  {
    hide CleanFrom, Strip, Remove, Counted, DeleteEach, Blocked, MANY_PREFIX, Decimal, IdSet;
    var ids := Clean(raw);
    EachIsJoint(t, ids, force, lower);
    CleanOfClean(ids, {});
    BatchConfirmationIsAttainable(raw);
    assert BatchConfirmText(ids) == BatchConfirmText(raw);
    hide BatchConfirmText, Clean;
    assert MissingOf(t, ids) == [] && (force || !AnyBlocked(t, ids, lower)) <==> AllDeletable(t, ids, force, lower);
  }

  // ------------------------------------------------- which requests get through

  /** The stored status, stripped and lower-cased, is one of a deployment under way. */
  ghost predicate UnderWay(status: Option<string>, lower: string -> string) {
    lower(Strip(if status.Some? then status.value else "")) in {"pending", "running", "queued"}
  }

  /**
   A deployment is deleted exactly when it exists, the text is that of its id, and it is not under way, or forced;
   every other request changes nothing and says which of these it failed first.
   */
  lemma DeletedOneIff(t: Tables, raw: string, confirm: string, force: bool, lower: string -> string)
    ensures var (t', r) := DeleteOne(t, raw, confirm, force, lower);
      var id := Strip(raw);
      && (r == BadRequest <==> id == "")
      && (r == NotFound([id]) <==> id != "" && id !in t.deployments)
      && (r == Unconfirmed <==>
        id != "" && id in t.deployments && Strip(confirm) != "DELETE DEPLOYMENT " + id)
      && (r == StillActive <==>
        && id != "" && id in t.deployments && Strip(confirm) == "DELETE DEPLOYMENT " + id
        && !force && UnderWay(t.deployments[id], lower))
      && (r.Deleted? <==>
        && id != "" && id in t.deployments && Strip(confirm) == "DELETE DEPLOYMENT " + id
        && (force || !UnderWay(t.deployments[id], lower)))
      && (!r.Deleted? ==> t' == t)
      && (r.Deleted? ==> t'.deployments == t.deployments - {id})
  {
    StripTwice(raw);
    hide Strip;
  }

  /** What the digits of a decimal number amount to. */
  function ValueOf(digits: string): nat
    requires forall i :: 0 <= i < |digits| ==> '0' <= digits[i] <= '9'
  {
    if digits == "" then 0 else 10 * ValueOf(digits[..|digits| - 1]) + (digits[|digits| - 1] as int - '0' as int)
  }

  lemma {:induction false} DecimalReadsBack(n: nat)
    ensures ValueOf(Decimal(n)) == n && (Decimal(n)[0] == '0' <==> n == 0)
    decreases n
  {
    var d := "0123456789"[n % 10];
    assert d as int - '0' as int == n % 10;
    if n < 10 {
      assert Decimal(n) == [d] && [d][..0] == "";
    } else {
      DecimalReadsBack(n / 10);
      assert Decimal(n)[..|Decimal(n)| - 1] == Decimal(n / 10);
    }
  }

  ghost predicate NamesCount(confirm: string, n: nat) { Strip(confirm) == "DELETE DEPLOYMENTS " + Decimal(n) }

  lemma BatchTextIs(raw: seq<string>, confirm: string)
    ensures Strip(confirm) == BatchConfirmText(Clean(raw)) <==> NamesCount(confirm, |Clean(raw)|)
  {
    hide Strip, CleanFrom, Decimal;
    CleanOfClean(Clean(raw), {});
  }

  ghost predicate NoneUnderWay(t: Tables, ids: seq<string>, lower: string -> string) {
    forall id :: id in ids && id in t.deployments ==> !UnderWay(t.deployments[id], lower)
  }

  lemma AnyBlockedIff(t: Tables, ids: seq<string>, lower: string -> string)
    ensures AnyBlocked(t, ids, lower) <==> !NoneUnderWay(t, ids, lower)
  {
    hide Strip;
    forall status: Option<string> ensures Blocked(status, lower) <==> UnderWay(status, lower) {}
    hide Blocked, UnderWay;
  }

  lemma RemovedDeployments(t: Tables, ids: seq<string>)
    ensures forall id :: id in Remove(t, IdSet(ids)).deployments <==> id in t.deployments && id !in ids
  {
    hide Naming, LogsNaming;
  }

  /**
   A batch of 1 to 200 different ids is deleted exactly when all exist, the text states their number, and none is under
   way, or the deletion is forced; every other request changes nothing and says which of these it failed first.
   */
  lemma DeletedManyIff(t: Tables, raw: seq<string>, confirm: string, force: bool, lower: string -> string)
    ensures var (t', r) := DeleteMany(t, raw, confirm, force, lower);
      var ids := Clean(raw);
      var confirmed := NamesCount(confirm, |ids|);
      var sized := 1 <= |ids| <= 200;
      var present := forall id :: id in ids ==> id in t.deployments;
      var idle := force || NoneUnderWay(t, ids, lower);
      && (r == BadRequest <==> !sized)
      && (r.NotFound? <==> sized && !present)
      && (r == Unconfirmed <==> sized && present && !confirmed)
      && (r == StillActive <==> sized && present && confirmed && !idle)
      && (r.Deleted? <==> sized && present && confirmed && idle)
      && (!r.Deleted? ==> t' == t)
      && (r.Deleted? ==> forall id :: id in t'.deployments <==> id in t.deployments && id !in ids)
  {
    var ids := Clean(raw);
    BatchTextIs(raw, confirm);
    AnyBlockedIff(t, ids, lower);
    RemovedDeployments(t, ids);
    hide Strip, Clean, BatchConfirmText, NamesCount, MissingOf, AnyBlocked, NoneUnderWay, Remove, Counted, IdSet;
  }

  /** The reported missing ids are those that do not exist, in the order given. */
  lemma {:induction false} MissingAre(t: Tables, ids: seq<string>)
    ensures forall id :: id in MissingOf(t, ids) <==> id in ids && id !in t.deployments
    decreases ids
  {
    if ids != [] {
      MissingAre(t, ids[1..]);
      assert forall id :: id in ids <==> id == ids[0] || id in ids[1..];
    }
  }

  lemma RowsGone(t: Table, gone: set<string>)
    requires gone <= t.Keys
    ensures |t - gone| == |t| - |gone|
  {
    assert (t - gone).Keys == t.Keys - gone;
    assert |(t - gone).Keys| == |t - gone| && |t.Keys| == |t|;
  }

  /** The counts reported are the numbers of rows that went. */
  lemma CountsAreRowsGone(t: Tables, ids: set<string>)
    ensures var t', n := Remove(t, ids), Counted(t, ids);
      && n.deployments == |t.deployments| - |t'.deployments| && n.tasks == |t.tasks| - |t'.tasks|
      && n.logs == |t.logs| - |t'.logs| && n.steps == |t.steps| - |t'.steps|
      && n.serverTasks == |t.serverTasks| - |t'.serverTasks|
      && n.distributions == |t.distributions| - |t'.distributions|
  {
    var gone := t.deployments.Keys * ids;
    assert (t.deployments - ids).Keys == t.deployments.Keys - gone;
    assert |t.deployments - ids| == |(t.deployments - ids).Keys| && |t.deployments| == |t.deployments.Keys|;
    RowsGone(t.tasks, Naming(t.tasks, ids));
    RowsGone(t.logs, LogsNaming(t.logs, ids, TaskIds(t, ids)));
    RowsGone(t.steps, Naming(t.steps, ids));
    RowsGone(t.serverTasks, Naming(t.serverTasks, ids));
    RowsGone(t.distributions, Naming(t.distributions, ids));
  }
}
