/**
 app/config/systems.py and config_manager.py: the recursive merge, the environment's service overrides,
 and the provenance of variables next to their flat merge.
 */
module Systems {
  import opened PyText

  // ------------------------------------------------------------- _deep_merge

  /** The merge of two values: dictionaries are merged key by key, otherwise the override wins. */
  function Merge(base: Json, override: Json): Json
    decreases override
  {
    if base.Dict? && override.Dict? then
      Dict(map k | k in base.entries.Keys + override.entries.Keys ::
             if k !in override.entries then base.entries[k]
             else if k in base.entries then Merge(base.entries[k], override.entries[k])
             else override.entries[k])
    else override
  }

  function DeepMerge(base: map<string, Json>, override: map<string, Json>): map<string, Json> {
    Merge(Dict(base), Dict(override)).entries
  }

  lemma DeepMergeAt(base: map<string, Json>, override: map<string, Json>, key: string)
    requires key in override
    ensures key in DeepMerge(base, override)
    ensures DeepMerge(base, override)[key] == if key in base then Merge(base[key], override[key]) else override[key]
  {
  }

  method ComputeDeepMerge(base: map<string, Json>, override: map<string, Json>) returns (result: map<string, Json>)
    ensures result == DeepMerge(base, override)
    decreases Dict(override)
  {
    result := base;
    var unseen := override.Keys;
    while unseen != {}
      invariant unseen <= override.Keys
      invariant result.Keys == base.Keys + (override.Keys - unseen)
      invariant forall k :: k in result.Keys ==>
        result[k] == if k in override.Keys - unseen then DeepMerge(base, override)[k] else base[k]
      decreases unseen
    {
      var key :| key in unseen;
      var value := override[key];
      if key in result && result[key].Dict? && value.Dict? {
        var merged := ComputeDeepMerge(result[key].entries, value.entries);
        result := result[key := Dict(merged)];
      } else {
        result := result[key := value];
      }
      DeepMergeAt(base, override, key);
      unseen := unseen - {key};
    }
  }

  /** The value a path of keys leads to. */
  function Lookup(v: Json, path: seq<string>): Option<Json>
    decreases path
  {
    if path == [] then Some(v)
    else if v.Dict? && path[0] in v.entries then Lookup(v.entries[path[0]], path[1..])
    else None
  }

  predicate IsLeaf(v: Json, path: seq<string>) {
    Lookup(v, path).Some? && !Lookup(v, path).value.Dict?
  }

  /** A proper prefix of the path leads to a value that is not a dictionary. */
  predicate CutOff(v: Json, path: seq<string>)
    decreases path
  {
    path != [] && (!v.Dict? || (path[0] in v.entries && CutOff(v.entries[path[0]], path[1..])))
  }

  lemma {:induction false} CutOffMeansPrefix(v: Json, path: seq<string>)
    ensures CutOff(v, path) <==> exists n :: 0 <= n < |path| && IsLeaf(v, path[..n])
    decreases path
  {
    if path != [] {
      if v.Dict? && path[0] in v.entries {
        var child := v.entries[path[0]];
        CutOffMeansPrefix(child, path[1..]);
        forall n | 0 < n < |path| ensures IsLeaf(v, path[..n]) <==> IsLeaf(child, path[1..][..n - 1]) {
          assert path[..n][1..] == path[1..][..n - 1];
        }
        if CutOff(child, path[1..]) {
          var n :| 0 <= n < |path[1..]| && IsLeaf(child, path[1..][..n]);
          assert IsLeaf(v, path[..n + 1]);
        }
      } else {
        assert path[..0] == [];
        forall n | 0 < n < |path| ensures !IsLeaf(v, path[..n]) {
          assert path[..n][0] == path[0];
        }
        assert !v.Dict? ==> IsLeaf(v, path[..0]);
      }
    }
  }

  /**
   The merge path by path: what is reached in the result is determined by what the same path reaches in the
   operands.
   */
  lemma {:induction false} MergeByPath(base: Json, override: Json, path: seq<string>)
    ensures var b, o := Lookup(base, path), Lookup(override, path);
      Lookup(Merge(base, override), path) ==
        if o.Some? then Some(if b.Some? then Merge(b.value, o.value) else o.value)
        else if CutOff(override, path) then None
        else b
    decreases path
  {
    if path != [] && base.Dict? && override.Dict? && path[0] in base.entries && path[0] in override.entries {
      MergeByPath(base.entries[path[0]], override.entries[path[0]], path[1..]);
    }
  }

  /** Every leaf of the override is a leaf of the result. */
  lemma OverrideLeavesWin(base: Json, override: Json, path: seq<string>)
    requires IsLeaf(override, path)
    ensures IsLeaf(Merge(base, override), path) && Lookup(Merge(base, override), path) == Lookup(override, path)
  {
    MergeByPath(base, override, path);
  }

  /** A base leaf survives exactly when the override neither defines its path nor cuts it off. */
  lemma BaseLeavesSurvive(base: Json, override: Json, path: seq<string>)
    requires IsLeaf(base, path)
    ensures Lookup(Merge(base, override), path) ==
      if Lookup(override, path).None? && !CutOff(override, path) then Lookup(base, path) else Lookup(override, path)
  {
    MergeByPath(base, override, path);
  }

  /** The result has no leaf that is not a leaf of an operand. */
  lemma NoNewLeaves(base: Json, override: Json, path: seq<string>)
    requires IsLeaf(Merge(base, override), path)
    ensures IsLeaf(base, path) || IsLeaf(override, path)
  {
    MergeByPath(base, override, path);
  }

  /** Merging `a` under `c` changes nothing: every dictionary path of `a` exists in `c`. */
  predicate Absorbed(a: Json, c: Json)
    decreases a
  {
    a.Dict? && c.Dict? ==>
      forall k :: k in a.entries ==> k in c.entries && Absorbed(a.entries[k], c.entries[k])
  }

  lemma {:induction false} MergeIsOverrideIffAbsorbed(a: Json, c: Json)
    ensures Merge(a, c) == c <==> Absorbed(a, c)
    decreases a
  {
    if a.Dict? && c.Dict? {
      forall k | k in a.entries && k in c.entries
        ensures Merge(a.entries[k], c.entries[k]) == c.entries[k] <==> Absorbed(a.entries[k], c.entries[k])
      {
        MergeIsOverrideIffAbsorbed(a.entries[k], c.entries[k]);
      }
      var m := Merge(a, c);
      if m == c {
        forall k | k in a.entries ensures k in c.entries && Absorbed(a.entries[k], c.entries[k]) {
          assert k in m.entries;
        }
      }
      if Absorbed(a, c) {
        assert m.entries == c.entries;
      }
    }
  }

  lemma {:induction false} MergeIsIdempotent(a: Json)
    ensures Merge(a, a) == a
    decreases a
  {
    if a.Dict? {
      forall k | k in a.entries ensures Merge(a.entries[k], a.entries[k]) == a.entries[k] {
        MergeIsIdempotent(a.entries[k]);
      }
      assert Merge(a, a).entries == a.entries;
    }
  }

  /** A repeated override is absorbed. */
  lemma {:induction false} RepeatedOverride(a: Json, b: Json)
    ensures Merge(Merge(a, b), b) == Merge(a, b)
    decreases b
  {
    MergeIsIdempotent(b);
    if a.Dict? && b.Dict? {
      var once := Merge(a, b);
      forall k | k in b.entries ensures Merge(once.entries[k], b.entries[k]) == once.entries[k] {
        if k in a.entries {
          RepeatedOverride(a.entries[k], b.entries[k]);
        } else {
          MergeIsIdempotent(b.entries[k]);
        }
      }
      assert Merge(once, b).entries == once.entries;
    }
  }

  lemma EmptyIsIdentity(a: map<string, Json>)
    ensures DeepMerge(a, map[]) == a && DeepMerge(map[], a) == a
  {
  }

  /** Wherever a path holds a dictionary, a non-dictionary and a dictionary, the outer two are absorbed. */
  predicate Associates(a: Json, b: Json, c: Json)
    decreases a
  {
    a.Dict? && c.Dict? ==>
      if b.Dict? then
        forall k :: k in a.entries && k in b.entries && k in c.entries ==>
          Associates(a.entries[k], b.entries[k], c.entries[k])
      else Absorbed(a, c)
  }

  lemma {:induction false} AssociativeIff(a: Json, b: Json, c: Json)
    ensures Merge(Merge(a, b), c) == Merge(a, Merge(b, c)) <==> Associates(a, b, c)
    decreases a
  {
    if a.Dict? && b.Dict? && c.Dict? {
      var left, right := Merge(Merge(a, b), c), Merge(a, Merge(b, c));
      assert left.entries.Keys == right.entries.Keys;
      forall k | k in left.entries
        ensures left.entries[k] == right.entries[k] <==>
          (k in a.entries && k in b.entries && k in c.entries ==> Associates(a.entries[k], b.entries[k], c.entries[k]))
      {
        if k in a.entries && k in b.entries && k in c.entries {
          AssociativeIff(a.entries[k], b.entries[k], c.entries[k]);
        }
      }
      if left == right {
        forall k | k in a.entries && k in b.entries && k in c.entries
          ensures Associates(a.entries[k], b.entries[k], c.entries[k])
        {
          assert k in left.entries;
        }
      } else {
        assert left.entries != right.entries;
      }
    } else {
      MergeIsOverrideIffAbsorbed(a, c);
    }
  }

  /** A dictionary, a non-dictionary and a dictionary share a path. */
  ghost predicate Sandwich(a: Json, b: Json, c: Json, path: seq<string>) {
    && Lookup(a, path).Some? && Lookup(a, path).value.Dict?
    && IsLeaf(b, path)
    && Lookup(c, path).Some? && Lookup(c, path).value.Dict?
  }

  /** The exact condition, path by path. */
  lemma {:induction false} AssociatesByPath(a: Json, b: Json, c: Json)
    ensures Associates(a, b, c) <==>
      forall p :: Sandwich(a, b, c, p) ==> Absorbed(Lookup(a, p).value, Lookup(c, p).value)
    decreases a
  {
    if a.Dict? && c.Dict? && b.Dict? {
      forall k | k in a.entries && k in b.entries && k in c.entries
        ensures Associates(a.entries[k], b.entries[k], c.entries[k]) <==>
          forall p :: Sandwich(a, b, c, [k] + p) ==> Absorbed(Lookup(a, [k] + p).value, Lookup(c, [k] + p).value)
      {
        AssociatesByPath(a.entries[k], b.entries[k], c.entries[k]);
        forall p
          ensures Sandwich(a, b, c, [k] + p) <==> Sandwich(a.entries[k], b.entries[k], c.entries[k], p)
          ensures Lookup(a, [k] + p) == Lookup(a.entries[k], p) && Lookup(c, [k] + p) == Lookup(c.entries[k], p)
        {
          assert ([k] + p)[1..] == p;
        }
      }
      if Associates(a, b, c) {
        forall p | Sandwich(a, b, c, p) ensures Absorbed(Lookup(a, p).value, Lookup(c, p).value) {
          assert p == [p[0]] + p[1..];
        }
      }
    } else {
      assert Sandwich(a, b, c, []) <==> a.Dict? && c.Dict? && !b.Dict?;
      forall p | Sandwich(a, b, c, p) ensures p == [] {}
    }
  }

  /** Where no path holds dictionary, non-dictionary, dictionary, the merge is associative. */
  lemma AssociativeWithoutSandwich(a: map<string, Json>, b: map<string, Json>, c: map<string, Json>)
    requires forall p :: !Sandwich(Dict(a), Dict(b), Dict(c), p)
    ensures DeepMerge(DeepMerge(a, b), c) == DeepMerge(a, DeepMerge(b, c))
  {
    AssociatesByPath(Dict(a), Dict(b), Dict(c));
    AssociativeIff(Dict(a), Dict(b), Dict(c));
  }

  lemma UnassociatedDiverge(a: map<string, Json>, b: map<string, Json>, c: map<string, Json>)
    requires !Associates(Dict(a), Dict(b), Dict(c))
    ensures DeepMerge(DeepMerge(a, b), c) != DeepMerge(a, DeepMerge(b, c))
  {
    hide Associates;
    AssociativeIff(Dict(a), Dict(b), Dict(c));
  }

  lemma NotAssociative()
    ensures exists a: map<string, Json>, b: map<string, Json>, c: map<string, Json> ::
      DeepMerge(DeepMerge(a, b), c) != DeepMerge(a, DeepMerge(b, c))
  {
    var one := Number(1.0);
    var a, b, c := map["x" := Dict(map["y" := one])], map["x" := one], map["x" := Dict(map[])];
    assert !Associates(Dict(a), Dict(b), Dict(c)) by {
      assert "x" in a && "x" in b && "x" in c && "y" in a["x"].entries;
      assert !Absorbed(a["x"], c["x"]);
    }
    hide Associates, Absorbed;
    UnassociatedDiverge(a, b, c);
  }

  // --------------------------------------------- environments and services

  datatype Environment = Environment(variables: map<string, Json>, serviceOverrides: map<string, Json>)

  /** What `get_system_config` reads for one system; a service is the dictionary of its row. */
  datatype System = System(variables: map<string, Json>, services: seq<map<string, Json>>,
                           environments: map<string, Environment>)

  const TEMPLATE_VARIABLES := "template_variables"

  /** `_deep_merge` of two arbitrary values raises unless the override is a dictionary that can be merged in. */
  function MergeValues(base: Json, override: Json): Result<Json> {
    if !override.Dict? || (!base.Dict? && override.entries != map[]) then Raised
    else if base.Dict? then Ok(Merge(base, override))
    else Ok(base)
  }

  /** One service under one override. */
  function OverrideService(svc: map<string, Json>, override: map<string, Json>): Result<map<string, Json>> {
    var rest := override - {TEMPLATE_VARIABLES};
    if TEMPLATE_VARIABLES !in override then Ok(svc + rest)
    else if TEMPLATE_VARIABLES !in svc then Ok(svc + override)
    else
      match MergeValues(svc[TEMPLATE_VARIABLES], override[TEMPLATE_VARIABLES])
      case Ok(merged) => Ok((svc + rest)[TEMPLATE_VARIABLES := merged])
      case Raised => Raised
  }

  function ServiceName(svc: map<string, Json>): Json { if "name" in svc then svc["name"] else Str("") }

  function OverrideFor(svc: map<string, Json>, overrides: map<string, Json>): map<string, Json> {
    var name := ServiceName(svc);
    if name.Str? && name.s in overrides && overrides[name.s].Dict? then overrides[name.s].entries else map[]
  }

  function ApplyServiceOverrides(services: seq<map<string, Json>>, overrides: map<string, Json>)
    : Result<seq<map<string, Json>>>
    decreases services
  {
    if services == [] then Ok([])
    else
      var last := |services| - 1;
      match ApplyServiceOverrides(services[..last], overrides)
      case Raised => Raised
      case Ok(init) =>
        match OverrideService(services[last], OverrideFor(services[last], overrides))
        case Raised => Raised
        case Ok(svc) => Ok(init + [svc])
  }

  lemma UpdateLater(a: map<string, Json>, b: map<string, Json>, key: string, value: Json)
    ensures a + b[key := value] == (a + b)[key := value]
  {
  }

  lemma UpdatesCommute(m: map<string, Json>, k: string, v: Json, l: string, w: Json)
    requires k != l
    ensures m[l := w][k := v] == m[k := v][l := w]
  {
  }

  lemma OverrideOneMore(svc: map<string, Json>, done: map<string, Json>, result: map<string, Json>, key: string,
                        value: Json)
    requires OverrideService(svc, done) == Ok(result) && key !in done
    ensures OverrideService(svc, done[key := value]) ==
      if key == TEMPLATE_VARIABLES && key in result then
        match MergeValues(result[key], value)
        case Ok(merged) => Ok(result[key := merged])
        case Raised => Raised
      else Ok(result[key := value])
  {
    hide MergeValues;
    var done' := done[key := value];
    var rest, rest' := done - {TEMPLATE_VARIABLES}, done' - {TEMPLATE_VARIABLES};
    UpdateLater(svc, done, key, value);
    if key != TEMPLATE_VARIABLES {
      assert rest' == rest[key := value];
      UpdateLater(svc, rest, key, value);
      var both := TEMPLATE_VARIABLES in done && TEMPLATE_VARIABLES in svc;
      if both && MergeValues(svc[TEMPLATE_VARIABLES], done[TEMPLATE_VARIABLES]).Ok? {
        var merged := MergeValues(svc[TEMPLATE_VARIABLES], done[TEMPLATE_VARIABLES]).value;
        UpdatesCommute(svc + rest, TEMPLATE_VARIABLES, merged, key, value);
      }
    } else {
      assert rest == rest' == done;
    }
  }

  /** Whether an override raises depends on its template variables alone. */
  lemma OneKeyDecides(svc: map<string, Json>, a: map<string, Json>, b: map<string, Json>)
    requires TEMPLATE_VARIABLES in a && TEMPLATE_VARIABLES in b && a[TEMPLATE_VARIABLES] == b[TEMPLATE_VARIABLES]
    ensures OverrideService(svc, a).Raised? <==> OverrideService(svc, b).Raised?
  {
    hide MergeValues;
  }

  lemma DeepMergeIsMerge(base: Json, override: Json)
    requires base.Dict? && override.Dict?
    ensures Dict(DeepMerge(base.entries, override.entries)) == Merge(base, override)
  {
  }

  /** The loop over the items of one override. */
  method ComputeOverrideService(svc: map<string, Json>, override: map<string, Json>)
    returns (r: Result<map<string, Json>>)
    ensures r == OverrideService(svc, override)
  {
    var result := svc;
    var unseen := override.Keys;
    ghost var done: map<string, Json> := map[];
    assert svc + (done - {TEMPLATE_VARIABLES}) == svc;
    while unseen != {}
      invariant done.Keys !! unseen && done.Keys + unseen == override.Keys
      invariant forall k :: k in done ==> done[k] == override[k]
      invariant OverrideService(svc, done) == Ok(result)
      decreases unseen
    {
      hide Merge, OverrideService;
      var key :| key in unseen;
      OverrideOneMore(svc, done, result, key, override[key]);
      if key == TEMPLATE_VARIABLES && TEMPLATE_VARIABLES in result {
        var base, value := result[key], override[key];
        if !value.Dict? || (!base.Dict? && value.entries != map[]) {
          OneKeyDecides(svc, done[key := value], override);
          return Raised;
        }
        if base.Dict? {
          var merged := ComputeDeepMerge(base.entries, value.entries);
          result := result[key := Dict(merged)];
          DeepMergeIsMerge(base, value);
        } else {
          assert result == result[key := base];
        }
      } else {
        result := result[key := override[key]];
      }
      unseen := unseen - {key};
      done := done[key := override[key]];
    }
    assert done == override;
    r := Ok(result);
  }

  lemma {:induction false} RaisingIsFinal(services: seq<map<string, Json>>, overrides: map<string, Json>, i: nat)
    requires i <= |services| && ApplyServiceOverrides(services[..i], overrides).Raised?
    ensures ApplyServiceOverrides(services, overrides).Raised?
    decreases |services| - i
  {
    hide OverrideService, OverrideFor;
    if i < |services| {
      assert services[..i + 1][..i] == services[..i];
      RaisingIsFinal(services, overrides, i + 1);
    } else {
      assert services[..i] == services;
    }
  }

  method ComputeServiceOverrides(services: seq<map<string, Json>>, overrides: map<string, Json>)
    returns (r: Result<seq<map<string, Json>>>)
    ensures r == if overrides == map[] then Ok(services) else ApplyServiceOverrides(services, overrides)
  {
    if overrides == map[] {
      return Ok(services);
    }
    var result := [];
    for i := 0 to |services|
      invariant ApplyServiceOverrides(services[..i], overrides) == Ok(result)
    {
      assert services[..i + 1][..i] == services[..i];
      var svc := ComputeOverrideService(services[i], OverrideFor(services[i], overrides));
      if svc.Raised? {
        RaisingIsFinal(services, overrides, i + 1);
        return Raised;
      }
      result := result + [svc.value];
    }
    assert services[..|services|] == services;
    r := Ok(result);
  }

  predicate HasEnvironment(system: System, environment: string) {
    environment != "" && environment in system.environments
  }

  /** The variables and services of `resolve_system_config`. */
  function ResolvedVariables(system: System, environment: string): map<string, Json> {
    if HasEnvironment(system, environment) then system.variables + system.environments[environment].variables
    else system.variables
  }

  function ResolvedServices(system: System, environment: string): Result<seq<map<string, Json>>> {
    if HasEnvironment(system, environment) && system.environments[environment].serviceOverrides != map[] then
      ApplyServiceOverrides(system.services, system.environments[environment].serviceOverrides)
    else Ok(system.services)
  }

  /** The first service of that name. */
  function FindService(services: seq<map<string, Json>>, name: string): (r: Option<map<string, Json>>)
    ensures r.None? <==> forall i | 0 <= i < |services| :: !("name" in services[i] && services[i]["name"] == Str(name))
    ensures r.Some? ==> "name" in r.value && r.value["name"] == Str(name) && r.value in services
    decreases services
  {
    if services == [] then None
    else if "name" in services[0] && services[0]["name"] == Str(name) then Some(services[0])
    else
      var rest := FindService(services[1..], name);
      assert forall i :: 0 < i < |services| ==> services[i] == services[1..][i - 1];
      rest
  }

  /** No service before the one found has the name. */
  lemma {:induction false} FoundIsFirst(services: seq<map<string, Json>>, name: string, i: nat)
    requires i < |services| && "name" in services[i] && services[i]["name"] == Str(name)
    requires forall j :: 0 <= j < i ==> !("name" in services[j] && services[j]["name"] == Str(name))
    ensures FindService(services, name) == Some(services[i])
    decreases services
  {
    if i > 0 {
      assert forall j :: 0 <= j < i - 1 ==> services[1..][j] == services[j + 1];
      FoundIsFirst(services[1..], name, i - 1);
    }
  }

  function ServiceVariables(svc: map<string, Json>): map<string, Json> {
    if TEMPLATE_VARIABLES in svc && svc[TEMPLATE_VARIABLES].Dict? then svc[TEMPLATE_VARIABLES].entries else map[]
  }

  /** `resolve_template_variables_with_inheritance`: the later level wins. */
  function FlatMerge(system: System, env: Option<Environment>, svc: Option<map<string, Json>>): map<string, Json> {
    var merged := system.variables;
    var merged := if env.Some? then merged + env.value.variables else merged;
    if svc.Some? then merged + ServiceVariables(svc.value) else merged
  }

  // ------------------------------------------ what a resolved service is

  /** The overrides hold a dictionary for the service, by its own name. */
  ghost predicate Addressed(svc: map<string, Json>, overrides: map<string, Json>, n: string) {
    && (if "name" in svc then svc["name"] == Str(n) else n == "")
    && n in overrides && overrides[n].Dict?
  }

  /** No leaf is a leaf of neither, the override's leaves win, and the base's stay unless overridden or cut off. */
  ghost predicate LeavesMerged(base: Json, override: Json, merged: Json) {
    && (forall path :: IsLeaf(override, path) ==>
      IsLeaf(merged, path) && Lookup(merged, path) == Lookup(override, path))
    && (forall path :: IsLeaf(base, path) && Lookup(override, path).None? && !CutOff(override, path) ==>
      IsLeaf(merged, path) && Lookup(merged, path) == Lookup(base, path))
    && (forall path :: IsLeaf(merged, path) ==>
      || IsLeaf(override, path)
      || (IsLeaf(base, path) && Lookup(override, path).None? && !CutOff(override, path)))
  }

  /** The service under an override, key by key. */
  ghost predicate Overridden(svc: map<string, Json>, override: map<string, Json>, r: map<string, Json>) {
    && r.Keys == svc.Keys + override.Keys
    && (forall k :: k in override && !(k == "template_variables" && k in svc) ==> r[k] == override[k])
    && (forall k :: k in svc && k !in override ==> r[k] == svc[k])
    && ("template_variables" in svc && "template_variables" in override ==>
      var base, value, merged := svc["template_variables"], override["template_variables"], r["template_variables"];
      if base.Dict? then value.Dict? && merged.Dict? && LeavesMerged(base, value, merged)
      else value == Dict(map[]) && merged == base)
  }

  /** The override's template variables cannot be merged into the service's. */
  ghost predicate Unmergeable(svc: map<string, Json>, override: map<string, Json>) {
    && "template_variables" in svc && "template_variables" in override
    && (!override["template_variables"].Dict?
        || (!svc["template_variables"].Dict? && override["template_variables"] != Dict(map[])))
  }

  lemma LeavesAreMerged(base: Json, override: Json)
    requires base.Dict? && override.Dict?
    ensures LeavesMerged(base, override, Merge(base, override))
  {
    forall path
      ensures var b, o := Lookup(base, path), Lookup(override, path);
        Lookup(Merge(base, override), path) ==
          if o.Some? then Some(if b.Some? then Merge(b.value, o.value) else o.value)
          else if CutOff(override, path) then None
          else b
    {
      MergeByPath(base, override, path);
    }
    hide Lookup, CutOff;
  }

  lemma MergeKeepsDictionaries(base: Json, override: Json)
    requires base.Dict? && override.Dict?
    ensures Merge(base, override).Dict?
  {
  }

  lemma OneIsOverridden(svc: map<string, Json>, override: map<string, Json>)
    ensures OverrideService(svc, override).Raised? <==> Unmergeable(svc, override)
    ensures OverrideService(svc, override).Ok? ==> Overridden(svc, override, OverrideService(svc, override).value)
  {
    hide LeavesMerged, Merge;
    if "template_variables" in svc && "template_variables" in override {
      var base, value := svc["template_variables"], override["template_variables"];
      if base.Dict? && value.Dict? {
        LeavesAreMerged(base, value);
        MergeKeepsDictionaries(base, value);
      }
    }
  }

  /** A service that an override addresses is overridden by it; every other one is as it was. */
  ghost predicate Resolved(svc: map<string, Json>, overrides: map<string, Json>, r: map<string, Json>) {
    && (forall n :: Addressed(svc, overrides, n) ==> Overridden(svc, overrides[n].entries, r))
    && ((forall n :: !Addressed(svc, overrides, n)) ==> r == svc)
  }

  ghost predicate Refused(svc: map<string, Json>, overrides: map<string, Json>) {
    exists n :: Addressed(svc, overrides, n) && Unmergeable(svc, overrides[n].entries)
  }

  lemma OneIsResolved(svc: map<string, Json>, overrides: map<string, Json>)
    ensures var r := OverrideService(svc, OverrideFor(svc, overrides));
      (r.Raised? <==> Refused(svc, overrides)) && (r.Ok? ==> Resolved(svc, overrides, r.value))
  {
    var override := OverrideFor(svc, overrides);
    OneIsOverridden(svc, override);
    forall n ensures Addressed(svc, overrides, n) ==> override == overrides[n].entries {}
    if n :| Addressed(svc, overrides, n) {
      assert Addressed(svc, overrides, n);
      hide Overridden, Unmergeable, OverrideService;
    } else {
      assert override == map[] by {
        if ServiceName(svc).Str? {
          assert !Addressed(svc, overrides, ServiceName(svc).s);
        }
      }
      assert svc + (override - {TEMPLATE_VARIABLES}) == svc;
    }
  }

  /**
   The services under the overrides, one by one: the i-th is resolved from the i-th, and the whole raises exactly
   when the template variables of one cannot be merged.
   */
  lemma {:induction false} EachIsResolved(services: seq<map<string, Json>>, overrides: map<string, Json>)
    ensures var r := ApplyServiceOverrides(services, overrides);
      && (r.Raised? <==> exists i :: 0 <= i < |services| && Refused(services[i], overrides))
      && (r.Ok? ==>
        && |r.value| == |services|
        && forall i :: 0 <= i < |services| ==> Resolved(services[i], overrides, r.value[i]))
    decreases services
  {
    hide Refused, Resolved, OverrideService, OverrideFor;
    if services != [] {
      var last := |services| - 1;
      EachIsResolved(services[..last], overrides);
      OneIsResolved(services[last], overrides);
      assert forall i :: 0 <= i < last ==> services[..last][i] == services[i];
    }
  }

  /** No overrides leave every service as it is. */
  lemma EmptyOverridesResolve(svc: map<string, Json>)
    ensures Resolved(svc, map[], svc) && !Refused(svc, map[])
  {
  }

  /** The service overrides of the environment asked for, if there is such. */
  lemma ServicesAreResolved(system: System, environment: string)
    ensures var overrides := if environment != "" && environment in system.environments
                             then system.environments[environment].serviceOverrides else map[];
      var r := ResolvedServices(system, environment);
      && (r.Raised? <==> exists i :: 0 <= i < |system.services| && Refused(system.services[i], overrides))
      && (r.Ok? ==>
        && |r.value| == |system.services|
        && forall i :: 0 <= i < |system.services| ==> Resolved(system.services[i], overrides, r.value[i]))
  {
    hide Refused, Resolved, ApplyServiceOverrides;
    forall svc: map<string, Json> ensures Resolved(svc, map[], svc) && !Refused(svc, map[]) {
      EmptyOverridesResolve(svc);
    }
    if HasEnvironment(system, environment) {
      EachIsResolved(system.services, system.environments[environment].serviceOverrides);
    }
  }

  /** A base leaf keeps its value exactly when the override leaves the path alone, or agrees. */
  lemma BaseLeafStays(base: Json, override: Json, merged: Json, path: seq<string>)
    requires LeavesMerged(base, override, merged) && IsLeaf(base, path)
    ensures Lookup(merged, path) == Lookup(base, path) <==>
      || (Lookup(override, path).None? && !CutOff(override, path))
      || Lookup(override, path) == Lookup(base, path)
  {
    hide Lookup, CutOff;
  }

  /** Every leaf path of an override's template variables is a leaf of the resolved service's, with that value. */
  lemma OverriddenLeavesWin(system: System, environment: string, i: nat, n: string, path: seq<string>)
    requires environment != "" && environment in system.environments && i < |system.services|
    requires ResolvedServices(system, environment).Ok?
    requires var svc, overrides := system.services[i], system.environments[environment].serviceOverrides;
      && "name" in svc && svc["name"] == Str(n) && n in overrides && overrides[n].Dict?
      && "template_variables" in svc && svc["template_variables"].Dict?
      && "template_variables" in overrides[n].entries
    ensures |ResolvedServices(system, environment).value| == |system.services|
    ensures var svc := system.services[i];
      var override := system.environments[environment].serviceOverrides[n].entries["template_variables"];
      var r := ResolvedServices(system, environment).value[i];
      && "template_variables" in r && override.Dict?
      && (IsLeaf(override, path) ==> Lookup(r["template_variables"], path) == Lookup(override, path))
      && (IsLeaf(svc["template_variables"], path) ==>
        (Lookup(r["template_variables"], path) == Lookup(svc["template_variables"], path) <==>
         || (Lookup(override, path).None? && !CutOff(override, path))
         || Lookup(override, path) == Lookup(svc["template_variables"], path)))
  {
    ServicesAreResolved(system, environment);
    hide ResolvedServices, IsLeaf, Lookup, CutOff;
    var svc, overrides := system.services[i], system.environments[environment].serviceOverrides;
    var r := ResolvedServices(system, environment).value[i];
    assert Resolved(svc, overrides, r) && Addressed(svc, overrides, n);
    assert Overridden(svc, overrides[n].entries, r);
    var base, override := svc["template_variables"], overrides[n].entries["template_variables"];
    if IsLeaf(base, path) {
      BaseLeafStays(base, override, r["template_variables"], path);
    }
  }

  /** The variables of `resolve_system_config`, key by key: the environment's win. */
  lemma ResolvedVariablesAre(system: System, environment: string)
    ensures var own := if environment != "" && environment in system.environments
                       then system.environments[environment].variables else map[];
      var r := ResolvedVariables(system, environment);
      && r.Keys == system.variables.Keys + own.Keys
      && forall k :: k in r ==> r[k] == if k in own then own[k] else system.variables[k]
  {
  }

  /** The flat merge, key by key: the service's template variables win over the environment's over the system's. */
  lemma FlatMergeIs(system: System, env: Option<Environment>, svc: Option<map<string, Json>>)
    ensures var lower := if env.Some? then env.value.variables else map[];
      var upper := if svc.Some? && "template_variables" in svc.value && svc.value["template_variables"].Dict?
                   then svc.value["template_variables"].entries else map[];
      var r := FlatMerge(system, env, svc);
      && r.Keys == system.variables.Keys + lower.Keys + upper.Keys
      && forall k :: k in r ==>
        r[k] == if k in upper then upper[k] else if k in lower then lower[k] else system.variables[k]
  {
  }

  // -------------------------------------------------------------- provenance

  datatype Level = SystemLevel | EnvironmentLevel(name: string) | ServiceLevel(name: string) {
    function Rank(): nat {
      match this
      case SystemLevel => 0
      case EnvironmentLevel(_) => 1
      case ServiceLevel(_) => 2
    }
  }

  datatype Link = Link(level: Level, value: Json)

  datatype Entry = Entry(value: Json, source: Level, links: seq<Link>)

  /** Records that a level sets `vars`. */
  function AddLevel(chain: map<string, Entry>, level: Level, vars: map<string, Json>): map<string, Entry> {
    map k | k in chain.Keys + vars.Keys ::
      if k in vars then Entry(vars[k], level, (if k in chain then chain[k].links else []) + [Link(level, vars[k])])
      else chain[k]
  }

  method ComputeAddLevel(chain: map<string, Entry>, level: Level, vars: map<string, Json>)
    returns (result: map<string, Entry>)
    ensures result == AddLevel(chain, level, vars)
  {
    result := chain;
    var unseen := vars.Keys;
    while unseen != {}
      invariant unseen <= vars.Keys
      invariant result.Keys == chain.Keys + (vars.Keys - unseen)
      invariant forall k :: k in result ==>
        result[k] == if k in vars.Keys - unseen then AddLevel(chain, level, vars)[k] else chain[k]
      decreases unseen
    {
      var name :| name in unseen;
      if name !in result {
        result := result[name := Entry(vars[name], level, [])];
      }
      result := result[name := Entry(vars[name], level, result[name].links + [Link(level, vars[name])])];
      unseen := unseen - {name};
    }
  }

  function Provenance(system: System, service: string, environment: string): Result<map<string, Entry>> {
    var chain := AddLevel(map[], SystemLevel, system.variables);
    var chain := if HasEnvironment(system, environment)
                 then AddLevel(chain, EnvironmentLevel(environment), system.environments[environment].variables)
                 else chain;
    if service == "" then Ok(chain)
    else
      match ResolvedServices(system, environment)
      case Raised => Raised
      case Ok(services) =>
        match FindService(services, service)
        case None => Ok(chain)
        case Some(svc) => Ok(AddLevel(chain, ServiceLevel(service), ServiceVariables(svc)))
  }

  /** The search for the service, whose variables come last. */
  method AddServiceLevel(chain: map<string, Entry>, services: seq<map<string, Json>>, service: string)
    returns (result: map<string, Entry>)
    ensures var svc := FindService(services, service);
            result == if svc.None? then chain else AddLevel(chain, ServiceLevel(service), ServiceVariables(svc.value))
  {
    hide AddLevel, ServiceVariables;
    assert services[0..] == services;
    for i := 0 to |services|
      invariant FindService(services, service) == FindService(services[i..], service)
    {
      if "name" in services[i] && services[i]["name"] == Str(service) {
        result := ComputeAddLevel(chain, ServiceLevel(service), ServiceVariables(services[i]));
        return;
      }
      assert services[i..][1..] == services[i + 1..];
    }
    result := chain;
  }

  method GetVariableInheritance(system: System, service: string, environment: string)
    returns (r: Result<map<string, Entry>>)
    ensures r == Provenance(system, service, environment)
  {
    hide ApplyServiceOverrides, AddLevel, FindService, ServiceVariables;
    var chain := ComputeAddLevel(map[], SystemLevel, system.variables);
    if environment != "" && environment in system.environments {
      chain := ComputeAddLevel(chain, EnvironmentLevel(environment), system.environments[environment].variables);
    }
    if service != "" {
      var services := system.services;
      if environment != "" && environment in system.environments {
        var resolved := ComputeServiceOverrides(services, system.environments[environment].serviceOverrides);
        if resolved.Raised? {
          return Raised;
        }
        services := resolved.value;
      }
      chain := AddServiceLevel(chain, services, service);
    }
    r := Ok(chain);
  }

  /** A chain is nonempty, strictly ordered system < environment < service, and ends in what the entry reports. */
  predicate WellOrdered(e: Entry) {
    && e.links != []
    && (forall i, j :: 0 <= i < j < |e.links| ==> e.links[i].level.Rank() < e.links[j].level.Rank())
    && e.links[|e.links| - 1] == Link(e.source, e.value)
  }

  predicate ChainsBelow(chain: map<string, Entry>, rank: nat) {
    forall k :: k in chain ==> WellOrdered(chain[k]) && chain[k].source.Rank() < rank
  }

  /** One link of a higher level more keeps an entry well ordered. */
  lemma LinkKeepsOrder(e: Entry, level: Level, value: Json)
    requires WellOrdered(e) && e.source.Rank() < level.Rank()
    ensures WellOrdered(Entry(value, level, e.links + [Link(level, value)]))
  {
    var last := |e.links| - 1;
    forall i | 0 <= i < |e.links| ensures e.links[i].level.Rank() < level.Rank() {
      assert i < last ==> e.links[i].level.Rank() < e.links[last].level.Rank();
    }
  }

  lemma AddLevelKeepsOrder(chain: map<string, Entry>, level: Level, vars: map<string, Json>)
    requires ChainsBelow(chain, level.Rank())
    ensures ChainsBelow(AddLevel(chain, level, vars), level.Rank() + 1)
  {
    var after := AddLevel(chain, level, vars);
    forall k | k in after ensures WellOrdered(after[k]) && after[k].source.Rank() < level.Rank() + 1 {
      if k in vars && k in chain {
        LinkKeepsOrder(chain[k], level, vars[k]);
        hide WellOrdered;
      } else if k in vars {
        assert after[k] == Entry(vars[k], level, [Link(level, vars[k])]);
      } else {
        hide WellOrdered;
        assert after[k] == chain[k];
      }
    }
  }

  function Values(chain: map<string, Entry>): map<string, Json> { map k | k in chain :: chain[k].value }

  lemma AddLevelIsUpdate(chain: map<string, Entry>, level: Level, vars: map<string, Json>)
    ensures Values(AddLevel(chain, level, vars)) == Values(chain) + vars
  {
  }

  /**
   Provenance reports exactly the variables of the flat merge on the resolved service, each with a
   well-ordered chain; without a service they are the variables of `resolve_system_config`.
   */
  lemma ProvenanceAgrees(system: System, service: string, environment: string)
    ensures var r := Provenance(system, service, environment);
      && (r.Raised? <==> service != "" && ResolvedServices(system, environment).Raised?)
      && (r.Ok? ==>
        var env := if HasEnvironment(system, environment) then Some(system.environments[environment]) else None;
        var svc := if service == "" then None else FindService(ResolvedServices(system, environment).value, service);
        && Values(r.value) == FlatMerge(system, env, svc)
        && (forall k :: k in r.value ==> WellOrdered(r.value[k]))
        && (service == "" ==> Values(r.value) == ResolvedVariables(system, environment)))
  {
    hide AddLevel, ApplyServiceOverrides, WellOrdered;
    var chain0 := AddLevel(map[], SystemLevel, system.variables);
    AddLevelIsUpdate(map[], SystemLevel, system.variables);
    AddLevelKeepsOrder(map[], SystemLevel, system.variables);
    assert Values(map[]) + system.variables == system.variables;
    var chain1 := chain0;
    if HasEnvironment(system, environment) {
      var vars := system.environments[environment].variables;
      chain1 := AddLevel(chain0, EnvironmentLevel(environment), vars);
      AddLevelIsUpdate(chain0, EnvironmentLevel(environment), vars);
      AddLevelKeepsOrder(chain0, EnvironmentLevel(environment), vars);
    }
    if service != "" && ResolvedServices(system, environment).Ok? {
      var svc := FindService(ResolvedServices(system, environment).value, service);
      if svc.Some? {
        AddLevelIsUpdate(chain1, ServiceLevel(service), ServiceVariables(svc.value));
        AddLevelKeepsOrder(chain1, ServiceLevel(service), ServiceVariables(svc.value));
      }
    }
  }
}
