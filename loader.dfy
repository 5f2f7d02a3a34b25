/** `SpectrumLoader<TModType>` (SpectrumLoader.cs): registration of the mods
    found in assemblies, the dependency check, the load-order sort and the
    instantiation of the mods followed by their `Loaded` hooks.

    What reflection and Mono.Cecil read from an assembly arrives here as
    records; instantiating a mod is a parameter `create` that may fail; and
    `Environment.Exit(1)` is the outcome `Exited`. */
module Loader {
  import opened Common
  import opened Dict
  import opened StableSort
  import Versions
  import Ranges

  /** The `[ModInfo]` attribute. */
  datatype ModInfo = ModInfo(name: string, modId: string, author: string, version: string)

  /** A `[ModDependency]` attribute: the id of the required mod and the
      version range it must satisfy. */
  datatype ModDependency = ModDependency(modId: string, version: string)

  /** A type of an assembly: its full name, its `[ModInfo]` attributes and
      its `[ModDependency]` attributes, in declaration order. */
  datatype TypeRecord = TypeRecord(fullName: string, modInfos: seq<ModInfo>, dependencies: seq<ModDependency>)

  /** An assembly file: its path, its assembly name and its types. */
  datatype AssemblyRecord = AssemblyRecord(file: string, name: string, types: seq<TypeRecord>)

  /** A value of `_mods`: the mod's info, its file, and the name of its type
      qualified by its assembly. */
  datatype ModEntry = ModEntry(info: ModInfo, assembly: string, modType: string)

  type Mods = seq<(string, ModEntry)>
  type Dependencies = seq<(string, seq<ModDependency>)>

  /** How a phase ends: normally, by `Environment.Exit(1)`, or by an
      exception that escapes it. */
  datatype Outcome = Completed | Exited | Threw(error: Exception)

  // ---------------------------------------------------------------------
  // Registration (`PreloadAssembly`)

  /** `_mods` and `_dependencies`. */
  datatype Registry = Registry(mods: Mods, dependencies: Dependencies)

  /** Keys are unique, every dependency list belongs to a registered mod, and
      no stored list is empty: a mod without an entry declares nothing. */
  ghost predicate RegistryValid(reg: Registry) {
    && UniqueKeys(reg.mods)
    && UniqueKeys(reg.dependencies)
    && (forall i | 0 <= i < |reg.dependencies| :: HasKey(reg.mods, reg.dependencies[i].0) && reg.dependencies[i].1 != [])
  }

  /** An id without a mod has no dependency list. */
  lemma UnregisteredHasNoDependencies(reg: Registry, k: string)
    requires RegistryValid(reg) && !HasKey(reg.mods, k)
    ensures !HasKey(reg.dependencies, k)
  {
  }

  /** One type of an assembly: skipped unless it has exactly one `[ModInfo]`;
      a duplicate id exits in crash mode and is skipped otherwise; a new id is
      added to `_mods`, and its dependencies to `_dependencies` when it
      declares any. The flag says whether the process exited. */
  function RegisterType(reg: Registry, crash: bool, file: string, assemblyName: string, t: TypeRecord): (r: (Registry, bool))
    requires RegistryValid(reg)
    ensures RegistryValid(r.0)
  {
    if |t.modInfos| != 1 then (reg, false)
    else
      var info := t.modInfos[0];
      if HasKey(reg.mods, info.modId) then (reg, crash)
      else
        UnregisteredHasNoDependencies(reg, info.modId);
        var mods := Add(reg.mods, info.modId, ModEntry(info, file, t.fullName + ", " + assemblyName));
        var dependencies := if t.dependencies != [] then Add(reg.dependencies, info.modId, t.dependencies) else reg.dependencies;
        RegisterTypeValid(reg, info.modId, ModEntry(info, file, t.fullName + ", " + assemblyName), dependencies, t.dependencies);
        (Registry(mods, dependencies), false)
  }

  /** A type with one `[ModInfo]` and a new id adds its entry, and its
      dependency list when it has one. */
  lemma RegisterAdds(reg: Registry, crash: bool, file: string, assemblyName: string, t: TypeRecord)
    requires RegistryValid(reg) && |t.modInfos| == 1 && !HasKey(reg.mods, t.modInfos[0].modId)
    ensures var id := t.modInfos[0].modId;
      && !HasKey(reg.dependencies, id)
      && RegisterType(reg, crash, file, assemblyName, t) ==
        (Registry(Add(reg.mods, id, ModEntry(t.modInfos[0], file, t.fullName + ", " + assemblyName)),
                  if t.dependencies != [] then Add(reg.dependencies, id, t.dependencies) else reg.dependencies),
         false)
  {
    UnregisteredHasNoDependencies(reg, t.modInfos[0].modId);
  }

  lemma RegisterTypeValid(reg: Registry, id: string, entry: ModEntry, dependencies: Dependencies, declared: seq<ModDependency>)
    requires RegistryValid(reg) && !HasKey(reg.mods, id) && !HasKey(reg.dependencies, id)
    requires dependencies == if declared != [] then reg.dependencies + [(id, declared)] else reg.dependencies
    ensures RegistryValid(Registry(reg.mods + [(id, entry)], dependencies))
  {
    var mods := reg.mods + [(id, entry)];
    forall i | 0 <= i < |dependencies| ensures HasKey(mods, dependencies[i].0) {
      if i < |reg.dependencies| {
        var k := reg.dependencies[i].0;
        var j :| 0 <= j < |reg.mods| && reg.mods[j].0 == k;
        assert mods[j].0 == k;
      } else {
        assert mods[|reg.mods|].0 == dependencies[i].0;
      }
    }
  }

  /** The types of one assembly in order, stopping at an exit. */
  function RegisterAll(reg: Registry, crash: bool, file: string, assemblyName: string, types: seq<TypeRecord>): (r: (Registry, bool))
    requires RegistryValid(reg)
    ensures RegistryValid(r.0)
    decreases |types|
  {
    if types == [] then (reg, false)
    else
      var (next, exited) := RegisterType(reg, crash, file, assemblyName, types[0]);
      if exited then (next, true) else RegisterAll(next, crash, file, assemblyName, types[1..])
  }

  /** One step of `RegisterAll` from position `i`. */
  lemma RegisterAllStep(reg: Registry, crash: bool, file: string, assemblyName: string, types: seq<TypeRecord>, i: nat)
    requires RegistryValid(reg) && i < |types|
    ensures var (next, exited) := RegisterType(reg, crash, file, assemblyName, types[i]);
      RegisterAll(reg, crash, file, assemblyName, types[i..])
        == if exited then (next, true) else RegisterAll(next, crash, file, assemblyName, types[i + 1..])
  {
    assert types[i..][1..] == types[i + 1..];
  }

  /** The ids of the types that carry exactly one `[ModInfo]`. */
  function DeclaredIds(types: seq<TypeRecord>): seq<string> {
    if types == [] then []
    else (if |types[0].modInfos| == 1 then [types[0].modInfos[0].modId] else []) + DeclaredIds(types[1..])
  }

  /** Registration never changes or removes an entry: the old `_mods` is a
      prefix of the new one, so the first mod registered under an id keeps
      it. */
  lemma {:induction false} RegisterKeepsEntries(reg: Registry, crash: bool, file: string, assemblyName: string, types: seq<TypeRecord>)
    requires RegistryValid(reg)
    ensures var r := RegisterAll(reg, crash, file, assemblyName, types).0;
      |reg.mods| <= |r.mods| && r.mods[..|reg.mods|] == reg.mods
    decreases |types|
  {
    if types != [] {
      var (next, exited) := RegisterType(reg, crash, file, assemblyName, types[0]);
      if !exited {
        RegisterKeepsEntries(next, crash, file, assemblyName, types[1..]);
        var r := RegisterAll(next, crash, file, assemblyName, types[1..]).0;
        assert r.mods[..|next.mods|][..|reg.mods|] == r.mods[..|reg.mods|];
      }
    }
  }

  /** A type with one `[ModInfo]` and a new id is registered: its id is
      appended to the keys and is the only key added. */
  lemma RegisterNew(reg: Registry, crash: bool, file: string, assemblyName: string, t: TypeRecord, k: string)
    requires RegistryValid(reg) && |t.modInfos| == 1 && !HasKey(reg.mods, t.modInfos[0].modId)
    ensures var (next, exited) := RegisterType(reg, crash, file, assemblyName, t);
      && !exited
      && Keys(next.mods) == Keys(reg.mods) + [t.modInfos[0].modId]
      && (HasKey(next.mods, k) <==> HasKey(reg.mods, k) || k == t.modInfos[0].modId)
  {
    HasKeyAdd(reg.mods, t.modInfos[0].modId, ModEntry(t.modInfos[0], file, t.fullName + ", " + assemblyName), k);
  }

  /** None of `ids` is registered in `mods`, and no id occurs twice. */
  predicate Fresh(mods: Mods, ids: seq<string>) {
    && (forall k | 0 <= k < |ids| :: !HasKey(mods, ids[k]))
    && (forall k, l | 0 <= k < l < |ids| :: ids[k] != ids[l])
  }

  /** Registering the first of a fresh list of ids leaves the rest fresh. */
  lemma FreshAfterRegister(reg: Registry, crash: bool, file: string, assemblyName: string, t: TypeRecord, rest: seq<string>)
    requires RegistryValid(reg) && |t.modInfos| == 1
    requires Fresh(reg.mods, [t.modInfos[0].modId] + rest)
    ensures var (next, exited) := RegisterType(reg, crash, file, assemblyName, t);
      && !exited
      && Keys(next.mods) == Keys(reg.mods) + [t.modInfos[0].modId]
      && Fresh(next.mods, rest)
  {
    var id := t.modInfos[0].modId;
    var entry := ModEntry(t.modInfos[0], file, t.fullName + ", " + assemblyName);
    var ids := [id] + rest;
    assert !HasKey(reg.mods, ids[0]);
    RegisterNew(reg, crash, file, assemblyName, t, id);
    var next := RegisterType(reg, crash, file, assemblyName, t).0;
    assert next.mods == Add(reg.mods, id, entry);
    forall k | 0 <= k < |rest| ensures !HasKey(next.mods, rest[k]) {
      assert rest[k] == ids[k + 1];
      HasKeyAdd(reg.mods, id, entry, rest[k]);
    }
    forall k, l | 0 <= k < l < |rest| ensures rest[k] != rest[l] {
      assert rest[k] == ids[k + 1] && rest[l] == ids[l + 1];
    }
  }

  /** Only crash mode ever exits, and only on an id that is already
      registered: with ids that are new and distinct, every type with one
      `[ModInfo]` is registered, in order. */
  lemma {:induction false} RegisterFresh(reg: Registry, crash: bool, file: string, assemblyName: string, types: seq<TypeRecord>)
    requires RegistryValid(reg) && Fresh(reg.mods, DeclaredIds(types))
    ensures var (r, exited) := RegisterAll(reg, crash, file, assemblyName, types);
      !exited && Keys(r.mods) == Keys(reg.mods) + DeclaredIds(types)
    decreases |types|
  {
    if types != [] {
      var t := types[0];
      var rest := DeclaredIds(types[1..]);
      var next := RegisterType(reg, crash, file, assemblyName, t).0;
      RegisterAllStep(reg, crash, file, assemblyName, types, 0);
      assert types[0..] == types;
      if |t.modInfos| == 1 {
        var id := t.modInfos[0].modId;
        assert DeclaredIds(types) == [id] + rest;
        FreshAfterRegister(reg, crash, file, assemblyName, t, rest);
        RegisterFresh(next, crash, file, assemblyName, types[1..]);
        assert Keys(reg.mods) + [id] + rest == Keys(reg.mods) + ([id] + rest);
      } else {
        assert DeclaredIds(types) == rest && next == reg;
        RegisterFresh(next, crash, file, assemblyName, types[1..]);
      }
    }
  }

  /** In lenient mode registration never exits. */
  lemma {:induction false} LenientRegistrationContinues(reg: Registry, file: string, assemblyName: string, types: seq<TypeRecord>)
    requires RegistryValid(reg)
    ensures !RegisterAll(reg, false, file, assemblyName, types).1
    decreases |types|
  {
    if types != [] {
      var (next, exited) := RegisterType(reg, false, file, assemblyName, types[0]);
      LenientRegistrationContinues(next, file, assemblyName, types[1..]);
    }
  }

  /** A duplicate id changes nothing; the outcome is the crash flag. */
  lemma DuplicateKeepsFirst(reg: Registry, crash: bool, file: string, assemblyName: string, t: TypeRecord)
    requires RegistryValid(reg)
    requires |t.modInfos| == 1 && HasKey(reg.mods, t.modInfos[0].modId)
    ensures RegisterType(reg, crash, file, assemblyName, t) == (reg, crash)
  {
  }

  /** A type with no `[ModInfo]`, or with more than one, is skipped. */
  lemma SkipsWithoutOneModInfo(reg: Registry, crash: bool, file: string, assemblyName: string, t: TypeRecord)
    requires RegistryValid(reg) && |t.modInfos| != 1
    ensures RegisterType(reg, crash, file, assemblyName, t) == (reg, false)
  {
  }

  /** `IsModAssembly`: some type carries a `[ModInfo]` attribute. */
  predicate IsModAssembly(a: AssemblyRecord) {
    exists i | 0 <= i < |a.types| :: a.types[i].modInfos != []
  }

  /** Types none of which carries `[ModInfo]` register nothing. */
  lemma {:induction false} NoModInfoRegistersNothing(reg: Registry, crash: bool, file: string, assemblyName: string, types: seq<TypeRecord>)
    requires RegistryValid(reg)
    requires forall i | 0 <= i < |types| :: types[i].modInfos == []
    ensures RegisterAll(reg, crash, file, assemblyName, types) == (reg, false)
  {
    if types != [] {
      SkipsWithoutOneModInfo(reg, crash, file, assemblyName, types[0]);
      NoModInfoRegistersNothing(reg, crash, file, assemblyName, types[1..]);
    }
  }

  /** Skipping an assembly that is not a mod assembly loses nothing:
      registering its types would leave the registry as it is. */
  lemma SkippedAssemblyRegistersNothing(reg: Registry, crash: bool, a: AssemblyRecord)
    requires RegistryValid(reg) && !IsModAssembly(a)
    ensures RegisterAll(reg, crash, a.file, a.name, a.types) == (reg, false)
  {
    NoModInfoRegistersNothing(reg, crash, a.file, a.name, a.types);
  }

  /** The assemblies in order, those that are mod assemblies registered,
      stopping at an exit. */
  function RegisterAssemblies(reg: Registry, crash: bool, assemblies: seq<AssemblyRecord>): (r: (Registry, bool))
    requires RegistryValid(reg)
    ensures RegistryValid(r.0)
    decreases |assemblies|
  {
    if assemblies == [] then (reg, false)
    else
      var a := assemblies[0];
      var (next, exited) := if IsModAssembly(a) then RegisterAll(reg, crash, a.file, a.name, a.types) else (reg, false);
      if exited then (next, true) else RegisterAssemblies(next, crash, assemblies[1..])
  }

  // ---------------------------------------------------------------------
  // The dependency check (`CheckDependencies`)

  /** What checking one declared dependency finds, in the order the checks
      are made; `Fails` is the `OverflowException` that `Version.TryParse`
      lets escape. */
  datatype Status = Satisfied | Missing | InvalidRange | InvalidVersion | Mismatch | Fails(error: Exception)

  /** The declared dependencies of a mod; no entry means none. */
  function DependenciesOf(dependencies: Dependencies, id: string): seq<ModDependency> {
    match Lookup(dependencies, id)
    case Some(list) => list
    case None => []
  }

  /** The version string the required mod declares. */
  function TargetVersion(mods: Mods, d: ModDependency): string
    requires HasKey(mods, d.modId)
  {
    Lookup(mods, d.modId).value.info.version
  }

  /** What `CheckDependencies` finds for one declared dependency, in the
      order it looks: the mod, the range, the mod's version, containment. */
  function DependencyStatus(mods: Mods, d: ModDependency): (s: Status)
    ensures s == Missing <==> !HasKey(mods, d.modId)
    ensures s.Fails? ==> s.error == OverflowException
    ensures s == Satisfied ==>
      && HasKey(mods, d.modId) && Ranges.Parse(d.version).Ok? && Versions.Parse(TargetVersion(mods, d)).Ok?
      && Ranges.Contains(Ranges.Parse(d.version).value, Versions.Parse(TargetVersion(mods, d)).value)
  {
    match Lookup(mods, d.modId)
    case None => Missing
    case Some(entry) =>
      var (rangeOk, range) := Ranges.TryParse(d.version);
      if !rangeOk then InvalidRange
      else
        match Versions.TryParse(entry.info.version)
        case Err(e) => Fails(e)
        case Ok((versionOk, version)) =>
          if !versionOk then InvalidVersion
          else if !Ranges.Contains(range, version) then Mismatch
          else Satisfied
  }

  /** Each status means what its name says, in terms of the two parsers:
      exactly one holds, and `Fails` is the overflow `Version.TryParse`
      lets escape. */
  lemma StatusMeaning(mods: Mods, d: ModDependency)
    ensures var s := DependencyStatus(mods, d);
      && (s == Missing <==> !HasKey(mods, d.modId))
      && (s == InvalidRange <==> HasKey(mods, d.modId) && Ranges.Parse(d.version).Err?)
      && (s == InvalidVersion <==>
            HasKey(mods, d.modId) && Ranges.Parse(d.version).Ok?
            && Versions.Parse(TargetVersion(mods, d)) == Err(FormatException))
      && (s.Fails? <==>
            HasKey(mods, d.modId) && Ranges.Parse(d.version).Ok?
            && Versions.Parse(TargetVersion(mods, d)) == Err(OverflowException))
      && (s.Fails? ==> s.error == OverflowException)
      && (s == Mismatch <==>
            HasKey(mods, d.modId) && Ranges.Parse(d.version).Ok? && Versions.Parse(TargetVersion(mods, d)).Ok?
            && !Ranges.Contains(Ranges.Parse(d.version).value, Versions.Parse(TargetVersion(mods, d)).value))
      && (s == Satisfied <==>
            HasKey(mods, d.modId) && Ranges.Parse(d.version).Ok? && Versions.Parse(TargetVersion(mods, d)).Ok?
            && Ranges.Contains(Ranges.Parse(d.version).value, Versions.Parse(TargetVersion(mods, d)).value))
  {
  }

  /** Every declared dependency, mod by mod in `_mods` order. */
  function Requirements(entries: Mods, dependencies: Dependencies): seq<ModDependency> {
    if entries == [] then [] else DependenciesOf(dependencies, entries[0].0) + Requirements(entries[1..], dependencies)
  }

  function Statuses(mods: Mods, requirements: seq<ModDependency>): (ss: seq<Status>)
    ensures |ss| == |requirements|
  {
    if requirements == [] then []
    else [DependencyStatus(mods, requirements[0])] + Statuses(mods, requirements[1..])
  }

  /** The statuses are those of the requirements, one by one. */
  lemma {:induction false} StatusesAt(mods: Mods, requirements: seq<ModDependency>, k: nat)
    requires k < |requirements|
    ensures Statuses(mods, requirements)[k] == DependencyStatus(mods, requirements[k])
  {
    if k > 0 {
      StatusesAt(mods, requirements[1..], k - 1);
    }
  }

  /** The outcome of the check from the statuses in order: an escaping
      exception ends it, and so does any other failure in crash mode. */
  function Verdict(ss: seq<Status>, crash: bool): (o: Outcome)
    ensures !crash ==> o != Exited
    ensures o.Threw? ==> exists k | 0 <= k < |ss| :: ss[k] == Fails(o.error)
    ensures o == Exited ==> exists k | 0 <= k < |ss| :: ss[k] != Satisfied && !ss[k].Fails?
  {
    if ss == [] then Completed
    else match ss[0]
      case Satisfied => Verdict(ss[1..], crash)
      case Fails(e) => Threw(e)
      case _ => if crash then Exited else Verdict(ss[1..], crash)
  }

  /** A satisfied dependency, or in lenient mode one that fails without an
      exception, passes the check on to the next. */
  lemma VerdictPasses(mods: Mods, d: ModDependency, rest: seq<ModDependency>, crash: bool)
    requires DependencyStatus(mods, d) == Satisfied || (!crash && !DependencyStatus(mods, d).Fails?)
    ensures Verdict(Statuses(mods, [d] + rest), crash) == Verdict(Statuses(mods, rest), crash)
  {
    assert ([d] + rest)[1..] == rest;
  }

  /** Any other dependency ends the check. */
  lemma VerdictStops(mods: Mods, d: ModDependency, rest: seq<ModDependency>, crash: bool)
    requires DependencyStatus(mods, d) != Satisfied && (crash || DependencyStatus(mods, d).Fails?)
    ensures Verdict(Statuses(mods, [d] + rest), crash) ==
      if DependencyStatus(mods, d).Fails? then Threw(DependencyStatus(mods, d).error) else Exited
  {
  }

  /** Checking two lists of requirements in a row: the second is reached
      only when the first completes. */
  lemma {:induction false} VerdictAppend(mods: Mods, a: seq<ModDependency>, b: seq<ModDependency>, crash: bool)
    ensures Verdict(Statuses(mods, a + b), crash) ==
      var first := Verdict(Statuses(mods, a), crash);
      if first == Completed then Verdict(Statuses(mods, b), crash) else first
  {
    if a != [] {
      var d := a[0];
      assert a == [d] + a[1..] && a + b == [d] + (a[1..] + b);
      var status := DependencyStatus(mods, d);
      if status == Satisfied || (!crash && !status.Fails?) {
        VerdictPasses(mods, d, a[1..] + b, crash);
        VerdictPasses(mods, d, a[1..], crash);
        VerdictAppend(mods, a[1..], b, crash);
      } else {
        VerdictStops(mods, d, a[1..] + b, crash);
        VerdictStops(mods, d, a[1..], crash);
      }
    } else {
      assert a + b == b;
    }
  }

  lemma RequirementsStep(entries: Mods, dependencies: Dependencies, i: nat)
    requires i < |entries|
    ensures Requirements(entries[i..], dependencies)
      == DependenciesOf(dependencies, entries[i].0) + Requirements(entries[i + 1..], dependencies)
  {
    assert entries[i..][1..] == entries[i + 1..];
  }

  /** The check completes exactly when every dependency is satisfied or, in
      lenient mode, fails without an exception. */
  lemma {:induction false} VerdictCompleted(ss: seq<Status>, crash: bool)
    ensures Verdict(ss, crash) == Completed <==>
      forall k | 0 <= k < |ss| :: ss[k] == Satisfied || (!crash && !ss[k].Fails?)
  {
    if ss != [] {
      VerdictCompleted(ss[1..], crash);
      assert forall k | 1 <= k < |ss| :: ss[k] == ss[1..][k - 1];
    }
  }

  /** In lenient mode the check never exits. */
  lemma {:induction false} LenientNeverExits(ss: seq<Status>)
    ensures Verdict(ss, false) != Exited
  {
    if ss != [] {
      LenientNeverExits(ss[1..]);
    }
  }

  /** In crash mode the first dependency that is not satisfied decides: an
      exception escapes, anything else exits. */
  lemma {:induction false} CrashStopsAtFirstProblem(ss: seq<Status>, k: nat)
    requires k < |ss| && ss[k] != Satisfied
    requires forall l | 0 <= l < k :: ss[l] == Satisfied
    ensures Verdict(ss, true) == if ss[k].Fails? then Threw(ss[k].error) else Exited
  {
    if k > 0 {
      CrashStopsAtFirstProblem(ss[1..], k - 1);
    }
  }

  // ---------------------------------------------------------------------
  // The load order (`SortByDependencies`)

  /** How many dependencies a mod declares. */
  function DeclaredCount(dependencies: Dependencies, id: string): nat {
    |DependenciesOf(dependencies, id)|
  }

  /** How many of them name a registered mod. */
  function RegisteredCount(mods: Mods, dependencies: Dependencies, id: string): nat {
    CountRegistered(mods, DependenciesOf(dependencies, id))
  }

  function CountRegistered(mods: Mods, ds: seq<ModDependency>): (n: nat)
    ensures n <= |ds|
  {
    if ds == [] then 0 else (if HasKey(mods, ds[0].modId) then 1 else 0) + CountRegistered(mods, ds[1..])
  }

  /** The count is zero exactly when no dependency is registered, and full
      exactly when every one is. */
  lemma {:induction false} CountRegisteredExtremes(mods: Mods, ds: seq<ModDependency>)
    ensures CountRegistered(mods, ds) == 0 <==> forall k | 0 <= k < |ds| :: !HasKey(mods, ds[k].modId)
    ensures CountRegistered(mods, ds) == |ds| <==> forall k | 0 <= k < |ds| :: HasKey(mods, ds[k].modId)
  {
    if ds != [] {
      CountRegisteredExtremes(mods, ds[1..]);
      assert forall k | 1 <= k < |ds| :: ds[k] == ds[1..][k - 1];
    }
  }

  /** `_mods` sorted by the number of declared dependencies and then, as the
      primary key, by the number of those that are registered: two stable
      `OrderBy`s. */
  function SortedByDependencies(mods: Mods, dependencies: Dependencies): (r: Mods)
    ensures multiset(r) == multiset(mods)
    ensures |r| == |mods|
  {
    var declared := SortBy(mods, (e: (string, ModEntry)) => DeclaredCount(dependencies, e.0));
    SortBy(declared, (e: (string, ModEntry)) => RegisteredCount(mods, dependencies, e.0))
  }

  /** Position of the key `k` in `mods` (`|mods|` when absent). */
  function KeyIndex(mods: Mods, k: string): (i: nat)
    ensures i <= |mods|
    ensures i < |mods| ==> mods[i].0 == k
  {
    if mods == [] then 0 else if mods[0].0 == k then 0 else 1 + KeyIndex(mods[1..], k)
  }

  lemma {:induction false} KeyIndexAt(mods: Mods, i: nat)
    requires UniqueKeys(mods) && i < |mods|
    ensures KeyIndex(mods, mods[i].0) == i
  {
    if i > 0 {
      KeyIndexAt(mods[1..], i - 1);
    }
  }

  /** The order the sort produces: fewer registered dependencies first, then
      fewer declared dependencies, then the earlier position in `_mods`. */
  predicate LoadsBefore(mods: Mods, dependencies: Dependencies, a: (string, ModEntry), b: (string, ModEntry)) {
    var (ra, rb) := (RegisteredCount(mods, dependencies, a.0), RegisteredCount(mods, dependencies, b.0));
    var (da, db) := (DeclaredCount(dependencies, a.0), DeclaredCount(dependencies, b.0));
    ra < rb || (ra == rb && (da < db || (da == db && KeyIndex(mods, a.0) < KeyIndex(mods, b.0))))
  }

  /** The sort is a permutation of `_mods` in the order `LoadsBefore`. */
  lemma SortOrder(mods: Mods, dependencies: Dependencies)
    requires UniqueKeys(mods)
    ensures var r := SortedByDependencies(mods, dependencies);
      && multiset(r) == multiset(mods)
      && forall i, j | 0 <= i < j < |r| :: LoadsBefore(mods, dependencies, r[i], r[j])
  {
    var declared := (e: (string, ModEntry)) => DeclaredCount(dependencies, e.0);
    var registered := (e: (string, ModEntry)) => RegisteredCount(mods, dependencies, e.0);
    var position := (a: (string, ModEntry), b: (string, ModEntry)) => KeyIndex(mods, a.0) < KeyIndex(mods, b.0);
    forall i, j | 0 <= i < j < |mods| ensures position(mods[i], mods[j]) {
      KeyIndexAt(mods, i);
      KeyIndexAt(mods, j);
    }
    SortByOrdered(mods, declared, position);
    SortByOrdered(SortBy(mods, declared), registered, ByKeyThen(declared, position));
  }

  /** Any two positions of the sort are in `LoadsBefore` order. */
  lemma SortedPair(mods: Mods, dependencies: Dependencies, i: nat, j: nat)
    requires UniqueKeys(mods)
    requires i < j < |SortedByDependencies(mods, dependencies)|
    ensures var r := SortedByDependencies(mods, dependencies);
      && LoadsBefore(mods, dependencies, r[i], r[j])
      && RegisteredCount(mods, dependencies, r[i].0) <= RegisteredCount(mods, dependencies, r[j].0)
  {
    SortOrder(mods, dependencies);
  }

  /** Every mod none of whose dependencies is registered loads before every
      mod with a registered dependency. */
  lemma UnconstrainedFirst(mods: Mods, dependencies: Dependencies, i: nat, j: nat)
    requires UniqueKeys(mods)
    requires var r := SortedByDependencies(mods, dependencies);
      i < |r| && j < |r| && RegisteredCount(mods, dependencies, r[i].0) == 0 < RegisteredCount(mods, dependencies, r[j].0)
    ensures i < j
  {
    if j < i {
      SortedPair(mods, dependencies, j, i);
    } else if j == i {
      // one mod cannot have both no and some registered dependencies
    }
  }

  /** Two mods that tie on both counts keep their order in `_mods`. */
  lemma TiesKeepOrder(mods: Mods, dependencies: Dependencies, i: nat, j: nat)
    requires UniqueKeys(mods)
    requires var r := SortedByDependencies(mods, dependencies);
      && i < |r| && j < |r|
      && RegisteredCount(mods, dependencies, r[i].0) == RegisteredCount(mods, dependencies, r[j].0)
      && DeclaredCount(dependencies, r[i].0) == DeclaredCount(dependencies, r[j].0)
      && KeyIndex(mods, r[i].0) < KeyIndex(mods, r[j].0)
    ensures i < j
  {
    if j < i {
      SortedPair(mods, dependencies, j, i);
    } else if j == i {
      // one mod cannot come before itself in `_mods`
    }
  }

  /** The chain `A` requires `B` requires `C`, registered in that order. */
  predicate IsChain(mods: Mods, dependencies: Dependencies) {
    && |mods| == 3 && mods[0].0 == "A" && mods[1].0 == "B" && mods[2].0 == "C"
    && |dependencies| == 2
    && dependencies[0].0 == "A" && |dependencies[0].1| == 1 && dependencies[0].1[0].modId == "B"
    && dependencies[1].0 == "B" && |dependencies[1].1| == 1 && dependencies[1].1[0].modId == "C"
  }

  /** In the chain, `A` and `B` each have one dependency, and it is
      registered. */
  lemma ChainCounts(mods: Mods, dependencies: Dependencies)
    requires IsChain(mods, dependencies)
    ensures UniqueKeys(mods)
    ensures RegisteredCount(mods, dependencies, "A") == 1 == RegisteredCount(mods, dependencies, "B")
    ensures DeclaredCount(dependencies, "A") == 1 == DeclaredCount(dependencies, "B")
    ensures KeyIndex(mods, "A") == 0 && KeyIndex(mods, "B") == 1
  {
    assert "A" != "B" && "B" != "C" && "A" != "C";
    assert dependencies[1..][0] == dependencies[1];
    assert Lookup(dependencies[1..], "B") == Some(dependencies[1].1);
    assert DependenciesOf(dependencies, "A") == dependencies[0].1;
    assert DependenciesOf(dependencies, "B") == dependencies[1].1;
    assert HasKey(mods, mods[1].0) && HasKey(mods, mods[2].0);
    assert mods[1..][0] == mods[1];
  }

  /** The sort is not a topological order: in the chain `A` requires `B`
      requires `C`, with `A` registered before `B`, both have one registered
      dependency of one declared, so `A` still loads before `B`, the mod it
      requires. */
  lemma ChainLoadsDependentFirst(mods: Mods, dependencies: Dependencies, i: nat, j: nat)
    requires IsChain(mods, dependencies)
    requires var r := SortedByDependencies(mods, dependencies);
      i < |r| && j < |r| && r[i].0 == "A" && r[j].0 == "B"
    ensures i < j
  {
    ChainCounts(mods, dependencies);
    TiesKeepOrder(mods, dependencies, i, j);
  }

  // ---------------------------------------------------------------------
  // Loading (`LoadModsInternal`)

  /** `_loadedMods` and `_modInfos`. */
  datatype LoadState<M> = LoadState(loadedMods: seq<(string, M)>, modInfos: seq<(M, ModInfo)>)

  /** Keys unique, and every loaded mod has its info recorded, so the
      `GetModInfo(mod.Value)!` of the report never meets null. */
  ghost predicate LoadValid<M>(st: LoadState<M>) {
    && UniqueKeys(st.loadedMods)
    && UniqueKeys(st.modInfos)
    && forall i | 0 <= i < |st.loadedMods| :: HasKey(st.modInfos, st.loadedMods[i].1)
  }

  /** One entry of `_mods`: create the mod; a failure is caught and the
      entry skipped. `_modInfos.Add` comes first, so an instance already
      recorded throws before anything changes, and an id already loaded
      throws after the info was recorded. */
  function LoadEntry<M(==)>(st: LoadState<M>, key: string, entry: ModEntry, create: ModEntry -> Option<M>): (r: LoadState<M>)
    requires LoadValid(st)
    ensures LoadValid(r)
  {
    match create(entry)
    case None => st
    case Some(m) =>
      if HasKey(st.modInfos, m) then st
      else
        var modInfos := Add(st.modInfos, m, entry.info);
        LoadEntryValid(st, m, entry.info, modInfos);
        if HasKey(st.loadedMods, key) then LoadState(st.loadedMods, modInfos)
        else
          var loadedMods := Add(st.loadedMods, key, m);
          assert HasKey(modInfos, m) by { HasKeyAdd(st.modInfos, m, entry.info, m); }
          LoadState(loadedMods, modInfos)
  }

  lemma LoadEntryValid<M>(st: LoadState<M>, m: M, info: ModInfo, modInfos: seq<(M, ModInfo)>)
    requires LoadValid(st) && !HasKey(st.modInfos, m) && modInfos == st.modInfos + [(m, info)]
    ensures forall i | 0 <= i < |st.loadedMods| :: HasKey(modInfos, st.loadedMods[i].1)
  {
    forall i | 0 <= i < |st.loadedMods| ensures HasKey(modInfos, st.loadedMods[i].1) {
      var j :| 0 <= j < |st.modInfos| && st.modInfos[j].0 == st.loadedMods[i].1;
      assert modInfos[j].0 == st.loadedMods[i].1;
    }
  }

  /** The entries of `_mods` in order. */
  function LoadEntries<M(==)>(st: LoadState<M>, entries: Mods, create: ModEntry -> Option<M>): (r: LoadState<M>)
    requires LoadValid(st)
    ensures LoadValid(r)
  {
    if entries == [] then st
    else
      var last := entries[|entries| - 1];
      LoadEntry(LoadEntries(st, entries[..|entries| - 1], create), last.0, last.1, create)
  }

  lemma LoadEntriesStep<M>(st: LoadState<M>, entries: Mods, i: nat, create: ModEntry -> Option<M>)
    requires LoadValid(st) && i < |entries|
    ensures LoadEntries(st, entries[..i + 1], create)
      == LoadEntry(LoadEntries(st, entries[..i], create), entries[i].0, entries[i].1, create)
  {
    assert entries[..i + 1][..i] == entries[..i];
  }

  /** The mods a factory creates from the entries, with their keys. */
  function Created<M>(entries: Mods, create: ModEntry -> Option<M>): seq<(string, M)> {
    if entries == [] then []
    else
      var last := entries[|entries| - 1];
      Created(entries[..|entries| - 1], create) + (match create(last.1) case Some(m) => [(last.0, m)] case None => [])
  }

  /** The infos of the mods a factory creates. */
  function CreatedInfos<M>(entries: Mods, create: ModEntry -> Option<M>): seq<(M, ModInfo)> {
    if entries == [] then []
    else
      var last := entries[|entries| - 1];
      CreatedInfos(entries[..|entries| - 1], create) + (match create(last.1) case Some(m) => [(m, last.1.info)] case None => [])
  }

  /** The factory gives different entries different instances. */
  ghost predicate DistinctInstances<M>(entries: Mods, create: ModEntry -> Option<M>) {
    forall i, j | 0 <= i < j < |entries| ::
      create(entries[i].1).Some? && create(entries[j].1).Some? ==> create(entries[i].1).value != create(entries[j].1).value
  }

  lemma {:induction false} CreatedKeys<M>(entries: Mods, create: ModEntry -> Option<M>, k: string)
    ensures HasKey(Created(entries, create), k) ==> HasKey(entries, k)
  {
    if entries != [] {
      var init := entries[..|entries| - 1];
      CreatedKeys(init, create, k);
      var c := Created(entries, create);
      if HasKey(c, k) {
        var i :| 0 <= i < |c| && c[i].0 == k;
        if i < |Created(init, create)| {
          assert Created(init, create)[i].0 == k;
          var j :| 0 <= j < |init| && init[j].0 == k;
          assert entries[j].0 == k;
        } else {
          assert entries[|entries| - 1].0 == k;
        }
      }
    }
  }

  lemma {:induction false} CreatedInstances<M>(entries: Mods, create: ModEntry -> Option<M>, m: M)
    ensures HasKey(CreatedInfos(entries, create), m) ==>
      exists j | 0 <= j < |entries| :: create(entries[j].1) == Some(m)
  {
    if entries != [] {
      var init := entries[..|entries| - 1];
      CreatedInstances(init, create, m);
      var c := CreatedInfos(entries, create);
      if HasKey(c, m) {
        var i :| 0 <= i < |c| && c[i].0 == m;
        if i < |CreatedInfos(init, create)| {
          assert CreatedInfos(init, create)[i].0 == m;
          var j :| 0 <= j < |init| && create(init[j].1) == Some(m);
          assert create(entries[j].1) == Some(m);
        }
      }
    }
  }

  /** Loading from nothing, with distinct keys and a factory that never
      hands out the same instance twice, loads exactly the mods the factory
      creates, in `_mods` order, each with its info. */
  lemma {:induction false} LoadFromEmpty<M>(entries: Mods, create: ModEntry -> Option<M>)
    requires UniqueKeys(entries) && DistinctInstances(entries, create)
    ensures LoadEntries(LoadState([], []), entries, create) == LoadState(Created(entries, create), CreatedInfos(entries, create))
  {
    if entries != [] {
      var init, last := entries[..|entries| - 1], entries[|entries| - 1];
      assert UniqueKeys(init);
      assert DistinctInstances(init, create);
      LoadFromEmpty(init, create);
      match create(last.1)
      case None =>
      case Some(m) =>
        assert !HasKey(CreatedInfos(init, create), m) by {
          CreatedInstances(init, create, m);
        }
        assert !HasKey(Created(init, create), last.0) by {
          CreatedKeys(init, create, last.0);
        }
    }
  }

  // ---------------------------------------------------------------------
  // The loader

  class SpectrumLoader<M(==)> {
    /** `_crashOnDependencyError`. */
    const crash: bool
    /** `_mods`, in enumeration order. */
    var mods: Mods
    /** `_dependencies`. */
    var dependencies: Dependencies
    /** `_loadedMods`. */
    var loadedMods: seq<(string, M)>
    /** `_modInfos`, keyed by mod instance. */
    var modInfos: seq<(M, ModInfo)>

    ghost predicate Valid()
      reads this
    {
      RegistryValid(Registry(mods, dependencies)) && LoadValid(LoadState(loadedMods, modInfos))
    }

    constructor(crashOnDependencyError: bool := true)
      ensures crash == crashOnDependencyError
      ensures mods == [] && dependencies == [] && loadedMods == [] && modInfos == []
      ensures Valid()
    {
      crash := crashOnDependencyError;
      mods := [];
      dependencies := [];
      loadedMods := [];
      modInfos := [];
    }

    /** `GetModInfo(mod)`: the info recorded for an instance, or null. */
    function GetModInfo(m: M): (r: Option<ModInfo>)
      reads this
      ensures r.Some? <==> HasKey(modInfos, m)
    {
      Lookup(modInfos, m)
    }

    /** `PreloadAssembly(file)`: registers the types of one assembly. */
    method PreloadAssembly(a: AssemblyRecord) returns (exited: bool)
      requires Valid()
      modifies this
      ensures Valid()
      ensures (Registry(mods, dependencies), exited) == RegisterAll(old(Registry(mods, dependencies)), crash, a.file, a.name, a.types)
      ensures loadedMods == old(loadedMods) && modInfos == old(modInfos)
    {
      var i := 0;
      while i < |a.types|
        invariant 0 <= i <= |a.types|
        invariant RegistryValid(Registry(mods, dependencies))
        invariant RegisterAll(Registry(mods, dependencies), crash, a.file, a.name, a.types[i..])
          == RegisterAll(old(Registry(mods, dependencies)), crash, a.file, a.name, a.types)
        invariant loadedMods == old(loadedMods) && modInfos == old(modInfos)
      {
        var t := a.types[i];
        ghost var reg := Registry(mods, dependencies);
        RegisterAllStep(reg, crash, a.file, a.name, a.types, i);
        if |t.modInfos| == 1 {
          var info := t.modInfos[0];
          var modId := info.modId;
          if HasKey(mods, modId) {
            if crash {
              return true;
            }
          } else {
            RegisterAdds(reg, crash, a.file, a.name, t);
            mods := Add(mods, modId, ModEntry(info, a.file, t.fullName + ", " + a.name));
            if t.dependencies != [] {
              dependencies := Add(dependencies, modId, t.dependencies);
            }
          }
        }
        i := i + 1;
      }
      return false;
    }

    /** `CheckDependencies()`: every declared dependency of every mod, in
      order; it changes nothing. */
    method CheckDependencies() returns (outcome: Outcome)
      requires Valid()
      ensures outcome == Verdict(Statuses(mods, Requirements(mods, dependencies)), crash)
    {
      var i := 0;
      while i < |mods|
        invariant 0 <= i <= |mods|
        invariant Verdict(Statuses(mods, Requirements(mods[i..], dependencies)), crash)
          == Verdict(Statuses(mods, Requirements(mods, dependencies)), crash)
      {
        var declared := DependenciesOf(dependencies, mods[i].0);
        RequirementsStep(mods, dependencies, i);
        VerdictAppend(mods, declared, Requirements(mods[i + 1..], dependencies), crash);
        outcome := CheckDeclared(declared);
        if outcome != Completed {
          return;
        }
        i := i + 1;
      }
      return Completed;
    }

    /** The inner loop of `CheckDependencies`: the declared dependencies of
      one mod, in order. */
    method CheckDeclared(declared: seq<ModDependency>) returns (outcome: Outcome)
      ensures outcome == Verdict(Statuses(mods, declared), crash)
    {
      var j := 0;
      while j < |declared|
        invariant 0 <= j <= |declared|
        invariant Verdict(Statuses(mods, declared[j..]), crash) == Verdict(Statuses(mods, declared), crash)
      {
        var status := DependencyStatus(mods, declared[j]);
        assert declared[j..] == [declared[j]] + declared[j + 1..];
        match status {
          case Satisfied =>
            VerdictPasses(mods, declared[j], declared[j + 1..], crash);
          case Fails(e) =>
            VerdictStops(mods, declared[j], declared[j + 1..], crash);
            return Threw(e);
          case _ =>
            if crash {
              VerdictStops(mods, declared[j], declared[j + 1..], crash);
              return Exited;
            }
            VerdictPasses(mods, declared[j], declared[j + 1..], crash);
        }
        j := j + 1;
      }
      return Completed;
    }

    /** `SortByDependencies()`: `_mods` replaced by its sorted copy. */
    method SortByDependencies()
      requires Valid()
      modifies this
      ensures Valid()
      ensures mods == SortedByDependencies(old(mods), old(dependencies))
      ensures dependencies == old(dependencies) && loadedMods == old(loadedMods) && modInfos == old(modInfos)
    {
      var sorted := SortedByDependencies(mods, dependencies);
      SortKeepsValid(Registry(mods, dependencies), sorted);
      mods := sorted;
    }

    /** `LoadModsInternal()`: creates the mods in `_mods` order, then calls
      `Loaded` on every loaded mod; the instances in the order their hooks
      are called are returned. */
    method LoadModsInternal(create: ModEntry -> Option<M>) returns (notified: seq<M>)
      requires Valid()
      modifies this
      ensures Valid()
      ensures LoadState(loadedMods, modInfos) == LoadEntries(old(LoadState(loadedMods, modInfos)), mods, create)
      ensures notified == Values(loadedMods)
      ensures mods == old(mods) && dependencies == old(dependencies)
    {
      var i := 0;
      while i < |mods|
        invariant 0 <= i <= |mods|
        invariant LoadState(loadedMods, modInfos) == LoadEntries(old(LoadState(loadedMods, modInfos)), mods[..i], create)
        invariant mods == old(mods) && dependencies == old(dependencies)
      {
        LoadEntriesStep(old(LoadState(loadedMods, modInfos)), mods, i, create);
        LoadEntryInPlace(mods[i].0, mods[i].1, create);
        i := i + 1;
      }
      assert mods[..i] == mods;
      notified := NotifyLoaded();
    }

    /** The body of the first loop of `LoadModsInternal`: one entry. */
    method LoadEntryInPlace(key: string, entry: ModEntry, create: ModEntry -> Option<M>)
      requires LoadValid(LoadState(loadedMods, modInfos))
      modifies this
      ensures LoadState(loadedMods, modInfos) == LoadEntry(old(LoadState(loadedMods, modInfos)), key, entry, create)
      ensures mods == old(mods) && dependencies == old(dependencies)
    {
      var created := create(entry);
      if created.Some? {
        var m := created.value;
        if !HasKey(modInfos, m) {
          modInfos := Add(modInfos, m, entry.info);
          if !HasKey(loadedMods, key) {
            loadedMods := Add(loadedMods, key, m);
          }
        }
      }
    }

    /** The second loop of `LoadModsInternal`: the report line and the
      `Loaded` hook of every loaded mod, in `_loadedMods` order. */
    method NotifyLoaded() returns (notified: seq<M>)
      requires LoadValid(LoadState(loadedMods, modInfos))
      ensures notified == Values(loadedMods)
    {
      notified := [];
      var k := 0;
      while k < |loadedMods|
        invariant 0 <= k <= |loadedMods|
        invariant notified == Values(loadedMods[..k])
      {
        // `GetModInfo(mod.Value)!` of the report: never null.
        assert GetModInfo(loadedMods[k].1).Some?;
        assert loadedMods[..k + 1] == loadedMods[..k] + [loadedMods[k]];
        notified := notified + [loadedMods[k].1];
        k := k + 1;
      }
      assert loadedMods[..k] == loadedMods;
    }

    /** `PreloadMods(directory)`, given the assemblies found there:
      registration, then the dependency check, then the sort. An exit or an
      escaping exception ends it where it happens. */
    method PreloadMods(assemblies: seq<AssemblyRecord>) returns (outcome: Outcome)
      requires Valid()
      modifies this
      ensures Valid()
      ensures var (reg, exited) := RegisterAssemblies(old(Registry(mods, dependencies)), crash, assemblies);
        var checked := Verdict(Statuses(reg.mods, Requirements(reg.mods, reg.dependencies)), crash);
        && outcome == (if exited then Exited else checked)
        && dependencies == reg.dependencies
        && mods == (if !exited && checked == Completed then SortedByDependencies(reg.mods, reg.dependencies) else reg.mods)
      ensures loadedMods == old(loadedMods) && modInfos == old(modInfos)
    {
      var n := 0;
      while n < |assemblies|
        invariant 0 <= n <= |assemblies|
        invariant Valid()
        invariant RegisterAssemblies(Registry(mods, dependencies), crash, assemblies[n..])
          == RegisterAssemblies(old(Registry(mods, dependencies)), crash, assemblies)
        invariant loadedMods == old(loadedMods) && modInfos == old(modInfos)
      {
        var a := assemblies[n];
        assert assemblies[n..][1..] == assemblies[n + 1..];
        if IsModAssembly(a) {
          var exited := PreloadAssembly(a);
          if exited {
            return Exited;
          }
        }
        n := n + 1;
      }
      outcome := CheckDependencies();
      if outcome != Completed {
        return;
      }
      SortByDependencies();
    }
  }

  /** Replacing `_mods` by a permutation keeps the registry valid. */
  lemma SortKeepsValid(reg: Registry, sorted: Mods)
    requires RegistryValid(reg)
    requires sorted == SortedByDependencies(reg.mods, reg.dependencies)
    ensures RegistryValid(Registry(sorted, reg.dependencies))
  {
    SortOrder(reg.mods, reg.dependencies);
    forall k | HasKey(reg.mods, k) ensures HasKey(sorted, k) {
      SameEntriesSameKeys(reg.mods, sorted, k);
    }
    PermutationKeepsUniqueKeys(reg.mods, sorted);
  }

  lemma PermutationKeepsUniqueKeys(m: Mods, m': Mods)
    requires UniqueKeys(m) && multiset(m) == multiset(m')
    ensures UniqueKeys(m')
  {
    forall i, j | 0 <= i < j < |m'| ensures m'[i].0 != m'[j].0 {
      if m'[i].0 == m'[j].0 {
        assert m'[i] in multiset(m) && m'[j] in multiset(m);
        var a :| 0 <= a < |m| && m[a] == m'[i];
        var b :| 0 <= b < |m| && m[b] == m'[j];
        if a == b {
          OccursTwice(m', i, j);
          UniqueKeysOccurOnce(m, a);
        }
      }
    }
  }

  lemma OccursTwice<T>(s: seq<T>, i: nat, j: nat)
    requires i < j < |s| && s[i] == s[j]
    ensures multiset(s)[s[i]] >= 2
  {
    assert s == s[..i] + [s[i]] + s[i + 1..j] + [s[j]] + s[j + 1..];
  }

  lemma {:induction false} UniqueKeysOccurOnce(m: Mods, a: nat)
    requires UniqueKeys(m) && a < |m|
    ensures multiset(m)[m[a]] == 1
  {
    if a == 0 {
      assert m == [m[0]] + m[1..];
    } else {
      UniqueKeysOccurOnce(m[1..], a - 1);
      assert m == [m[0]] + m[1..];
      assert m[0] != m[a] by { assert m[0].0 != m[a].0; }
    }
  }
}
