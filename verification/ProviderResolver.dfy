/** The resolver of scripts/kernel_opkg_providers.py, loop by loop: selection of groups, pruning to a
    fixpoint, naming, versions, and the emission of module and capability packages. */
module ProviderResolver {
  import opened Ordering
  import opened ProviderModel
  import opened ProviderLaws

  datatype Refusal = Unrecognized(package: Name) | MissingModule(module_: Name)
  datatype Result<+T> = Ok(value: T) | Err(reason: Refusal)

  // ---------------------------------------------------------------- selection

  method SplitDepends(parts: seq<Part>) returns (deps: seq<Name>, foreign: bool)
    ensures deps == Dependencies(parts)
    ensures foreign <==> exists part :: part in parts && part.ForeignPart?
  {
    deps, foreign := [], false;
    for i := 0 to |parts|
      invariant deps == Dependencies(parts[..i])
      invariant foreign <==> exists part :: part in parts[..i] && part.ForeignPart?
    {
      DependenciesAppend(parts[..i], parts[i]);
      assert parts[..i + 1] == parts[..i] + [parts[i]];
      if parts[i].KmodPart? {
        deps := deps + [parts[i].name];
      } else if parts[i].ForeignPart? {
        foreign := true;
      }
    }
    assert parts[..|parts|] == parts;
  }

  lemma {:induction false} DependenciesAppend(parts: seq<Part>, last: Part)
    ensures Dependencies(parts + [last]) == Dependencies(parts) + if last.KmodPart? then [last.name] else []
  {
    if parts == [] {
      assert parts + [last] == [last];
    } else {
      DependenciesAppend(parts[1..], last);
      assert (parts + [last])[1..] == parts[1..] + [last];
    }
  }

  method Missing(p: Profile, modules: seq<Name>) returns (missing: bool)
    ensures missing <==> exists m :: m in modules && !Present(p, m)
  {
    missing := false;
    for i := 0 to |modules|
      invariant missing <==> exists m :: m in modules[..i] && !Present(p, m)
    {
      if !Present(p, modules[i]) {
        missing := true;
      }
    }
    assert modules[..|modules|] == modules;
  }

  /** Every group is either selected or skipped, and selected exactly if it can be complete. */
  method Select(p: Profile, local: map<Name, Group>) returns (selected: map<Name, Choice>, skipped: set<Name>)
    ensures selected == Candidates(p, local)
    ensures skipped == local.Keys - selected.Keys
  {
    selected, skipped := map[], {};
    var todo := local.Keys;
    while todo != {}
      invariant todo <= local.Keys
      invariant selected == map g | g in local && g !in todo && Eligible(p, local[g])
                              :: Choice(local[g].modules, Dependencies(local[g].depends))
      invariant skipped == set g | g in local && g !in todo && !Eligible(p, local[g])
      decreases todo
    {
      var g :| g in todo;
      todo := todo - {g};
      var group := local[g];
      var missing := Missing(p, group.modules);
      var deps, foreign := SplitDepends(group.depends);
      if group.modules == [] || group.extraFiles || missing || foreign {
        skipped := skipped + {g};
      } else {
        selected := selected[g := Choice(group.modules, deps)];
      }
    }
  }

  // ---------------------------------------------------------------- the pruning loop

  method Unavailable(p: Profile, selected: map<Name, Choice>, deps: seq<Name>) returns (missing: bool)
    ensures missing <==> exists d :: d in deps && d !in selected && d !in p.stock
  {
    missing := false;
    for i := 0 to |deps|
      invariant missing <==> exists d :: d in deps[..i] && d !in selected && d !in p.stock
    {
      if deps[i] !in selected && deps[i] !in p.stock {
        missing := true;
      }
    }
    assert deps[..|deps|] == deps;
  }

  /** Removes groups until nothing changes. Each pass visits the groups in any order, and the set that
      is left does not depend on it: it is the greatest closed set of candidates. */
  method Prune(p: Profile, cs: map<Name, Choice>) returns (selected: map<Name, Choice>, skipped: set<Name>)
    ensures Greatest(p, cs, selected.Keys)
    ensures forall g <- selected :: selected[g] == cs[g]
    ensures skipped == cs.Keys - selected.Keys
  {
    selected, skipped := cs, {};
    var changed := true;
    while changed
      invariant selected.Keys <= cs.Keys && forall g <- selected :: selected[g] == cs[g]
      invariant skipped == cs.Keys - selected.Keys
      invariant forall t: set<Name> | Closed(p, cs, t) :: t <= selected.Keys
      invariant !changed ==> Closed(p, cs, selected.Keys)
      decreases |selected|, changed
    {
      changed := false;
      ghost var before := selected;
      var todo := selected.Keys;
      while todo != {}
        invariant todo <= selected.Keys && selected.Keys <= before.Keys
        invariant selected.Keys <= cs.Keys && forall g <- selected :: selected[g] == cs[g]
        invariant skipped == cs.Keys - selected.Keys
        invariant forall t: set<Name> | Closed(p, cs, t) :: t <= selected.Keys
        invariant if changed then |selected| < |before| else selected == before
        invariant !changed ==>
          forall g <- selected.Keys - todo, d <- cs[g].dependencies :: d in selected || d in p.stock
        decreases todo
      {
        var g :| g in todo;
        todo := todo - {g};
        var missing := Unavailable(p, selected, selected[g].dependencies);
        if missing {
          NeverClosed(p, cs, selected.Keys, g);
          SmallerWithout(selected, g);
          skipped := skipped + {g};
          selected := selected - {g};
          changed := true;
        }
      }
      assert !changed ==> Closed(p, cs, selected.Keys);
    }
  }

  /** A group with a dependency outside a bound of all closed sets is in no closed set. */
  lemma NeverClosed(p: Profile, cs: map<Name, Choice>, bound: set<Name>, g: Name)
    requires g in bound && bound <= cs.Keys
    requires forall t: set<Name> | Closed(p, cs, t) :: t <= bound
    requires exists d :: d in cs[g].dependencies && d !in bound && d !in p.stock
    ensures forall t: set<Name> | Closed(p, cs, t) :: t <= bound - {g}
  {
  }

  lemma SmallerWithout(m: map<Name, Choice>, g: Name)
    requires g in m
    ensures |m - {g}| < |m|
  {
    assert (m - {g}).Keys == m.Keys - {g};
  }

  /** Two closed sets have a closed union, so there is only one greatest closed set. */
  lemma {:induction false} GreatestUnique(p: Profile, cs: map<Name, Choice>, s: set<Name>, t: set<Name>)
    requires Greatest(p, cs, s) && Greatest(p, cs, t)
    ensures s == t
    ensures forall g :: g in s <==> exists u: set<Name> :: Closed(p, cs, u) && g in u
  {
    forall g ensures g in s <==> exists u: set<Name> :: Closed(p, cs, u) && g in u {
      if g in s { assert Closed(p, cs, s); }
    }
  }

  // ---------------------------------------------------------------- plans

  /** One profile's plan; every group ends up either in it or skipped. */
  method MakePlan(p: Profile, groups: map<Name, Group>, ours: set<Name>) returns (plan: Plan, skipped: set<Name>)
    ensures PlanFor(p, LocalGroups(p, groups, ours), plan)
    ensures skipped == LocalGroups(p, groups, ours).Keys - plan.groups.Keys
    // Group by group: the firmware's definition counts where it has one that is not one of our own modules.
    ensures forall g ::
      (g in plan.groups || g in skipped <==>
         g in groups || (g in p.stock && g !in ours && p.stock[g].group.modules != []))
      && !(g in plan.groups && g in skipped)
    ensures forall g <- plan.groups ::
      var firmware := g in p.stock && g !in ours && p.stock[g].group.modules != [];
      (firmware || g in groups) && Describes(if firmware then p.stock[g].group else groups[g], plan.groups[g])
  {
    plan, skipped := PlanLocal(p, LocalGroups(p, groups, ours));
    PlanSays(p, groups, ours, plan);
  }

  method PlanLocal(p: Profile, local: map<Name, Group>) returns (plan: Plan, skipped: set<Name>)
    ensures PlanFor(p, local, plan) && skipped == local.Keys - plan.groups.Keys
    ensures plan.groups.Keys <= local.Keys
  {
    var cs, incomplete := Select(p, local);
    var selected, pruned := Prune(p, cs);
    skipped := incomplete + pruned;
    plan := Plan(selected, Direct(p, selected), Names(p, selected));
  }

  /** What such a plan is, in terms of the groups alone: definitions, completeness, direct providers and names. */
  lemma PlanSays(p: Profile, groups: map<Name, Group>, ours: set<Name>, plan: Plan)
    requires PlanFor(p, LocalGroups(p, groups, ours), plan)
    ensures forall g <- plan.groups ::
      var firmware := g in p.stock && g !in ours && p.stock[g].group.modules != [];
      (firmware || g in groups) && Describes(if firmware then p.stock[g].group else groups[g], plan.groups[g])
    ensures forall g <- plan.groups ::
      && plan.groups[g].modules != []
      && (forall m <- plan.groups[g].modules :: m in p.available || m in p.builtin)
      && (forall d <- plan.groups[g].dependencies :: d in plan.groups || d in p.stock)
    ensures forall g <- plan.groups ::
      var ms := plan.groups[g].modules;
      && (g in plan.direct <==> |ms| == 1 && ms[0] in p.available)
      && (g in plan.direct ==> plan.direct[g] == p.available[ms[0]].package)
      && g in plan.names && plan.names[g] == if g in plan.direct then plan.direct[g]
                                             else if g in p.stock then g + "-" + p.id + "-compat" else g
  {
    var local := LocalGroups(p, groups, ours);
    assert Closed(p, Candidates(p, local), plan.groups.Keys);
    forall g | g in plan.groups ensures Describes(local[g], plan.groups[g]) {
      DependenciesHave(local[g].depends);
    }
  }

  /** And no group is skipped that could be selected: whatever groups are complete together are in the plan. */
  lemma PlanIsLargest(p: Profile, groups: map<Name, Group>, ours: set<Name>, plan: Plan, t: set<Name>)
    requires PlanFor(p, LocalGroups(p, groups, ours), plan)
    requires forall g <- t ::
      var firmware := g in p.stock && g !in ours && p.stock[g].group.modules != [];
      (firmware || g in groups) && CompleteWith(p, if firmware then p.stock[g].group else groups[g], t)
    ensures t <= plan.groups.Keys
  {
    var local := LocalGroups(p, groups, ours);
    var cs := Candidates(p, local);
    forall g | g in t ensures g in cs && forall d <- cs[g].dependencies :: d in t || d in p.stock {
      assert CompleteWith(p, local[g], t);
      CompleteIsCandidate(p, local[g], t);
    }
    assert Closed(p, cs, t);
  }

  lemma CompleteIsCandidate(p: Profile, group: Group, t: set<Name>)
    requires CompleteWith(p, group, t)
    ensures Eligible(p, group) && forall d <- Dependencies(group.depends) :: d in t || d in p.stock
  {
    DependenciesHave(group.depends);
    forall d | d in Dependencies(group.depends) ensures d in t || d in p.stock {
      assert KmodPart(d) in group.depends;
    }
  }

  /** All modules are there, nothing else is asked for, and each dependency is in `t` or a firmware package. */
  ghost predicate CompleteWith(p: Profile, group: Group, t: set<Name>) {
    && group.modules != [] && !group.extraFiles
    && (forall m <- group.modules :: m in p.available || m in p.builtin)
    && (forall part <- group.depends ::
          part == KernelPart || (part.KmodPart? && (part.name in t || part.name in p.stock)))
  }

  /** What was selected is this group: its modules, and those of its dependencies that are capability names. */
  ghost predicate Describes(group: Group, choice: Choice) {
    && choice.modules == group.modules && !group.extraFiles
    && (forall d :: d in choice.dependencies <==> KmodPart(d) in group.depends)
    && (forall part <- group.depends :: part == KernelPart || part.KmodPart?)
  }

  lemma {:induction false} DependenciesHave(parts: seq<Part>)
    ensures forall d :: d in Dependencies(parts) <==> KmodPart(d) in parts
  {
    if parts != [] {
      DependenciesHave(parts[1..]);
      assert parts == [parts[0]] + parts[1..];
    }
  }

  /** A plan asks for no group that is neither selected nor stock: no version lookup can fail. */
  lemma PlanIsSound(p: Profile, local: map<Name, Group>, plan: Plan, versions: map<Name, Version>)
    requires PlanFor(p, local, plan)
    requires forall m <- p.available :: p.available[m].package in versions
    ensures Sound(p, plan, versions)
  {
    var cs := Candidates(p, local);
    assert Closed(p, cs, plan.groups.Keys);
    forall g, m | g in plan.groups && m in plan.groups[g].modules ensures Present(p, m) {
      assert Eligible(p, local[g]);
    }
  }

  // ---------------------------------------------------------------- versions

  /** No package occurs twice, in one profile or in two; the caller has checked that. */
  ghost predicate UniquePackages(ps: seq<Profile>) {
    forall i, j, m, n | 0 <= i < |ps| && 0 <= j < |ps| && m in ps[i].available && n in ps[j].available
                        && ps[i].available[m].package == ps[j].available[n].package
      :: i == j && m == n
  }

  method CollectVersions(ps: seq<Profile>) returns (r: Result<map<Name, Version>>)
    requires UniquePackages(ps)
    ensures r.Ok? ==> VersionsOf(ps, r.value)
    ensures r.Ok? ==> forall p <- ps, m <- p.available ::
      var before := p.available[m].version;
      p.available[m].package in r.value && before.Revised?
      && r.value[p.available[m].package] == Revised(before.upstream, before.revision + 2)
    ensures r.Ok? <==> forall p <- ps, m <- p.available :: p.available[m].version.Revised?
  {
    r := Ok(map[]);
    for i := 0 to |ps|
      invariant r.Ok? && VersionsOf(ps[..i], r.value)
      invariant forall p <- ps[..i], m <- p.available :: p.available[m].version.Revised?
    {
      assert ps[i] in ps;
      forall m <- ps[i].available ensures ps[i].available[m].package !in r.value {
        NotYet(ps, i, r.value, m);
      }
      var before := r.value;
      r := AddVersions(ps[i], before);
      if r.Err? {
        return;
      }
      VersionsGrow(ps, i, before, r.value);
    }
    assert ps[..|ps|] == ps;
  }

  lemma VersionsGrow(ps: seq<Profile>, i: nat, before: map<Name, Version>, after: map<Name, Version>)
    requires i < |ps| && VersionsOf(ps[..i], before) && Added(ps[i], before, after)
    ensures VersionsOf(ps[..i + 1], after)
  {
    var was, now := ps[..i], ps[..i + 1];
    assert now == was + [ps[i]];
    forall p, m | p in now && m in p.available
      ensures p.available[m].package in after && after[p.available[m].package] == Upgraded(p.available[m].version) {
      if p in was {
        assert p.available[m].package in before;
      }
    }
    forall pkg | pkg in after ensures exists q :: q in now && Packaged(q, pkg) {
      if pkg in before {
        var q :| q in was && Packaged(q, pkg);
        assert q in now;
      } else {
        assert ps[i] in now && Packaged(ps[i], pkg);
      }
    }
  }

  /** `after` is `before` with the upgraded versions of one profile's packages. */
  ghost predicate Added(p: Profile, before: map<Name, Version>, after: map<Name, Version>) {
    && (forall pkg <- before :: pkg in after && after[pkg] == before[pkg])
    && (forall pkg <- after :: pkg in before || Packaged(p, pkg))
    && (forall m <- p.available ::
          p.available[m].package in after && after[p.available[m].package] == Upgraded(p.available[m].version))
  }

  method AddVersions(p: Profile, before: map<Name, Version>) returns (r: Result<map<Name, Version>>)
    requires forall m <- p.available :: p.available[m].package !in before
    requires forall m <- p.available, n <- p.available | p.available[m].package == p.available[n].package :: m == n
    ensures r.Ok? ==> Added(p, before, r.value)
    ensures r.Ok? <==> forall m <- p.available :: p.available[m].version.Revised?
  {
    var versions := before;
    var todo := p.available.Keys;
    while todo != {}
      invariant todo <= p.available.Keys
      invariant forall pkg <- before :: pkg in versions && versions[pkg] == before[pkg]
      invariant forall pkg <- versions :: pkg in before || Packaged(p, pkg)
      invariant forall m <- p.available.Keys - todo ::
        p.available[m].version.Revised? && p.available[m].package in versions
        && versions[p.available[m].package] == Upgraded(p.available[m].version)
      decreases todo
    {
      var m :| m in todo;
      todo := todo - {m};
      var src := p.available[m];
      if !src.version.Revised? {
        return Err(Unrecognized(src.package));
      }
      versions := versions[src.package := Upgraded(src.version)];
      assert Packaged(p, src.package);
    }
    return Ok(versions);
  }

  lemma NotYet(ps: seq<Profile>, i: nat, before: map<Name, Version>, m: Name)
    requires UniquePackages(ps) && i < |ps| && VersionsOf(ps[..i], before) && m in ps[i].available
    ensures ps[i].available[m].package !in before
  {
    var pkg := ps[i].available[m].package;
    forall p | p in ps[..i] ensures !Packaged(p, pkg) {
      var k :| 0 <= k < i && ps[k] == p;
    }
  }

  // ---------------------------------------------------------------- emission

  lemma OwnersOf(p: Profile, m: Name, owners: set<Name>)
    requires forall o :: o in owners <==> Owner(p, m, o)
    ensures owners == {} <==> !Owned(p, m)
  {
  }

  /** The dependencies of one module package, and the firmware packages its install guard checks. */
  method EmitModuleDeps(p: Profile, versions: map<Name, Version>, src: Source)
    returns (r: Result<set<Dep>>, stockDeps: set<Name>)
    requires forall m <- p.available :: p.available[m].package in versions
    ensures r.Ok? <==> NeedsMet(p, src)
    ensures r.Ok? ==> r.value == ModuleDeps(p, versions, src)
    ensures forall s <- stockDeps :: s in p.stock
    ensures r.Ok? ==> forall m <- src.needs ::
      m == "" || m in p.builtin || m in p.available || (Owned(p, m) && OwnerOf(p, m) in stockDeps)
  {
    var deps := {};
    stockDeps := {};
    for i := 0 to |src.needs|
      invariant forall m <- src.needs[..i] :: m == "" || m in p.builtin || m in p.available || Owned(p, m)
      invariant deps == set m | m in src.needs[..i] && m != "" && m !in p.builtin :: ModuleDep(p, versions, m)
      invariant forall s <- stockDeps :: s in p.stock
      invariant forall m <- src.needs[..i] ::
        m == "" || m in p.builtin || m in p.available || OwnerOf(p, m) in stockDeps
    {
      var m := src.needs[i];
      assert src.needs[..i + 1] == src.needs[..i] + [m];
      if m != "" && m !in p.builtin {
        if m in p.available {
          deps := deps + {Dep(p.available[m].package, versions[p.available[m].package])};
        } else {
          var owners := set o | o in p.stock && m in p.stock[o].group.modules;
          OwnersOf(p, m, owners);
          if owners == {} {
            return Err(MissingModule(m)), {};
          }
          LeastExists(owners);
          var dep :| dep in owners && forall o <- owners :: Le(dep, o);
          assert Owner(p, m, dep) && LeastOwner(p, m, dep);
          LeastOwnerUnique(p, m, dep, OwnerOf(p, m));
          stockDeps := stockDeps + {dep};
          deps := deps + {Dep(dep, p.stock[dep].version)};
        }
      }
    }
    assert src.needs[..|src.needs|] == src.needs;
    return Ok(deps), stockDeps;
  }

  /** What one group asks of the package that provides it, the package itself left out. */
  function AskedBy(p: Profile, plan: Plan, versions: map<Name, Version>, ds: seq<Name>, pkg: Name): set<Dep>
    requires forall d <- ds :: d in plan.names || d in p.stock
  {
    set d | d in ds && GroupDep(p, plan, versions, d).name != pkg :: GroupDep(p, plan, versions, d)
  }

  method EmitGroupDeps(p: Profile, plan: Plan, versions: map<Name, Version>, ds: seq<Name>, pkg: Name)
      returns (deps: set<Dep>)
    requires forall d <- ds :: d in plan.names || d in p.stock
    ensures deps == AskedBy(p, plan, versions, ds, pkg)
  {
    deps := {};
    for i := 0 to |ds|
      invariant deps == AskedBy(p, plan, versions, ds[..i], pkg)
    {
      assert ds[..i + 1] == ds[..i] + [ds[i]];
      var dep := GroupDep(p, plan, versions, ds[i]);
      if dep.name != pkg {
        deps := deps + {dep};
      }
    }
    assert ds[..|ds|] == ds;
  }

  /** The dependencies of the groups in `done` that the package provides. */
  ghost function CapabilityDepsOf(p: Profile, plan: Plan, versions: map<Name, Version>, pkg: Name, done: set<Name>)
      : set<Dep>
    requires Sound(p, plan, versions) && done <= plan.direct.Keys
  {
    set g, d | g in done && plan.direct[g] == pkg && d in AskedBy(p, plan, versions, plan.groups[g].dependencies, pkg)
      :: d
  }

  lemma OneMoreGroup(p: Profile, plan: Plan, versions: map<Name, Version>, pkg: Name, done: set<Name>, g: Name)
    requires Sound(p, plan, versions) && done <= plan.direct.Keys && g in plan.direct
    ensures CapabilityDepsOf(p, plan, versions, pkg, done + {g})
         == CapabilityDepsOf(p, plan, versions, pkg, done)
          + if plan.direct[g] == pkg then AskedBy(p, plan, versions, plan.groups[g].dependencies, pkg) else {}
  {
  }

  lemma AllGroups(p: Profile, plan: Plan, versions: map<Name, Version>, pkg: Name)
    requires Sound(p, plan, versions)
    ensures CapabilityDepsOf(p, plan, versions, pkg, plan.direct.Keys) == CapabilityDeps(p, plan, versions, pkg)
  {
    var a, b := CapabilityDepsOf(p, plan, versions, pkg, plan.direct.Keys), CapabilityDeps(p, plan, versions, pkg);
    forall x | x in b ensures x in a {
      var g, d :| g in plan.direct && plan.direct[g] == pkg && d in plan.groups[g].dependencies
                  && GroupDep(p, plan, versions, d).name != pkg && x == GroupDep(p, plan, versions, d);
      assert x in AskedBy(p, plan, versions, plan.groups[g].dependencies, pkg);
    }
  }

  /** The dependencies a module package takes over from the groups it provides. */
  method EmitCapabilityDeps(p: Profile, plan: Plan, versions: map<Name, Version>, pkg: Name) returns (deps: set<Dep>)
    requires Sound(p, plan, versions)
    ensures deps == CapabilityDeps(p, plan, versions, pkg)
  {
    deps := {};
    var todo := plan.direct.Keys;
    ghost var done: set<Name> := {};
    while todo != {}
      invariant done == plan.direct.Keys - todo && todo <= plan.direct.Keys
      invariant deps == CapabilityDepsOf(p, plan, versions, pkg, done)
      decreases todo
    {
      var g :| g in todo;
      OneMoreGroup(p, plan, versions, pkg, done, g);
      if plan.direct[g] == pkg {
        var more := EmitGroupDeps(p, plan, versions, plan.groups[g].dependencies, pkg);
        deps := deps + more;
      }
      todo, done := todo - {g}, done + {g};
    }
    assert done == plan.direct.Keys;
    AllGroups(p, plan, versions, pkg);
  }

  /** All module packages of one profile, or the first module dependency nobody owns. */
  method EmitModules(p: Profile, plan: Plan, versions: map<Name, Version>) returns (r: Result<set<Record>>)
    requires Sound(p, plan, versions)
    ensures r.Ok? <==> forall m <- p.available :: NeedsMet(p, p.available[m])
    ensures r.Ok? ==> forall x :: x in r.value <==> IsModule(p, plan, versions, x)
  {
    var records := {};
    var todo := p.available.Keys;
    while todo != {}
      invariant todo <= p.available.Keys
      invariant forall m <- p.available.Keys - todo :: NeedsMet(p, p.available[m])
      invariant forall m <- p.available.Keys - todo :: ModuleRecord(p, plan, versions, m) in records
      invariant forall x <- records ::
        exists m :: m in p.available.Keys - todo && x == ModuleRecord(p, plan, versions, m)
      decreases todo
    {
      var m :| m in todo;
      todo := todo - {m};
      var src := p.available[m];
      var own, _ := EmitModuleDeps(p, versions, src);
      if own.Err? {
        assert !NeedsMet(p, p.available[m]);
        return Err(own.reason);
      }
      var inherited := EmitCapabilityDeps(p, plan, versions, src.package);
      var record := Record(src.package, versions[src.package], src.depends + own.value + inherited,
                           src.offers + set g | g in plan.direct && plan.direct[g] == src.package);
      assert record == ModuleRecord(p, plan, versions, m);
      records := records + {record};
    }
    return Ok(records);
  }

  ghost function Capabilities(p: Profile, plan: Plan, versions: map<Name, Version>, done: set<Name>): set<Record>
    requires Sound(p, plan, versions)
  {
    set g | g in done && HasCapability(p, plan, g) :: CapabilityRecord(p, plan, versions, g)
  }

  lemma OneMoreCapability(p: Profile, plan: Plan, versions: map<Name, Version>, done: set<Name>, g: Name)
    requires Sound(p, plan, versions)
    ensures Capabilities(p, plan, versions, done + {g})
         == Capabilities(p, plan, versions, done)
          + if HasCapability(p, plan, g) then {CapabilityRecord(p, plan, versions, g)} else {}
  {
  }

  lemma AllCapabilities(p: Profile, plan: Plan, versions: map<Name, Version>)
    requires Sound(p, plan, versions)
    ensures forall x :: x in Capabilities(p, plan, versions, plan.groups.Keys) <==> IsCapability(p, plan, versions, x)
  {
  }

  /** All capability packages of one profile. */
  method EmitCapabilities(p: Profile, plan: Plan, versions: map<Name, Version>) returns (records: set<Record>)
    requires Sound(p, plan, versions)
    ensures forall x :: x in records <==> IsCapability(p, plan, versions, x)
  {
    records := {};
    var done: set<Name> := {};
    while plan.groups.Keys - done != {}
      invariant done <= plan.groups.Keys && records == Capabilities(p, plan, versions, done)
      decreases plan.groups.Keys - done
    {
      var g :| g in plan.groups.Keys - done;
      records := EmitNext(p, plan, versions, done, g, records);
      done := done + {g};
    }
    AllDone(plan.groups.Keys, done);
    AllCapabilities(p, plan, versions);
  }

  method EmitNext(p: Profile, plan: Plan, versions: map<Name, Version>, done: set<Name>, g: Name, records: set<Record>)
      returns (more: set<Record>)
    requires Sound(p, plan, versions) && records == Capabilities(p, plan, versions, done)
    ensures more == Capabilities(p, plan, versions, done + {g})
  {
    OneMoreCapability(p, plan, versions, done, g);
    more := records;
    if HasCapability(p, plan, g) {
      var record := EmitCapability(p, plan, versions, g);
      more := more + {record};
    }
  }

  lemma AllDone(all: set<Name>, done: set<Name>)
    requires done <= all && all - done == {}
    ensures done == all
  {
    assert forall g <- all :: g in all - done || g in done;
  }

  method EmitCapability(p: Profile, plan: Plan, versions: map<Name, Version>, g: Name) returns (record: Record)
    requires Sound(p, plan, versions) && HasCapability(p, plan, g)
    ensures record == CapabilityRecord(p, plan, versions, g)
  {
    var choice := plan.groups[g];
    var physical := set m | m in choice.modules && m in p.available
                      :: Dep(p.available[m].package, versions[p.available[m].package]);
    var others := set d | d in choice.dependencies :: GroupDep(p, plan, versions, d);
    record := Record(CapabilityName(p, g), CapabilityVersion(p, g),
                     {Dep("kernel", p.kernel)} + physical + others, if g in p.stock then {g} else {});
  }

  /** One profile's feed: it holds exactly what is to be published, so every emitted dependency can be
      satisfied exactly, unless some module needs another that nobody has. */
  method EmitFeed(p: Profile, local: map<Name, Group>, plan: Plan, ps: seq<Profile>, versions: map<Name, Version>)
    returns (r: Result<set<Record>>)
    requires p in ps && VersionsOf(ps, versions) && PlanFor(p, local, plan)
    requires NamesApart(p, plan, versions)
    ensures Sound(p, plan, versions)
    ensures r.Ok? <==> forall m <- p.available :: NeedsMet(p, p.available[m])
    ensures r.Ok? ==> forall x :: x in r.value <==> Published(p, plan, versions, x)
    ensures r.Ok? && KernelOnly(p) ==> forall x <- r.value, d <- x.deps :: Resolves(p, plan, versions, d)
  {
    PlanIsSound(p, local, plan, versions);
    var modules := EmitModules(p, plan, versions);
    if modules.Err? {
      return modules;
    }
    var capabilities := EmitCapabilities(p, plan, versions);
    r := Ok(modules.value + capabilities);
    if KernelOnly(p) {
      forall x, d | x in r.value && d in x.deps ensures Resolves(p, plan, versions, d) {
        DependenciesResolve(p, plan, versions, x, d);
      }
    }
  }
}
