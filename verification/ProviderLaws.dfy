/** What holds of everything published: dependencies are closed and truthful, and an installation
    closed under them really has the modules whose groups it claims. */
module ProviderLaws {
  import opened Ordering
  import opened ProviderModel

  /** A dependency that can be satisfied: by a record of the same feed with exactly that version, by
      a firmware package with its recorded version, or by the kernel itself. */
  ghost predicate Resolves(p: Profile, plan: Plan, versions: map<Name, Version>, d: Dep)
    requires Sound(p, plan, versions) && forall m <- p.available :: NeedsMet(p, p.available[m])
  {
    || (exists r :: Published(p, plan, versions, r) && r.name == d.name && r.version == d.version)
    || (d.name in p.stock && d.version == p.stock[d.name].version)
    || d == Dep("kernel", p.kernel)
  }

  /** No module package of any profile is named like a capability package of this one. */
  ghost predicate NamesApart(p: Profile, plan: Plan, versions: map<Name, Version>) {
    forall g <- plan.groups :: CapabilityName(p, g) !in versions
  }

  ghost predicate Setting(p: Profile, plan: Plan, versions: map<Name, Version>) {
    && Sound(p, plan, versions) && (forall m <- p.available :: NeedsMet(p, p.available[m]))
    && NamesApart(p, plan, versions) && KernelOnly(p)
  }

  /** The selected group `g` has a published package under the name and version others require. */
  lemma {:induction false} NamedGroupIsPublished(p: Profile, plan: Plan, versions: map<Name, Version>, g: Name)
      returns (r: Record)
    requires Setting(p, plan, versions) && g in plan.groups
    ensures Published(p, plan, versions, r) && Represents(p, plan, r, g)
    ensures r.name == GroupDep(p, plan, versions, g).name && r.version == GroupDep(p, plan, versions, g).version
  {
    if g in plan.direct {
      var m := plan.groups[g].modules[0];
      r := ModuleRecord(p, plan, versions, m);
      assert IsModule(p, plan, versions, r);
    } else {
      r := CapabilityRecord(p, plan, versions, g);
      assert IsCapability(p, plan, versions, r);
    }
  }

  /** Every dependency the resolver emits can be satisfied exactly. */
  lemma {:induction false} DependenciesResolve(p: Profile, plan: Plan, versions: map<Name, Version>, r: Record, d: Dep)
    requires Setting(p, plan, versions) && Published(p, plan, versions, r) && d in r.deps
    ensures Resolves(p, plan, versions, d)
  {
    if m :| m in p.available && r == ModuleRecord(p, plan, versions, m) {
      ModuleDepResolves(p, plan, versions, m, d);
    } else {
      var g :| HasCapability(p, plan, g) && r == CapabilityRecord(p, plan, versions, g);
      CapabilityResolves(p, plan, versions, g, d);
    }
  }

  lemma {:induction false} ModuleDepResolves(p: Profile, plan: Plan, versions: map<Name, Version>, m: Name, d: Dep)
    requires Setting(p, plan, versions) && m in p.available && d in ModuleRecord(p, plan, versions, m).deps
    ensures Resolves(p, plan, versions, d)
  {
    if d in p.available[m].depends {
      assert d == Dep("kernel", p.kernel);
    } else if d in ModuleDeps(p, versions, p.available[m]) {
      var n :| n in p.available[m].needs && n != "" && n !in p.builtin && d == ModuleDep(p, versions, n);
      if n in p.available {
        ModuleResolves(p, plan, versions, n);
      }
    } else {
      var g, e :| g in plan.direct && e in plan.groups[g].dependencies && d == GroupDep(p, plan, versions, e);
      GroupDepResolves(p, plan, versions, e);
    }
  }

  lemma ModuleResolves(p: Profile, plan: Plan, versions: map<Name, Version>, m: Name)
    requires Setting(p, plan, versions) && m in p.available
    ensures Resolves(p, plan, versions, Dep(p.available[m].package, versions[p.available[m].package]))
  {
    var r := ModuleRecord(p, plan, versions, m);
    assert IsModule(p, plan, versions, r);
  }

  lemma CapabilityResolves(p: Profile, plan: Plan, versions: map<Name, Version>, g: Name, d: Dep)
    requires Setting(p, plan, versions) && HasCapability(p, plan, g)
    requires d in CapabilityRecord(p, plan, versions, g).deps
    ensures Resolves(p, plan, versions, d)
  {
    if d != Dep("kernel", p.kernel) {
      if m :| m in plan.groups[g].modules && m in p.available
              && d == Dep(p.available[m].package, versions[p.available[m].package]) {
        ModuleResolves(p, plan, versions, m);
      } else {
        var e :| e in plan.groups[g].dependencies && d == GroupDep(p, plan, versions, e);
        GroupDepResolves(p, plan, versions, e);
      }
    }
  }

  lemma GroupDepResolves(p: Profile, plan: Plan, versions: map<Name, Version>, e: Name)
    requires Setting(p, plan, versions) && (e in plan.names || e in p.stock)
    ensures Resolves(p, plan, versions, GroupDep(p, plan, versions, e))
  {
    if e in plan.names {
      var r := NamedGroupIsPublished(p, plan, versions, e);
    }
  }

  // ---------------------------------------------------------------- installations

  /** What is installed, as identities. */
  type Installation = set<Dep>

  ghost predicate Installed(i: Installation, r: Record) {
    Dep(r.name, r.version) in i
  }

  /** OPKG installs nothing without its exact dependencies. */
  ghost predicate ClosedUnder(p: Profile, plan: Plan, versions: map<Name, Version>, i: Installation)
    requires Sound(p, plan, versions) && forall m <- p.available :: NeedsMet(p, p.available[m])
  {
    forall r | Published(p, plan, versions, r) && Installed(i, r) :: r.deps <= i
  }

  ghost predicate HasModule(p: Profile, versions: map<Name, Version>, i: Installation, m: Name)
    requires forall n <- p.available :: p.available[n].package in versions
  {
    m in p.builtin || (m in p.available && Dep(p.available[m].package, versions[p.available[m].package]) in i)
  }

  /** The package stands for group `g`: it provides it, or it is the capability package of that name. */
  ghost predicate Represents(p: Profile, plan: Plan, r: Record, g: Name) {
    g in r.offers || (HasCapability(p, plan, g) && g !in p.stock && r.name == g)
  }

  ghost predicate Step(p: Profile, plan: Plan, g: Name, h: Name) {
    g in plan.groups && h in plan.groups && h in plan.groups[g].dependencies
  }

  /** A chain of dependencies between selected groups. */
  ghost predicate Path(p: Profile, plan: Plan, path: seq<Name>) {
    |path| > 0 && path[0] in plan.groups && forall k | 0 <= k < |path| - 1 :: Step(p, plan, path[k], path[k + 1])
  }

  /** The record representing a group is the one module package or the one capability package of it. */
  lemma {:induction false} RepresentsWhat(p: Profile, plan: Plan, versions: map<Name, Version>, r: Record, g: Name)
    requires Setting(p, plan, versions) && Distinct(p, plan)
    requires Published(p, plan, versions, r) && Represents(p, plan, r, g)
    ensures g in plan.groups
    ensures (g in plan.direct && r.name == plan.direct[g]
             && exists m :: m in p.available && r == ModuleRecord(p, plan, versions, m))
         || (HasCapability(p, plan, g) && r == CapabilityRecord(p, plan, versions, g))
  {
    if m :| m in p.available && r == ModuleRecord(p, plan, versions, m) {
      ModuleStandsFor(p, plan, versions, m, g);
    } else {
      var h :| HasCapability(p, plan, h) && r == CapabilityRecord(p, plan, versions, h);
      CapabilityStandsFor(p, plan, versions, h, g);
    }
  }

  /** A capability package stands for its own group only. */
  lemma {:induction false} CapabilityStandsFor(p: Profile, plan: Plan, versions: map<Name, Version>, h: Name, g: Name)
    requires Setting(p, plan, versions) && Distinct(p, plan) && HasCapability(p, plan, h)
    requires Represents(p, plan, CapabilityRecord(p, plan, versions, h), g)
    ensures g == h
  {
    var r := CapabilityRecord(p, plan, versions, h);
    if g !in r.offers {
      assert CapabilityName(p, g) == g == r.name == CapabilityName(p, h);
    }
  }

  /** A module package stands for the groups it directly provides. */
  lemma {:induction false} ModuleStandsFor(p: Profile, plan: Plan, versions: map<Name, Version>, m: Name, g: Name)
    requires Setting(p, plan, versions) && m in p.available
    requires Represents(p, plan, ModuleRecord(p, plan, versions, m), g)
    ensures g in plan.groups && g in plan.direct && p.available[m].package == plan.direct[g]
  {
  }

  /** Capability packages of different groups have different names. */
  ghost predicate Distinct(p: Profile, plan: Plan) {
    forall g, h | g in plan.groups && h in plan.groups && CapabilityName(p, g) == CapabilityName(p, h) :: g == h
  }

  /** An installed package that stands for a group comes with every module of that group, and with an
      installed package standing for each selected group it depends on. */
  lemma {:induction false} RepresentedGroupHolds(p: Profile, plan: Plan, versions: map<Name, Version>,
                                                 i: Installation, r: Record, g: Name)
    requires Setting(p, plan, versions) && Distinct(p, plan) && ClosedUnder(p, plan, versions, i)
    requires Published(p, plan, versions, r) && Installed(i, r) && Represents(p, plan, r, g)
    ensures GroupHolds(p, plan, versions, i, g)
  {
    RepresentsWhat(p, plan, versions, r, g);
    if HasCapability(p, plan, g) && r == CapabilityRecord(p, plan, versions, g) {
      CapabilityHolds(p, plan, versions, i, g);
    } else {
      DirectHolds(p, plan, versions, i, r, g);
    }
  }

  ghost predicate GroupHolds(p: Profile, plan: Plan, versions: map<Name, Version>, i: Installation, g: Name)
    requires Sound(p, plan, versions)
  {
    && g in plan.groups
    && (forall m <- plan.groups[g].modules :: HasModule(p, versions, i, m))
    && (forall h | Step(p, plan, g, h) :: GroupDep(p, plan, versions, h) in i)
  }

  lemma CapabilityHolds(p: Profile, plan: Plan, versions: map<Name, Version>, i: Installation, g: Name)
    requires Setting(p, plan, versions) && HasCapability(p, plan, g)
    requires CapabilityRecord(p, plan, versions, g).deps <= i
    ensures GroupHolds(p, plan, versions, i, g)
  {
    var deps := CapabilityRecord(p, plan, versions, g).deps;
    forall m | m in plan.groups[g].modules ensures HasModule(p, versions, i, m) {
      assert Present(p, m);
      if m in p.available {
        var d := Dep(p.available[m].package, versions[p.available[m].package]);
        assert d in deps;
      }
    }
    forall h | Step(p, plan, g, h) ensures GroupDep(p, plan, versions, h) in i {
      assert GroupDep(p, plan, versions, h) in deps;
    }
  }

  lemma DirectHolds(p: Profile, plan: Plan, versions: map<Name, Version>, i: Installation, r: Record, g: Name)
    requires Setting(p, plan, versions) && g in plan.direct && r.name == plan.direct[g]
    requires r.version == versions[r.name] && Installed(i, r)
    requires CapabilityDeps(p, plan, versions, r.name) <= i
    ensures GroupHolds(p, plan, versions, i, g)
  {
    assert plan.groups[g].modules == [plan.groups[g].modules[0]];
    forall h | Step(p, plan, g, h) ensures GroupDep(p, plan, versions, h) in i {
      var d := GroupDep(p, plan, versions, h);
      if d.name != r.name {
        assert d in CapabilityDeps(p, plan, versions, r.name);
      }
    }
  }

  /** Truth of capabilities: if an installed package stands for a group, then every module of every
      selected group reachable from it is builtin or installed. */
  lemma {:induction false} CapabilitiesAreTrue(p: Profile, plan: Plan, versions: map<Name, Version>, i: Installation,
                                               r: Record, path: seq<Name>)
    requires Setting(p, plan, versions) && Distinct(p, plan) && ClosedUnder(p, plan, versions, i)
    requires Path(p, plan, path)
    requires Published(p, plan, versions, r) && Installed(i, r) && Represents(p, plan, r, path[0])
    ensures path[|path| - 1] in plan.groups
    ensures forall m <- plan.groups[path[|path| - 1]].modules :: HasModule(p, versions, i, m)
    decreases |path|
  {
    RepresentedGroupHolds(p, plan, versions, i, r, path[0]);
    if |path| > 1 {
      assert Step(p, plan, path[0], path[1]);
      var next := NamedGroupIsPublished(p, plan, versions, path[1]);
      assert Installed(i, next);
      var rest := path[1..];
      assert forall k | 0 <= k < |rest| - 1 :: Step(p, plan, rest[k], rest[k + 1]) by {
        forall k | 0 <= k < |rest| - 1 ensures Step(p, plan, rest[k], rest[k + 1]) {
          assert Step(p, plan, path[k + 1], path[k + 2]);
        }
      }
      CapabilitiesAreTrue(p, plan, versions, i, next, rest);
    }
  }

  /** Truth of module dependencies: whatever an installed module needs is builtin, installed, or part
      of a firmware package that is required with its recorded version. */
  lemma {:induction false} ModuleNeedsAreMet(p: Profile, plan: Plan, versions: map<Name, Version>, i: Installation,
                                             m: Name, n: Name)
    requires Setting(p, plan, versions) && ClosedUnder(p, plan, versions, i)
    requires m in p.available && Dep(p.available[m].package, versions[p.available[m].package]) in i
    requires n in p.available[m].needs && n != ""
    ensures HasModule(p, versions, i, n)
         || exists s :: Owner(p, n, s) && Dep(s, p.stock[s].version) in i
  {
    var r := ModuleRecord(p, plan, versions, m);
    assert IsModule(p, plan, versions, r) && Installed(i, r);
    if n !in p.builtin {
      assert ModuleDep(p, versions, n) in ModuleDeps(p, versions, p.available[m]);
      assert ModuleDep(p, versions, n) in r.deps;
      if n !in p.available {
        assert Owner(p, n, OwnerOf(p, n));
      }
    }
  }

  // ---------------------------------------------------------------- the published packages, field by field

  /** An exact dependency that answers one of the module's needs: on the package of that module, or on the first
      firmware package in order that has it. */
  ghost predicate AnswersNeed(p: Profile, versions: map<Name, Version>, src: Source, d: Dep)
    requires forall m <- p.available :: p.available[m].package in versions
  {
    exists n :: n in src.needs && n != "" && n !in p.builtin
      && if n in p.available then d == Dep(p.available[n].package, versions[p.available[n].package])
         else IsFirst(p, n, d.name) && d.version == p.stock[d.name].version
  }

  ghost predicate IsFirst(p: Profile, n: Name, o: Name) {
    && o in p.stock && n in p.stock[o].group.modules
    && forall q | q in p.stock && n in p.stock[q].group.modules :: Le(o, q)
  }

  /** The exact dependency by which others ask for group `e`. */
  ghost predicate AsksFor(p: Profile, plan: Plan, versions: map<Name, Version>, e: Name, d: Dep)
    requires e in plan.names || e in p.stock
  {
    if e !in plan.names then d == Dep(e, p.stock[e].version)
    else d.name == plan.names[e]
         && d.version == if d.name in versions then versions[d.name] else Revised(p.base, if e in p.stock then 2 else 3)
  }

  /** Some group that the package directly provides asks for this. */
  ghost predicate AskedThrough(p: Profile, plan: Plan, versions: map<Name, Version>, pkg: Name, d: Dep)
    requires Sound(p, plan, versions)
  {
    exists g, e :: g in plan.direct && plan.direct[g] == pkg && e in plan.groups[g].dependencies
      && AsksFor(p, plan, versions, e, d)
  }

  /** The package of a module: it keeps its name and what it came with, and gets exact dependencies on what its
      module needs and on what the groups it directly provides ask for. */
  lemma ModulePackage(p: Profile, plan: Plan, versions: map<Name, Version>, m: Name, d: Dep) returns (r: Record)
    requires Sound(p, plan, versions) && (forall n <- p.available :: NeedsMet(p, p.available[n])) && m in p.available
    ensures Published(p, plan, versions, r)
    ensures r.name == p.available[m].package && r.version == versions[p.available[m].package]
    ensures forall n :: n in r.offers <==>
      n in p.available[m].offers || (n in plan.direct && plan.direct[n] == p.available[m].package)
    ensures d in r.deps <==>
      || d in p.available[m].depends
      || AnswersNeed(p, versions, p.available[m], d)
      || (d.name != r.name && AskedThrough(p, plan, versions, r.name, d))
  {
    r := ModuleRecord(p, plan, versions, m);
    assert IsModule(p, plan, versions, r);
    ModuleDepsHave(p, versions, p.available[m], d);
    CapabilityDepsHave(p, plan, versions, p.available[m].package, d);
  }

  lemma ModuleDepsHave(p: Profile, versions: map<Name, Version>, src: Source, d: Dep)
    requires (forall m <- p.available :: p.available[m].package in versions) && NeedsMet(p, src)
    ensures d in ModuleDeps(p, versions, src) <==> AnswersNeed(p, versions, src, d)
  {
    forall n | n in src.needs && n != "" && n !in p.builtin && n !in p.available
      ensures OwnerOf(p, n) in p.stock && (d.name == OwnerOf(p, n) <==> IsFirst(p, n, d.name))
    {
      OwnerIs(p, n, d.name);
    }
  }

  lemma OwnerIs(p: Profile, n: Name, o: Name)
    requires Owned(p, n)
    ensures OwnerOf(p, n) in p.stock && (o == OwnerOf(p, n) <==> IsFirst(p, n, o))
  {
    var least := OwnerOf(p, n);
    assert LeastOwner(p, n, least);
    if IsFirst(p, n, o) {
      assert LeastOwner(p, n, o);
      LeastOwnerUnique(p, n, o, least);
    }
  }

  lemma {:induction false} CapabilityDepsHave(p: Profile, plan: Plan, versions: map<Name, Version>, pkg: Name, d: Dep)
    requires Sound(p, plan, versions)
    ensures d in CapabilityDeps(p, plan, versions, pkg) <==>
      d.name != pkg && AskedThrough(p, plan, versions, pkg, d)
  {
    if d in CapabilityDeps(p, plan, versions, pkg) {
      var g, e :| g in plan.direct && plan.direct[g] == pkg && e in plan.groups[g].dependencies
                  && GroupDep(p, plan, versions, e).name != pkg && d == GroupDep(p, plan, versions, e);
      AskedIs(p, plan, versions, e, d);
    }
    forall e | (e in plan.names || e in p.stock) && AsksFor(p, plan, versions, e, d)
      ensures d == GroupDep(p, plan, versions, e) {
      AskedIs(p, plan, versions, e, d);
    }
  }

  lemma AskedIs(p: Profile, plan: Plan, versions: map<Name, Version>, e: Name, d: Dep)
    requires e in plan.names || e in p.stock
    ensures AsksFor(p, plan, versions, e, d) <==> d == GroupDep(p, plan, versions, e)
  {
  }

  /** The package of a group's own: name and version by what the firmware has, exact dependencies on the kernel,
      on its module packages and on the groups it depends on. */
  lemma CapabilityPackage(p: Profile, plan: Plan, versions: map<Name, Version>, g: Name, d: Dep) returns (r: Record)
    requires Sound(p, plan, versions) && (forall n <- p.available :: NeedsMet(p, p.available[n]))
    requires g in plan.groups && !(g in plan.direct && g in p.stock)
    ensures Published(p, plan, versions, r)
    ensures r.name == (if g in p.stock then g + "-" + p.id + "-compat" else g)
    ensures r.version == Revised(p.base, if g in p.stock then 2 else 3)
    ensures r.offers == if g in p.stock then {g} else {}
    ensures d in r.deps <==>
      || d == Dep("kernel", p.kernel)
      || (exists m :: m in plan.groups[g].modules && m in p.available
            && d == Dep(p.available[m].package, versions[p.available[m].package]))
      || (exists e :: e in plan.groups[g].dependencies && AsksFor(p, plan, versions, e, d))
  {
    r := CapabilityRecord(p, plan, versions, g);
    assert HasCapability(p, plan, g);
    assert IsCapability(p, plan, versions, r);
    forall e | e in plan.groups[g].dependencies
      ensures AsksFor(p, plan, versions, e, d) <==> d == GroupDep(p, plan, versions, e) {
      AskedIs(p, plan, versions, e, d);
    }
  }

  /** And nothing else is published. */
  lemma NothingElse(p: Profile, plan: Plan, versions: map<Name, Version>, r: Record)
    requires Sound(p, plan, versions) && (forall n <- p.available :: NeedsMet(p, p.available[n]))
    requires Published(p, plan, versions, r)
    ensures (exists m :: m in p.available && r.name == p.available[m].package)
         || (exists g :: g in plan.groups && !(g in plan.direct && g in p.stock)
               && r.name == if g in p.stock then g + "-" + p.id + "-compat" else g)
  {
    if !IsModule(p, plan, versions, r) {
      var g :| HasCapability(p, plan, g) && r == CapabilityRecord(p, plan, versions, g);
      assert g in plan.groups && CapabilityName(p, g) == r.name;
    }
  }
}
