/** The facts scripts/kernel_opkg_providers.py works from, and what it is to publish for each firmware
    profile: capability groups, the names they get, and the exact-version dependencies. */
module ProviderModel {
  import opened Ordering

  type Name = string

  /** A package version `upstream-revision`, or a text without a numeric revision. */
  datatype Version = Revised(upstream: string, revision: nat) | Other(text: string)

  const POLICY: nat := 2

  /** One comma-separated part of a group's dependency field. */
  datatype Part = KernelPart | KmodPart(name: Name) | ForeignPart(text: string)

  datatype Group = Group(modules: seq<Name>, extraFiles: bool, depends: seq<Part>)

  /** A package of the firmware itself. */
  datatype Stock = Stock(group: Group, version: Version)

  /** A verified single-module package: what its control file depends on and provides already, and its
      module's own dependencies. */
  datatype Source = Source(package: Name, version: Version, depends: set<Dep>, offers: set<Name>, needs: seq<Name>)

  datatype Profile = Profile(id: string, base: string, kernel: Version, builtin: set<Name>,
                             available: map<Name, Source>, stock: map<Name, Stock>)

  /** A group that survived selection. */
  datatype Choice = Choice(modules: seq<Name>, dependencies: seq<Name>)

  datatype Plan = Plan(groups: map<Name, Choice>, direct: map<Name, Name>, names: map<Name, Name>)

  datatype Dep = Dep(name: Name, version: Version)

  /** A published package: a module package, or a capability package standing for a group. */
  datatype Record = Record(name: Name, version: Version, deps: set<Dep>, offers: set<Name>)

  // ---------------------------------------------------------------- selection

  function Dependencies(parts: seq<Part>): seq<Name> {
    if parts == [] then []
    else (if parts[0].KmodPart? then [parts[0].name] else []) + Dependencies(parts[1..])
  }

  predicate Present(p: Profile, m: Name) {
    m in p.available || m in p.builtin
  }

  predicate Eligible(p: Profile, g: Group) {
    && g.modules != [] && !g.extraFiles
    && (forall m <- g.modules :: Present(p, m))
    && (forall part <- g.depends :: !part.ForeignPart?)
  }

  /** The common groups, overruled by firmware packages that are not our own modules. */
  function LocalGroups(p: Profile, groups: map<Name, Group>, ours: set<Name>): map<Name, Group> {
    groups + map g | g in p.stock && g !in ours && p.stock[g].group.modules != [] :: p.stock[g].group
  }

  function Candidates(p: Profile, local: map<Name, Group>): map<Name, Choice> {
    map g | g in local && Eligible(p, local[g]) :: Choice(local[g].modules, Dependencies(local[g].depends))
  }

  /** Every dependency of a member is a member or a firmware package. */
  ghost predicate Closed(p: Profile, cs: map<Name, Choice>, s: set<Name>) {
    s <= cs.Keys && forall g <- s, d <- cs[g].dependencies :: d in s || d in p.stock
  }

  /** The largest closed set of candidates; it contains every other one. */
  ghost predicate Greatest(p: Profile, cs: map<Name, Choice>, s: set<Name>) {
    Closed(p, cs, s) && forall t: set<Name> | Closed(p, cs, t) :: t <= s
  }

  // ---------------------------------------------------------------- naming

  function Direct(p: Profile, groups: map<Name, Choice>): map<Name, Name> {
    map g | g in groups && |groups[g].modules| == 1 && groups[g].modules[0] in p.available
      :: p.available[groups[g].modules[0]].package
  }

  function CapabilityName(p: Profile, g: Name): Name {
    if g in p.stock then g + "-" + p.id + "-compat" else g
  }

  function CapabilityVersion(p: Profile, g: Name): Version {
    Revised(p.base, if g in p.stock then POLICY else POLICY + 1)
  }

  function Names(p: Profile, groups: map<Name, Choice>): map<Name, Name> {
    map g | g in groups :: if g in Direct(p, groups) then Direct(p, groups)[g] else CapabilityName(p, g)
  }

  ghost predicate PlanFor(p: Profile, local: map<Name, Group>, plan: Plan) {
    var cs := Candidates(p, local);
    && Greatest(p, cs, plan.groups.Keys)
    && (forall g <- plan.groups :: plan.groups[g] == cs[g])
    && plan.direct == Direct(p, plan.groups) && plan.names == Names(p, plan.groups)
  }

  // ---------------------------------------------------------------- versions and dependencies

  function Upgraded(v: Version): Version {
    if v.Revised? then Revised(v.upstream, v.revision + POLICY) else v
  }

  ghost predicate Packaged(p: Profile, pkg: Name) {
    exists m :: m in p.available && p.available[m].package == pkg
  }

  /** The upgraded version of every module package, over all profiles at once. */
  ghost predicate VersionsOf(ps: seq<Profile>, versions: map<Name, Version>) {
    && (forall p <- ps, m <- p.available ::
          p.available[m].package in versions
          && versions[p.available[m].package] == Upgraded(p.available[m].version))
    && (forall pkg <- versions :: exists p :: p in ps && Packaged(p, pkg))
  }

  ghost predicate Owner(p: Profile, m: Name, pkg: Name) {
    pkg in p.stock && m in p.stock[pkg].group.modules
  }

  ghost predicate LeastOwner(p: Profile, m: Name, pkg: Name) {
    Owner(p, m, pkg) && forall o | Owner(p, m, o) :: Le(pkg, o)
  }

  ghost predicate Owned(p: Profile, m: Name) {
    exists pkg :: Owner(p, m, pkg)
  }

  lemma LeastOwnerExists(p: Profile, m: Name)
    requires Owned(p, m)
    ensures exists pkg :: LeastOwner(p, m, pkg)
  {
    var owners := set o | o in p.stock && m in p.stock[o].group.modules;
    var some :| Owner(p, m, some);
    assert some in owners;
    LeastExists(owners);
    var pkg :| Least(pkg, owners);
    assert LeastOwner(p, m, pkg);
  }

  lemma LeastOwnerUnique(p: Profile, m: Name, a: Name, b: Name)
    requires LeastOwner(p, m, a) && LeastOwner(p, m, b)
    ensures a == b
  {
    LeAntisymmetric(a, b);
  }

  ghost function OwnerOf(p: Profile, m: Name): Name
    requires Owned(p, m)
  {
    LeastOwnerExists(p, m);
    var pkg :| LeastOwner(p, m, pkg);
    pkg
  }

  /** What a module package depends on for one of its module's own dependencies. */
  ghost function ModuleDep(p: Profile, versions: map<Name, Version>, m: Name): Dep
    requires m in p.available ==> p.available[m].package in versions
    requires m in p.available || Owned(p, m)
  {
    if m in p.available then Dep(p.available[m].package, versions[p.available[m].package])
    else Dep(OwnerOf(p, m), p.stock[OwnerOf(p, m)].version)
  }

  /** How a selected group is required by others. */
  function GroupDep(p: Profile, plan: Plan, versions: map<Name, Version>, d: Name): Dep
    requires d in plan.names || d in p.stock
  {
    if d in plan.names then
      var name := plan.names[d];
      Dep(name, if name in versions then versions[name] else CapabilityVersion(p, d))
    else Dep(d, p.stock[d].version)
  }

  /** The packages that come in depend on nothing but the kernel, and provide nothing. */
  ghost predicate KernelOnly(p: Profile) {
    forall m <- p.available :: p.available[m].depends <= {Dep("kernel", p.kernel)} && p.available[m].offers == {}
  }

  ghost predicate NeedsMet(p: Profile, src: Source) {
    forall m <- src.needs :: m == "" || m in p.builtin || m in p.available || Owned(p, m)
  }

  ghost predicate Sound(p: Profile, plan: Plan, versions: map<Name, Version>) {
    && (forall m <- p.available :: p.available[m].package in versions)
    && plan.direct == Direct(p, plan.groups) && plan.names == Names(p, plan.groups)
    && (forall g <- plan.groups, d <- plan.groups[g].dependencies :: d in plan.names || d in p.stock)
    && (forall g <- plan.groups, m <- plan.groups[g].modules :: Present(p, m))
  }

  ghost function ModuleDeps(p: Profile, versions: map<Name, Version>, src: Source): set<Dep>
    requires (forall m <- p.available :: p.available[m].package in versions) && NeedsMet(p, src)
  {
    set m | m in src.needs && m != "" && m !in p.builtin :: ModuleDep(p, versions, m)
  }

  ghost function CapabilityDeps(p: Profile, plan: Plan, versions: map<Name, Version>, pkg: Name): set<Dep>
    requires Sound(p, plan, versions)
  {
    set g, d | g in plan.direct && plan.direct[g] == pkg && d in plan.groups[g].dependencies
               && GroupDep(p, plan, versions, d).name != pkg
      :: GroupDep(p, plan, versions, d)
  }

  ghost function ModuleRecord(p: Profile, plan: Plan, versions: map<Name, Version>, m: Name): Record
    requires Sound(p, plan, versions) && m in p.available && NeedsMet(p, p.available[m])
  {
    var src := p.available[m];
    Record(src.package, versions[src.package],
           src.depends + ModuleDeps(p, versions, src) + CapabilityDeps(p, plan, versions, src.package),
           src.offers + set g | g in plan.direct && plan.direct[g] == src.package)
  }

  /** A group gets a package of its own unless a module package provides it under a firmware name. */
  predicate HasCapability(p: Profile, plan: Plan, g: Name) {
    g in plan.groups && !(g in plan.direct && g in p.stock)
  }

  ghost function CapabilityRecord(p: Profile, plan: Plan, versions: map<Name, Version>, g: Name): Record
    requires Sound(p, plan, versions) && HasCapability(p, plan, g)
  {
    Record(CapabilityName(p, g), CapabilityVersion(p, g),
           {Dep("kernel", p.kernel)}
           + (set m | m in plan.groups[g].modules && m in p.available
                :: Dep(p.available[m].package, versions[p.available[m].package]))
           + (set d | d in plan.groups[g].dependencies :: GroupDep(p, plan, versions, d)),
           if g in p.stock then {g} else {})
  }

  ghost predicate IsModule(p: Profile, plan: Plan, versions: map<Name, Version>, r: Record)
    requires Sound(p, plan, versions) && forall m <- p.available :: NeedsMet(p, p.available[m])
  {
    exists m :: m in p.available && r == ModuleRecord(p, plan, versions, m)
  }

  ghost predicate IsCapability(p: Profile, plan: Plan, versions: map<Name, Version>, r: Record)
    requires Sound(p, plan, versions)
  {
    exists g :: HasCapability(p, plan, g) && r == CapabilityRecord(p, plan, versions, g)
  }

  /** Everything published in one profile's feed. */
  ghost predicate Published(p: Profile, plan: Plan, versions: map<Name, Version>, r: Record)
    requires Sound(p, plan, versions) && forall m <- p.available :: NeedsMet(p, p.available[m])
  {
    IsModule(p, plan, versions, r) || IsCapability(p, plan, versions, r)
  }
}
