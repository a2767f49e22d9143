/** The repair merge in terms of the feed and the repairs alone. */
module RepairFeed {
  import opened Wrappers
  import opened Ordering
  import opened PackageNames
  import opened RepairModel
  import opened RepairMerge
  import opened RepairLaws

  // ---------------------------------------------------------------- what validation accepts

  predicate Plain(s: string) {
    s != "" && '/' !in s && '\\' !in s && '\r' !in s && '\n' !in s && '\0' !in s
  }

  lemma PlainIff(s: string)
    ensures CleanName(s) <==> Plain(s)
  {
  }

  lemma SectionNames(s: string)
    ensures s in FEEDS <==> s in {"base", "luci", "packages", "routing", "telephony", "target/packages"}
  {
  }

  lemma ArchNames(a: string)
    ensures a in ARCHES <==> a == "all" || a == "arm_cortex-a9_neon"
  {
  }

  lemma EntryIff(files: map<Path, string>, s: string, e: Entry)
    ensures SoundEntry(files, s, e) <==>
      && Plain(e.package) && Plain(e.version) && Plain(e.arch)
      && e.filename == e.package + "_" + e.version + "_" + e.arch + ".ipk" && (s, e.filename) in files
  {
  }

  lemma RepairIff(r: Repair)
    ensures SoundRepair(r) <==>
      && !r.symlink && !r.reserved
      && r.section in {"base", "luci", "packages", "routing", "telephony", "target/packages"}
      && Plain(r.package) && Plain(r.version) && (r.arch == "all" || r.arch == "arm_cortex-a9_neon")
      && r.file == r.package + "_" + r.version + "_" + r.arch + ".ipk"
      && r.package != "kernel" && !("kmod-" <= r.package)
  {
    SectionNames(r.section);
    ArchNames(r.arch);
  }

  lemma CompatibleIff(repairs: seq<Repair>)
    ensures Compatible(repairs) <==>
      && (forall r <- repairs :: SoundRepair(r))
      && (forall a <- repairs, b <- repairs | a.package == b.package :: a.version == b.version && a.arch == b.arch)
  {
    if Compatible(repairs) {
      forall a, b | a in repairs && b in repairs && a.package == b.package ensures SameBuild(a, b) {
        var i :| 0 <= i < |repairs| && repairs[i] == a;
        var j :| 0 <= j < |repairs| && repairs[j] == b;
        assert i < j || j < i || i == j;
      }
    }
  }

  /** There is a choice of the last repair for each package. */
  lemma {:induction false} Choose(repairs: seq<Repair>, n: nat) returns (cands: map<string, Repair>)
    requires SoundRepairs(repairs) && n <= |repairs|
    ensures Compatible(repairs[..n]) && Chosen(repairs[..n], cands)
    ensures n == |repairs| ==> Chosen(repairs, cands)
  {
    cands := map[];
    if n > 0 {
      var before := Choose(repairs, n - 1);
      CollectOne(repairs, n - 1, before);
      cands := before[repairs[n - 1].package := repairs[n - 1]];
    }
    assert n == |repairs| ==> repairs[..n] == repairs;
  }

  /** The merged feed keeps versions: no stanza differs from any repair of its package. */
  ghost predicate NoOtherBuild(packages: Index, repairs: seq<Repair>) {
    forall s <- FEEDS, e: Entry, r <- repairs | s in packages && e in packages[s] && e.package == r.package ::
      e.version == r.version && e.arch == r.arch
  }

  lemma KeptIffNoOther(packages: Index, repairs: seq<Repair>, cands: map<string, Repair>)
    requires Chosen(repairs, cands)
    ensures NoVersionChange(Baseline(packages), cands) <==> NoOtherBuild(packages, repairs)
  {
    ListedIff(packages);
    ChosenIff(repairs, cands);
    if NoVersionChange(Baseline(packages), cands) {
      KeptHasNoOther(packages, repairs, cands);
    }
  }

  lemma ListedIff(packages: Index)
    ensures forall s, e: Entry :: s in Baseline(packages) && e in Baseline(packages)[s]
                             <==> s in FEEDS && s in packages && e in packages[s]
  {
  }

  lemma ChosenIff(repairs: seq<Repair>, cands: map<string, Repair>)
    requires Chosen(repairs, cands)
    ensures forall r <- repairs :: r.package in cands && SameBuild(cands[r.package], r)
    ensures forall n <- cands :: cands[n] in repairs && cands[n].package == n
  {
    forall n | n in cands ensures cands[n] in repairs && cands[n].package == n {
      var i :| LastFor(repairs, n, i) && repairs[i] == cands[n];
    }
  }

  lemma KeptHasNoOther(packages: Index, repairs: seq<Repair>, cands: map<string, Repair>)
    requires forall s, e: Entry :: s in Baseline(packages) && e in Baseline(packages)[s]
                              <==> s in FEEDS && s in packages && e in packages[s]
    requires forall r <- repairs :: r.package in cands && SameBuild(cands[r.package], r)
    requires NoVersionChange(Baseline(packages), cands)
    ensures NoOtherBuild(packages, repairs)
  {
    forall s, e: Entry, r | s in FEEDS && r in repairs && s in packages && e in packages[s] && e.package == r.package
      ensures e.version == r.version && e.arch == r.arch {
      assert s in Baseline(packages) && e in Baseline(packages)[s];
    }
  }

  /** Validation accepts a feed and repairs exactly if: some section has a stanza; every stanza is well named
      and its file is there; there is a repair; every repair is well named; and neither repairs of one package
      nor a stanza and a repair of its package differ in version or architecture. */
  lemma AcceptableIff(files: map<Path, string>, packages: Index, repairs: seq<Repair>)
    ensures Acceptable(files, packages, repairs) <==>
      && (exists s :: s in FEEDS && s in packages && packages[s] != [])
      && (forall s <- FEEDS, e: Entry | s in packages && e in packages[s] :: SoundEntry(files, s, e))
      && repairs != [] && (forall r <- repairs :: SoundRepair(r))
      && (forall a <- repairs, b <- repairs | a.package == b.package :: a.version == b.version && a.arch == b.arch)
      && NoOtherBuild(packages, repairs)
  {
    CompatibleIff(repairs);
    assert forall s <- FEEDS :: Listed(packages, s) == if s in packages then packages[s] else [];
    if SoundRepairs(repairs) {
      var cands := Choose(repairs, |repairs|);
      KeptIffNoOther(packages, repairs, cands);
      forall other | Chosen(repairs, other) ensures other == cands {
        ChosenUnique(repairs, other, cands);
      }
    }
  }

  // ---------------------------------------------------------------- what is published

  /** A repair that is the last of its package. */
  ghost predicate LastOf(repairs: seq<Repair>, i: nat) {
    i < |repairs| && forall j | i < j < |repairs| :: repairs[j].package != repairs[i].package
  }

  lemma LastIsChosen(repairs: seq<Repair>, cands: map<string, Repair>, i: nat)
    requires Chosen(repairs, cands) && LastOf(repairs, i)
    ensures repairs[i].package in cands && cands[repairs[i].package] == repairs[i]
  {
    var r := repairs[i];
    assert r in repairs;
    var k :| LastFor(repairs, r.package, k) && repairs[k] == cands[r.package];
    assert k == i;
  }

  /** The last repair for a package has a stanza in its section, with its identity and control text and the
      size and digest of its content; so those of the file itself where the file is the repair. */
  lemma StanzaSays(files: map<Path, string>, packages: Index, repairs: seq<Repair>, cands: map<string, Repair>,
                   names: seq<string>, files': map<Path, string>, packages': Index, i: nat) returns (e: Entry)
    requires Acceptable(files, packages, repairs) && Chosen(repairs, cands) && SortedList(names, cands.Keys)
    requires MergedTo(files, packages, cands, names, files', packages') && LastOf(repairs, i)
    ensures var r := repairs[i];
            && r.section in packages' && e in packages'[r.section]
            && e.package == r.package && e.version == r.version && e.arch == r.arch
            && e.control == r.control && e.filename == r.file
            && e.size == |r.content| && e.digest == Sha256(r.content)
            && (OwnFiles(cands) ==>
                  (r.section, r.file) in files' && e.size == |files'[(r.section, r.file)]|
                  && e.digest == Sha256(files'[(r.section, r.file)]))
  {
    var r := repairs[i];
    LastIsChosen(repairs, cands, i);
    e := NewEntry(r);
    OneStanzaEach(files, packages, repairs, cands, names, files', packages', r.package);
  }

  /** It is the only stanza of the package, in all sections of the feed. */
  lemma StanzaAlone(files: map<Path, string>, packages: Index, repairs: seq<Repair>, cands: map<string, Repair>,
                    names: seq<string>, files': map<Path, string>, packages': Index, i: nat, s: string, k: nat)
    requires Acceptable(files, packages, repairs) && Chosen(repairs, cands) && SortedList(names, cands.Keys)
    requires MergedTo(files, packages, cands, names, files', packages') && LastOf(repairs, i)
    requires s in FEEDS && s in packages' && k < |packages'[s]| && packages'[s][k].package == repairs[i].package
    ensures s == repairs[i].section
    ensures forall j | 0 <= j < |packages'[s]| && packages'[s][j].package == repairs[i].package :: j == k
  {
    LastIsChosen(repairs, cands, i);
    OneStanzaEach(files, packages, repairs, cands, names, files', packages', repairs[i].package);
    OnlyPlace(packages'[s], repairs[i].package, k);
  }

  lemma OnlyPlace(entries: seq<Entry>, name: string, k: nat)
    requires k < |entries| && entries[k].package == name && Count(entries, name) <= 1
    ensures Count(entries, name) == 1
    ensures forall j | 0 <= j < |entries| && entries[j].package == name :: j == k
  {
    CountIs(entries, name);
    var places := set j | 0 <= j < |entries| && entries[j].package == name;
    assert k in places;
    Included({k}, places);
    forall j | 0 <= j < |entries| && entries[j].package == name ensures j == k {
      assert j in places;
    }
  }

  lemma {:induction false} CountIs(entries: seq<Entry>, name: string)
    ensures Count(entries, name) == |set i | 0 <= i < |entries| && entries[i].package == name|
  {
    if entries != [] {
      var n := |entries| - 1;
      var front := entries[..n];
      var all, less := set i | 0 <= i < |entries| && entries[i].package == name,
                       set i | 0 <= i < |front| && front[i].package == name;
      CountIs(front, name);
      if entries[n].package == name {
        assert all == less + {n};
      } else {
        assert all == less;
      }
    }
  }

  /** Sections that are not of the feed stay as they are; one gets an index only if it had one or a repair
      goes there; and every index of the feed is in order of package names. */
  lemma WrittenSays(files: map<Path, string>, packages: Index, repairs: seq<Repair>, cands: map<string, Repair>,
                    names: seq<string>, files': map<Path, string>, packages': Index, s: string)
    requires Acceptable(files, packages, repairs) && Chosen(repairs, cands) && SortedList(names, cands.Keys)
    requires MergedTo(files, packages, cands, names, files', packages')
    ensures s in packages' <==> s in packages || exists n :: n in cands && cands[n].section == s
    ensures s in packages && s !in FEEDS ==> packages'[s] == packages[s]
    ensures s in packages' && s in FEEDS ==>
      forall i, j | 0 <= i < j < |packages'[s]| :: Le(packages'[s][i].package, packages'[s][j].package)
  {
    CandidatesFit(files, packages, repairs, cands);
    var index := Baseline(packages);
    KeysAfter(index, cands, names);
    if s in FEEDS {
      IndexIs(index, cands, names, s);
      HasNews(cands, names, s);
      var l := IndexAfter(index, cands, names)[s];
      SortBySorts(PackageOf, l);
    }
  }

  lemma HasNews(cands: map<string, Repair>, names: seq<string>, s: string)
    requires SortedList(names, cands.Keys)
    ensures News(cands, names, s) != [] <==> exists n :: n in cands && cands[n].section == s
  {
    var news := News(cands, names, s);
    if news != [] {
      NewsIn(cands, names, s, news[0]);
    }
    if n :| n in cands && cands[n].section == s {
      NewsIn(cands, names, s, NewEntry(cands[n]));
    }
  }

  // ---------------------------------------------------------------- the files

  /** The repair has the path's file name, and goes to that section or has a stanza there before. */
  ghost predicate Reaches(packages: Index, r: Repair, p: Path) {
    && r.file == p.1
    && (r.section == p.0
        || (p.0 in FEEDS && p.0 in packages && exists e :: e in packages[p.0] && e.package == r.package))
  }

  lemma TouchesIff(packages: Index, r: Repair, p: Path)
    ensures Touches(Baseline(packages), r, p) <==> Reaches(packages, r, p)
  {
    if p.0 in FEEDS && p.0 in packages {
      HasStanza(packages[p.0], r.package);
    }
    assert Count([], r.package) == 0;
  }

  lemma HasStanza(entries: seq<Entry>, name: string)
    ensures Count(entries, name) > 0 <==> exists e :: e in entries && e.package == name
  {
    if Count(entries, name) > 0 {
      CountWitness(entries, name);
    }
    if e :| e in entries && e.package == name {
      CountIs(entries, name);
      var i :| 0 <= i < |entries| && entries[i] == e;
      assert i in set i | 0 <= i < |entries| && entries[i].package == name;
    }
  }

  /** Of the last repairs that reach a path, the one whose package name is greatest. */
  ghost predicate Decides(packages: Index, repairs: seq<Repair>, p: Path, i: nat) {
    && LastOf(repairs, i) && Reaches(packages, repairs[i], p)
    && forall j: nat | LastOf(repairs, j) && Reaches(packages, repairs[j], p) ::
         Le(repairs[j].package, repairs[i].package)
  }

  /** That one decides: the path has its content if the repair goes there, and is gone otherwise. */
  lemma FilesSay(files: map<Path, string>, packages: Index, repairs: seq<Repair>, cands: map<string, Repair>,
                 names: seq<string>, files': map<Path, string>, packages': Index, p: Path, i: nat)
    requires Acceptable(files, packages, repairs) && Chosen(repairs, cands) && SortedList(names, cands.Keys)
    requires MergedTo(files, packages, cands, names, files', packages')
    requires Decides(packages, repairs, p, i)
    ensures p in files' <==> repairs[i].section == p.0
    ensures p in files' ==> files'[p] == repairs[i].content
  {
    CandidatesFit(files, packages, repairs, cands);
    FilesAt(files, Baseline(packages), cands, names, p);
    LastToTouch(packages, repairs, cands, names, p, i);
  }

  lemma LastToTouch(packages: Index, repairs: seq<Repair>, cands: map<string, Repair>, names: seq<string>, p: Path,
                    i: nat)
    requires Chosen(repairs, cands) && SortedList(names, cands.Keys) && Decides(packages, repairs, p, i)
    ensures var k := LastTouch(Baseline(packages), cands, names, p);
            k >= 0 && cands[names[k]] == repairs[i]
  {
    LastIsChosen(repairs, cands, i);
    var k, n := LastTouch(Baseline(packages), cands, names, p), repairs[i].package;
    var m :| 0 <= m < |names| && names[m] == n;
    TouchesIff(packages, repairs[i], p);
    var j := Chooses(packages, repairs, cands, names, p);
    if k > m {
      LeAntisymmetric(n, names[k]);
    }
  }

  lemma Chooses(packages: Index, repairs: seq<Repair>, cands: map<string, Repair>, names: seq<string>, p: Path)
      returns (j: nat)
    requires Chosen(repairs, cands) && SortedList(names, cands.Keys)
    requires LastTouch(Baseline(packages), cands, names, p) >= 0
    ensures var k := LastTouch(Baseline(packages), cands, names, p);
            && LastOf(repairs, j) && repairs[j] == cands[names[k]] && repairs[j].package == names[k]
            && Reaches(packages, repairs[j], p)
  {
    var k := LastTouch(Baseline(packages), cands, names, p);
    j :| LastFor(repairs, names[k], j) && repairs[j] == cands[names[k]];
    TouchesIff(packages, repairs[j], p);
  }

  /** A path that none of them reaches stays as it was. */
  lemma FilesStay(files: map<Path, string>, packages: Index, repairs: seq<Repair>, cands: map<string, Repair>,
                  names: seq<string>, files': map<Path, string>, packages': Index, p: Path)
    requires Acceptable(files, packages, repairs) && Chosen(repairs, cands) && SortedList(names, cands.Keys)
    requires MergedTo(files, packages, cands, names, files', packages')
    requires forall j: nat | LastOf(repairs, j) :: !Reaches(packages, repairs[j], p)
    ensures p in files <==> p in files'
    ensures p in files ==> files[p] == files'[p]
  {
    var index := Baseline(packages);
    CandidatesFit(files, packages, repairs, cands);
    FilesAt(files, index, cands, names, p);
    if LastTouch(index, cands, names, p) >= 0 {
      var j := Chooses(packages, repairs, cands, names, p);
    }
  }
}
