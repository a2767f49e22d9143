/** The merge of scripts/merge-userspace-repairs.py: read and check the feed, collect and check the
    repairs, then replace package by package and write the indexes. */
module RepairMerge {
  import opened Wrappers
  import opened Ordering
  import opened PackageNames
  import opened RepairModel

  type Index = map<string, seq<Entry>>

  /** The feed on disk: package files, and the sections that have an index. */
  class FeedTree {
    var files: map<Path, string>
    var packages: Index

    constructor (files: map<Path, string>, packages: Index)
      ensures this.files == files && this.packages == packages
    {
      this.files, this.packages := files, packages;
    }
  }

  /** Refused: a check failed before anything was changed. Broke: a file to unlink was not there. */
  datatype Outcome = Merged | Refused | Broke

  // ---------------------------------------------------------------- what the checks ask for

  function Listed(packages: Index, s: string): seq<Entry> {
    if s in packages then packages[s] else []
  }

  function Baseline(packages: Index): Index {
    map s | s in FEEDS :: Listed(packages, s)
  }

  ghost predicate SoundBaseline(files: map<Path, string>, packages: Index) {
    && (forall s <- FEEDS, e <- Listed(packages, s) :: SoundEntry(files, s, e))
    && (exists s :: s in FEEDS && Listed(packages, s) != [])
  }

  predicate SameBuild(a: Repair, b: Repair) {
    a.version == b.version && a.arch == b.arch
  }

  ghost predicate SoundRepairs(repairs: seq<Repair>) {
    repairs != [] && Compatible(repairs)
  }

  ghost predicate Compatible(repairs: seq<Repair>) {
    && (forall r <- repairs :: SoundRepair(r))
    && (forall i, j | 0 <= i < j < |repairs| && repairs[i].package == repairs[j].package
          :: SameBuild(repairs[i], repairs[j]))
  }

  ghost predicate LastFor(repairs: seq<Repair>, n: string, i: int) {
    0 <= i < |repairs| && repairs[i].package == n && forall j | i < j < |repairs| :: repairs[j].package != n
  }

  /** The last file found for a package is the one that counts. */
  ghost predicate Chosen(repairs: seq<Repair>, cands: map<string, Repair>) {
    && (forall r <- repairs :: r.package in cands && SameBuild(cands[r.package], r))
    && (forall n <- cands :: exists i :: LastFor(repairs, n, i) && repairs[i] == cands[n])
  }

  ghost predicate NoVersionChange(index: Index, cands: map<string, Repair>) {
    forall s <- index, e <- index[s] | e.package in cands ::
      e.version == cands[e.package].version && e.arch == cands[e.package].arch
  }

  /** Everything validation accepts. */
  ghost predicate Acceptable(files: map<Path, string>, packages: Index, repairs: seq<Repair>) {
    && SoundBaseline(files, packages) && SoundRepairs(repairs)
    && (forall cands | Chosen(repairs, cands) :: NoVersionChange(Baseline(packages), cands))
  }

  lemma {:induction false} ChosenUnique(repairs: seq<Repair>, a: map<string, Repair>, b: map<string, Repair>)
    requires Chosen(repairs, a) && Chosen(repairs, b)
    ensures a == b
  {
    forall n | n in a ensures n in b && a[n] == b[n] {
      var i :| LastFor(repairs, n, i) && repairs[i] == a[n];
      assert repairs[i] in repairs;
      var k :| LastFor(repairs, n, k) && repairs[k] == b[n];
    }
    forall n | n in b ensures n in a {
      var i :| LastFor(repairs, n, i) && repairs[i] == b[n];
      assert repairs[i] in repairs;
    }
  }

  // ---------------------------------------------------------------- validation

  method ReadBaseline(feed: FeedTree) returns (ok: bool, index: Index)
    ensures ok <==> SoundBaseline(feed.files, feed.packages)
    ensures ok ==> index == Baseline(feed.packages)
  {
    index := map[];
    ok := true;
    var some := false;
    for i := 0 to |FEEDS|
      invariant index == map s | s in FEEDS[..i] :: Listed(feed.packages, s)
      invariant forall s <- FEEDS[..i], e <- Listed(feed.packages, s) :: SoundEntry(feed.files, s, e)
      invariant some <==> exists s :: s in FEEDS[..i] && Listed(feed.packages, s) != []
    {
      var s := FEEDS[i];
      assert FEEDS[..i + 1] == FEEDS[..i] + [s];
      var entries := Listed(feed.packages, s);
      for k := 0 to |entries|
        invariant forall e <- entries[..k] :: SoundEntry(feed.files, s, e)
      {
        if !SoundEntry(feed.files, s, entries[k]) {
          assert s in FEEDS && entries[k] in Listed(feed.packages, s);
          return false, map[];
        }
      }
      assert entries[..|entries|] == entries;
      index := index[s := entries];
      some := some || entries != [];
    }
    assert FEEDS[..|FEEDS|] == FEEDS;
    ok := some;
  }

  method Collect(repairs: seq<Repair>) returns (ok: bool, cands: map<string, Repair>)
    ensures ok <==> SoundRepairs(repairs)
    ensures ok ==> Chosen(repairs, cands)
  {
    cands := map[];
    for i := 0 to |repairs|
      invariant Compatible(repairs[..i]) && Chosen(repairs[..i], cands)
    {
      CollectOne(repairs, i, cands);
      var r := repairs[i];
      if !SoundRepair(r) || (r.package in cands && !SameBuild(cands[r.package], r)) {
        return false, map[];
      }
      cands := cands[r.package := r];
    }
    assert repairs[..|repairs|] == repairs;
    ok := repairs != [];
  }

  lemma CollectOne(repairs: seq<Repair>, i: nat, cands: map<string, Repair>)
    requires i < |repairs| && Compatible(repairs[..i]) && Chosen(repairs[..i], cands)
    ensures var r := repairs[i];
            if SoundRepair(r) && (r.package in cands ==> SameBuild(cands[r.package], r))
            then Compatible(repairs[..i + 1]) && Chosen(repairs[..i + 1], cands[r.package := r])
            else !Compatible(repairs)
  {
    var before, after, r := repairs[..i], repairs[..i + 1], repairs[i];
    assert after == before + [r] && r in repairs;
    if SoundRepair(r) {
      if r.package in cands && !SameBuild(cands[r.package], r) {
        var j :| LastFor(before, r.package, j) && before[j] == cands[r.package];
        assert repairs[j] == before[j];
      } else {
        ChosenAdd(repairs, i, cands);
        assert forall j, k | 0 <= j < k < i && before[j].package == before[k].package ::
          SameBuild(before[j], before[k]);
      }
    }
  }

  lemma ChosenAdd(repairs: seq<Repair>, i: nat, cands: map<string, Repair>)
    requires i < |repairs| && Chosen(repairs[..i], cands)
    requires repairs[i].package in cands ==> SameBuild(cands[repairs[i].package], repairs[i])
    ensures Chosen(repairs[..i + 1], cands[repairs[i].package := repairs[i]])
    ensures forall j | 0 <= j < i && repairs[j].package == repairs[i].package :: SameBuild(repairs[j], repairs[i])
  {
    var before, after, r := repairs[..i], repairs[..i + 1], repairs[i];
    assert after == before + [r];
    var cands' := cands[r.package := r];
    forall n | n in cands' ensures exists k :: LastFor(after, n, k) && after[k] == cands'[n] {
      if n == r.package {
        assert LastFor(after, n, i) && after[i] == cands'[n];
      } else {
        var k :| LastFor(before, n, k) && before[k] == cands[n];
        assert LastFor(after, n, k) && after[k] == cands'[n];
      }
    }
    forall j | 0 <= j < i && repairs[j].package == r.package ensures SameBuild(repairs[j], r) {
      assert repairs[j] in before;
    }
  }

  method VersionsKept(index: Index, cands: map<string, Repair>) returns (ok: bool)
    requires index.Keys == set s | s in FEEDS
    ensures ok <==> NoVersionChange(index, cands)
  {
    for i := 0 to |FEEDS|
      invariant forall s <- FEEDS[..i], e <- index[s] | e.package in cands ::
        e.version == cands[e.package].version && e.arch == cands[e.package].arch
    {
      var s := FEEDS[i];
      assert FEEDS[..i + 1] == FEEDS[..i] + [s];
      var entries := index[s];
      for k := 0 to |entries|
        invariant forall e <- entries[..k] | e.package in cands ::
          e.version == cands[e.package].version && e.arch == cands[e.package].arch
      {
        var e := entries[k];
        if e.package in cands && !(e.version == cands[e.package].version && e.arch == cands[e.package].arch) {
          assert s in index && e in index[s];
          return false;
        }
      }
      assert entries[..|entries|] == entries;
    }
    assert FEEDS[..|FEEDS|] == FEEDS;
    return true;
  }

  // ---------------------------------------------------------------- replacement

  /** The number of stanzas of a package. */
  function Count(entries: seq<Entry>, name: string): nat {
    if entries == [] then 0
    else Count(entries[..|entries| - 1], name) + if entries[|entries| - 1].package == name then 1 else 0
  }

  lemma CountAppend(a: seq<Entry>, e: Entry, name: string)
    ensures Count(a + [e], name) == Count(a, name) + if e.package == name then 1 else 0
  {
    assert (a + [e])[..|a|] == a;
  }

  /** A candidate's stanzas all name the candidate's file: no version or architecture changes. */
  ghost predicate NamedAlike(index: Index, c: Repair)
  {
    forall s <- index, e <- index[s] | e.package == c.package :: e.filename == c.file
  }

  /** A file to unlink: one of the package's, anywhere but at the destination. */
  ghost predicate Stale(index: Index, c: Repair, p: Path)
  {
    p.0 in index && p.0 != c.section && p.1 == c.file && Count(index[p.0], c.package) > 0
  }

  /** An unlink that finds its file: it is there, and it is asked for only once. */
  ghost predicate MayUnlink(files: map<Path, string>, index: Index, c: Repair, s: string)
    requires s in index
  {
    Stale(index, c, (s, c.file)) ==> Count(index[s], c.package) == 1 && (s, c.file) in files
  }

  ghost predicate Removable(files: map<Path, string>, index: Index, c: Repair)
  {
    forall s <- index :: MayUnlink(files, index, c, s)
  }

  /** One package replaced: its old files go, the repair's file comes. */
  ghost function StepFiles(files: map<Path, string>, index: Index, c: Repair): map<Path, string>
  {
    (map p | p in files && !Stale(index, c, p) :: files[p])[Destination(c) := c.content]
  }

  function StepEntries(entries: seq<Entry>, s: string, c: Repair): seq<Entry> {
    Retain(entries, {c.package}) + if s == c.section then [NewEntry(c)] else []
  }

  ghost function StepIndex(index: Index, c: Repair): Index {
    map s | s in index :: StepEntries(index[s], s, c)
  }

  function Unlinked(entries: seq<Entry>, s: string, c: Repair): set<Path> {
    if s != c.section && Count(entries, c.package) > 0 then {(s, c.file)} else {}
  }

  /** Removes a package's stanzas from one section, unlinking the file of each. */
  method RemoveOld(feed: FeedTree, s: string, entries: seq<Entry>, c: Repair) returns (ok: bool, retained: seq<Entry>)
    requires forall e <- entries | e.package == c.package :: e.filename == c.file
    modifies feed`files
    ensures ok <==> s == c.section || Count(entries, c.package) == 0
                    || (Count(entries, c.package) == 1 && (s, c.file) in old(feed.files))
    ensures ok ==> retained == Retain(entries, {c.package})
    ensures ok ==> feed.files == old(feed.files) - Unlinked(entries, s, c)
  {
    retained := [];
    for i := 0 to |entries|
      invariant retained == Retain(entries[..i], {c.package})
      invariant s == c.section || Count(entries[..i], c.package) == 0
        || (Count(entries[..i], c.package) == 1 && (s, c.file) in old(feed.files))
      invariant feed.files == old(feed.files) - Unlinked(entries[..i], s, c)
    {
      var e := entries[i];
      OneMoreEntry(entries, i, c.package);
      if e.package == c.package {
        if (s, e.filename) != Destination(c) {
          if (s, e.filename) !in feed.files {
            return false, [];
          }
          feed.files := feed.files - {(s, e.filename)};
        }
      } else {
        retained := retained + [e];
      }
    }
    assert entries[..|entries|] == entries;
    ok := true;
  }

  lemma OneMoreEntry(entries: seq<Entry>, i: nat, name: string)
    requires i < |entries|
    ensures Retain(entries[..i + 1], {name})
         == Retain(entries[..i], {name}) + if entries[i].package == name then [] else [entries[i]]
    ensures Count(entries[..i + 1], name) == Count(entries[..i], name) + if entries[i].package == name then 1 else 0
    ensures Count(entries[..i + 1], name) <= Count(entries, name)
  {
    assert entries[..i + 1] == entries[..i] + [entries[i]];
    RetainAppend(entries[..i], entries[i], {name});
    CountAppend(entries[..i], entries[i], name);
    CountPrefix(entries, i + 1, name);
  }

  lemma {:induction false} CountPrefix(entries: seq<Entry>, i: nat, name: string)
    requires i <= |entries|
    ensures Count(entries[..i], name) <= Count(entries, name)
    decreases |entries|
  {
    if i < |entries| {
      var most := entries[..|entries| - 1];
      CountPrefix(most, i, name);
      assert most[..i] == entries[..i];
    } else {
      assert entries[..i] == entries;
    }
  }

  /** The sections of an index, each once. */
  ghost predicate Covers(sections: seq<string>, index: Index) {
    && (forall i, j | 0 <= i < j < |sections| :: sections[i] != sections[j])
    && (forall s :: s in index <==> s in sections)
  }

  lemma FeedsCover(index: Index)
    requires forall s :: s in index <==> s in FEEDS
    ensures Covers(FEEDS, index)
  {
    assert |FEEDS| == 6;
    assert FEEDS[0][0] == 'b' && FEEDS[1][0] == 'l' && FEEDS[2][0] == 'p' && FEEDS[3][0] == 'r';
    assert FEEDS[4][0] == 't' && FEEDS[5][0] == 't' && FEEDS[4][1] == 'e' && FEEDS[5][1] == 'a';
  }

  /** The first sections done: their stanzas of the package and the files of those are gone. */
  ghost function PartIndex(index: Index, c: Repair, done: seq<string>): Index {
    map s | s in index :: if s in done then Retain(index[s], {c.package}) else index[s]
  }

  ghost function PartFiles(files: map<Path, string>, index: Index, c: Repair, done: seq<string>): map<Path, string> {
    map p | p in files && !(Stale(index, c, p) && p.0 in done) :: files[p]
  }

  lemma OneMore(files: map<Path, string>, index: Index, c: Repair, done: seq<string>, s: string)
    requires s in index && s !in done
    ensures PartIndex(index, c, done)[s] == index[s]
    ensures PartIndex(index, c, done + [s]) == PartIndex(index, c, done)[s := Retain(index[s], {c.package})]
    ensures PartFiles(files, index, c, done + [s]) == PartFiles(files, index, c, done) - Unlinked(index[s], s, c)
    ensures (s, c.file) in PartFiles(files, index, c, done) <==> (s, c.file) in files
  {
    var a, b := PartFiles(files, index, c, done + [s]), PartFiles(files, index, c, done) - Unlinked(index[s], s, c);
    assert a.Keys == b.Keys;
  }

  /** All sections done, and the repair put in. */
  lemma AllDone(files: map<Path, string>, index: Index, c: Repair, sections: seq<string>)
    requires Covers(sections, index) && c.section in index
    ensures PartFiles(files, index, c, sections)[Destination(c) := c.content] == StepFiles(files, index, c)
    ensures PutIn(PartIndex(index, c, sections), c) == StepIndex(index, c)
  {
    assert PartFiles(files, index, c, sections) == map p | p in files && !Stale(index, c, p) :: files[p];
    PutInIs(index, c, sections);
  }

  function PutIn(index: Index, c: Repair): Index
    requires c.section in index
  {
    index[c.section := index[c.section] + [NewEntry(c)]]
  }

  lemma PutInIs(index: Index, c: Repair, sections: seq<string>)
    requires Covers(sections, index) && c.section in index
    ensures PutIn(PartIndex(index, c, sections), c) == StepIndex(index, c)
  {
    var part := PartIndex(index, c, sections);
    forall s | s in index ensures PutIn(part, c)[s] == StepEntries(index[s], s, c) {
      assert part[s] == Retain(index[s], {c.package});
    }
  }

  /** One more section done. */
  method RemoveIn(feed: FeedTree, s: string, part: Index, c: Repair, ghost files: map<Path, string>, ghost index: Index,
                  ghost done: seq<string>) returns (ok: bool, next: Index)
    requires s in index && s !in done && NamedAlike(index, c)
    requires part == PartIndex(index, c, done) && feed.files == PartFiles(files, index, c, done)
    modifies feed`files
    ensures ok <==> MayUnlink(files, index, c, s)
    ensures ok ==> next == PartIndex(index, c, done + [s])
    ensures ok ==> feed.files == PartFiles(files, index, c, done + [s])
  {
    OneMore(files, index, c, done, s);
    next := part;
    var retained;
    ok, retained := RemoveOld(feed, s, part[s], c);
    if ok {
      next := next[s := retained];
    }
  }

  method RemoveAll(feed: FeedTree, sections: seq<string>, index: Index, c: Repair) returns (ok: bool, index': Index)
    requires Covers(sections, index) && NamedAlike(index, c)
    modifies feed`files
    ensures ok <==> forall s <- index :: MayUnlink(old(feed.files), index, c, s)
    ensures ok ==> index' == PartIndex(index, c, sections)
    ensures ok ==> feed.files == PartFiles(old(feed.files), index, c, sections)
  {
    index' := index;
    ghost var files := feed.files;
    for i := 0 to |sections|
      invariant forall s <- sections[..i] :: s in index && MayUnlink(files, index, c, s)
      invariant index' == PartIndex(index, c, sections[..i])
      invariant feed.files == PartFiles(files, index, c, sections[..i])
    {
      var s := sections[i];
      assert sections[..i + 1] == sections[..i] + [s];
      assert s in sections && s !in sections[..i];
      ok, index' := RemoveIn(feed, s, index', c, files, index, sections[..i]);
      if !ok {
        return;
      }
    }
    assert sections[..|sections|] == sections;
    ok := true;
  }

  /** One candidate put in: its old stanzas and files are removed first. */
  method ReplaceOne(feed: FeedTree, sections: seq<string>, index: Index, c: Repair) returns (ok: bool, index': Index)
    requires Covers(sections, index) && c.section in index && NamedAlike(index, c)
    modifies feed`files
    ensures ok <==> Removable(old(feed.files), index, c)
    ensures ok ==> index' == StepIndex(index, c)
    ensures ok ==> feed.files == StepFiles(old(feed.files), index, c)
  {
    AllDone(feed.files, index, c, sections);
    ok, index' := RemoveAll(feed, sections, index, c);
    if ok {
      feed.files := feed.files[Destination(c) := c.content];
      index' := PutIn(index', c);
    }
  }

  // ---------------------------------------------------------------- the whole merge

  /** The stanzas after the first candidates were put in. */
  ghost function IndexAfter(index: Index, cands: map<string, Repair>, names: seq<string>): Index
    requires forall n <- names :: n in cands
  {
    if names == [] then index
    else StepIndex(IndexAfter(index, cands, names[..|names| - 1]), cands[names[|names| - 1]])
  }

  ghost function FilesAfter(files: map<Path, string>, index: Index, cands: map<string, Repair>, names: seq<string>)
      : map<Path, string>
    requires forall n <- names :: n in cands
  {
    if names == [] then files
    else
      var front := names[..|names| - 1];
      StepFiles(FilesAfter(files, index, cands, front), IndexAfter(index, cands, front), cands[names[|names| - 1]])
  }

  ghost predicate AllRemovable(files: map<Path, string>, index: Index, cands: map<string, Repair>, names: seq<string>)
    requires forall n <- names :: n in cands
  {
    names == [] ||
    var front := names[..|names| - 1];
    && AllRemovable(files, index, cands, front)
    && Removable(FilesAfter(files, index, cands, front), IndexAfter(index, cands, front), cands[names[|names| - 1]])
  }

  /** What is written back: sections with stanzas, and sections that had an index before. */
  function Written(packages: Index, index: Index): Index {
    WrittenPart(packages, index, index.Keys)
  }

  function WrittenPart(packages: Index, index: Index, done: set<string>): Index {
    map s | s in packages.Keys + index.Keys && (s in packages || (s in done && index[s] != []))
      :: if s in done && s in index then ByPackage(index[s]) else packages[s]
  }

  ghost predicate Fits(index: Index, cands: map<string, Repair>) {
    && (forall n <- cands :: cands[n].package == n && cands[n].section in index && NamedAlike(index, cands[n]))
  }

  lemma StepKeepsFit(index: Index, cands: map<string, Repair>, n: string)
    requires Fits(index, cands) && n in cands
    ensures Fits(StepIndex(index, cands[n]), cands)
  {
    var c := cands[n];
    forall m, s, e: Entry | m in cands && s in index && e in StepEntries(index[s], s, c) && e.package == m
      ensures e.filename == cands[m].file
    {
      RetainIn(index[s], {c.package}, e);
    }
  }

  lemma CandidatesFit(files: map<Path, string>, packages: Index, repairs: seq<Repair>, cands: map<string, Repair>)
    requires SoundBaseline(files, packages) && SoundRepairs(repairs) && Chosen(repairs, cands)
    requires NoVersionChange(Baseline(packages), cands)
    ensures Covers(FEEDS, Baseline(packages)) && Fits(Baseline(packages), cands)
  {
    var index := Baseline(packages);
    FeedsCover(index);
    forall n | n in cands ensures cands[n].package == n && SoundRepair(cands[n]) {
      var i :| LastFor(repairs, n, i) && repairs[i] == cands[n];
      assert repairs[i] in repairs;
    }
    forall s, e: Entry | s in index && e in index[s] && e.package in cands ensures e.filename == cands[e.package].file {
      assert SoundEntry(files, s, e);
    }
  }

  /** Replaces every candidate in the order of their names. */
  method ReplaceAll(feed: FeedTree, sections: seq<string>, index0: Index, cands: map<string, Repair>,
                    names: seq<string>)
      returns (ok: bool, index: Index)
    requires Covers(sections, index0) && Fits(index0, cands) && forall n <- names :: n in cands
    modifies feed`files
    ensures ok <==> AllRemovable(old(feed.files), index0, cands, names)
    ensures ok ==> Covers(sections, index) && index == IndexAfter(index0, cands, names)
    ensures ok ==> feed.files == FilesAfter(old(feed.files), index0, cands, names)
  {
    index := index0;
    ghost var before := feed.files;
    for i := 0 to |names|
      invariant Covers(sections, index) && Fits(index, cands)
      invariant AllRemovable(before, index0, cands, names[..i])
      invariant index == IndexAfter(index0, cands, names[..i])
      invariant feed.files == FilesAfter(before, index0, cands, names[..i])
    {
      NextCandidate(before, index0, cands, names, i);
      StepKeepsFit(index, cands, names[i]);
      ok, index := ReplaceOne(feed, sections, index, cands[names[i]]);
      if !ok {
        NotAllRemovable(before, index0, cands, names, i + 1);
        return false, index;
      }
    }
    assert names[..|names|] == names;
    ok := true;
  }

  lemma NextCandidate(files: map<Path, string>, index: Index, cands: map<string, Repair>, names: seq<string>, i: nat)
    requires i < |names| && forall n <- names :: n in cands
    ensures var done, next, c := names[..i], names[..i + 1], cands[names[i]];
            && IndexAfter(index, cands, next) == StepIndex(IndexAfter(index, cands, done), c)
            && FilesAfter(files, index, cands, next)
                 == StepFiles(FilesAfter(files, index, cands, done), IndexAfter(index, cands, done), c)
            && (AllRemovable(files, index, cands, next) <==>
                  AllRemovable(files, index, cands, done)
                  && Removable(FilesAfter(files, index, cands, done), IndexAfter(index, cands, done), c))
  {
    assert names[..i + 1][..i] == names[..i];
  }

  lemma {:induction false} NotAllRemovable(files: map<Path, string>, index: Index, cands: map<string, Repair>,
                                           names: seq<string>, i: nat)
    requires i <= |names| && (forall n <- names :: n in cands)
    requires !AllRemovable(files, index, cands, names[..i])
    ensures !AllRemovable(files, index, cands, names)
    decreases |names|
  {
    if i < |names| {
      var front := names[..|names| - 1];
      assert front[..i] == names[..i];
      NotAllRemovable(files, index, cands, front, i);
    } else {
      assert names[..i] == names;
    }
  }

  lemma WriteOne(packages: Index, index: Index, done: set<string>, s: string)
    requires s in index && s !in done
    ensures var w := WrittenPart(packages, index, done);
            WrittenPart(packages, index, done + {s})
              == if index[s] != [] || s in w then w[s := ByPackage(index[s])] else w
    ensures s in WrittenPart(packages, index, done) <==> s in packages
  {
    var w, w' := WrittenPart(packages, index, done), WrittenPart(packages, index, done + {s});
    forall q | q != s ensures (q in w <==> q in w') && (q in w ==> w[q] == w'[q]) {}
  }

  /** Writes one section's index after the other. */
  method WriteIndexes(feed: FeedTree, sections: seq<string>, index: Index)
    requires Covers(sections, index)
    modifies feed`packages
    ensures feed.packages == Written(old(feed.packages), index)
  {
    ghost var done: set<string> := {};
    for i := 0 to |sections|
      invariant forall s :: s in done <==> s in sections[..i]
      invariant feed.packages == WrittenPart(old(feed.packages), index, done)
    {
      var s := sections[i];
      WriteOne(old(feed.packages), index, done, s);
      if index[s] != [] || s in feed.packages {
        feed.packages := feed.packages[s := ByPackage(index[s])];
      }
      done := done + {s};
    }
    assert done == index.Keys;
  }

  /** All the checks: the baseline's stanzas and files, the repairs, and that no version changes. */
  method Validate(feed: FeedTree, repairs: seq<Repair>) returns (ok: bool, index: Index, cands: map<string, Repair>)
    ensures ok <==> Acceptable(feed.files, feed.packages, repairs)
    ensures ok ==> index == Baseline(feed.packages) && Chosen(repairs, cands)
    ensures ok ==> Covers(FEEDS, index) && Fits(index, cands)
  {
    cands := map[];
    ok, index := ReadBaseline(feed);
    if ok {
      ok, cands := Collect(repairs);
      if ok {
        ok := VersionsKept(index, cands);
        forall other | Chosen(repairs, other) ensures other == cands {
          ChosenUnique(repairs, other, cands);
        }
        if ok {
          CandidatesFit(feed.files, feed.packages, repairs, cands);
        }
      }
    }
  }

  /** What a completed merge leaves behind. */
  ghost predicate MergedTo(files: map<Path, string>, packages: Index, cands: map<string, Repair>, names: seq<string>,
                           files': map<Path, string>, packages': Index)
    requires forall n <- names :: n in cands
  {
    && files' == FilesAfter(files, Baseline(packages), cands, names)
    && packages' == Written(packages, IndexAfter(Baseline(packages), cands, names))
  }

  /** Everything after the checks. */
  method Install(feed: FeedTree, sections: seq<string>, index: Index, cands: map<string, Repair>, names: seq<string>)
      returns (ok: bool)
    requires Covers(sections, index) && Fits(index, cands) && forall n <- names :: n in cands
    modifies feed
    ensures ok <==> AllRemovable(old(feed.files), index, cands, names)
    ensures !ok ==> feed.packages == old(feed.packages)
    ensures ok ==>
      && feed.files == FilesAfter(old(feed.files), index, cands, names)
      && feed.packages == Written(old(feed.packages), IndexAfter(index, cands, names))
  {
    var index';
    ok, index' := ReplaceAll(feed, sections, index, cands, names);
    if ok {
      WriteIndexes(feed, sections, index');
    }
  }

  method Merge(feed: FeedTree, repairs: seq<Repair>)
      returns (r: Outcome, ghost cands: map<string, Repair>, ghost names: seq<string>)
    modifies feed
    ensures r == Refused <==> !Acceptable(old(feed.files), old(feed.packages), repairs)
    ensures r == Refused ==> feed.files == old(feed.files)
    ensures r != Merged ==> feed.packages == old(feed.packages)
    ensures r != Refused ==> Chosen(repairs, cands) && SortedList(names, cands.Keys)
    ensures r != Refused ==>
      && (r == Merged <==> AllRemovable(old(feed.files), Baseline(old(feed.packages)), cands, names))
    ensures r == Merged ==> MergedTo(old(feed.files), old(feed.packages), cands, names, feed.files, feed.packages)
  {
    cands, names := map[], [];
    var ok, index, found := Validate(feed, repairs);
    if !ok {
      return Refused, cands, names;
    }
    var sorted := Sort(found.Keys);
    cands, names := found, sorted;
    ok := Install(feed, FEEDS, index, found, sorted);
    r := if ok then Merged else Broke;
  }
}
