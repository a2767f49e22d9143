/** The snapshot publisher of scripts/publish-release-feed.py: everything is checked first, then the
    missing files are uploaded one by one, packages before indexes. */
module ReleasePublisher {
  import opened Wrappers
  import opened Ordering
  import opened RemoteRelease

  datatype Record = Record(filename: string, size: nat, digest: Digest)

  /** The build provenance in source.json. */
  datatype Provenance = Provenance(format: int, revision: string, indexes: map<string, Digest>, packages: seq<Record>)

  /** A prepared snapshot: its files (and which are no regular files), the lines of SHA256SUMS, what
      source.json says, and whether tag, revision and URL agree with it. */
  datatype Snapshot = Snapshot(dir: Files, irregular: set<string>, sums: seq<(string, Digest)>,
                               provenance: Provenance, identified: bool)

  /** One upload: what other runs of the same snapshot do before it, and the reply. */
  datatype Step = Step(others: set<string>, published: bool, reply: Reply)

  /** Everything one run meets. With the steps used up the run dies. */
  datatype Run = Run(create: Reply, steps: seq<Step>, edit: Reply)

  datatype Outcome = Public | BadSnapshot | OtherRevision | UnexpectedAsset | DifferingAsset | Incomplete | Failed

  const SUMS := "SHA256SUMS"
  const INDEXES: set<string> := {"Packages", "Packages.gz"}
  const NAMES: set<string> := {"Packages", "Packages.gz", "source.json", "SHA256SUMS"}

  // ---------------------------------------------------------------- the snapshot

  ghost predicate SumsAgree(s: Snapshot) {
    && (forall i, j | 0 <= i < j < |s.sums| :: s.sums[i].0 != s.sums[j].0)
    && (forall n :: n in s.dir && n != SUMS <==> exists i :: 0 <= i < |s.sums| && s.sums[i].0 == n)
    && (forall i | 0 <= i < |s.sums| :: s.sums[i].0 in s.dir && Sha256(s.dir[s.sums[i].0]) == s.sums[i].1)
  }

  ghost predicate IndexesAgree(s: Snapshot) {
    && s.provenance.format == 2 && s.provenance.indexes.Keys == INDEXES
    && (forall n <- INDEXES :: n in s.dir && Sha256(s.dir[n]) == s.provenance.indexes[n])
  }

  ghost predicate PackagesAgree(s: Snapshot) {
    && (forall n :: n in s.dir <==> n in INDEXES || n == "source.json" || n == SUMS || IsPackage(s.provenance, n))
    && (forall r <- s.provenance.packages ::
          && r.filename in s.dir && r.filename != SUMS
          && Sha256(s.dir[r.filename]) == r.digest && |s.dir[r.filename]| == r.size)
  }

  ghost predicate IsPackage(p: Provenance, n: string) {
    exists r :: r in p.packages && r.filename == n
  }

  ghost predicate Valid(s: Snapshot) {
    && s.identified && s.irregular == {} && SUMS in s.dir
    && SumsAgree(s) && IndexesAgree(s) && PackagesAgree(s)
  }

  /** The provenance pins the snapshot: same provenance, same packages and indexes, byte for byte. */
  lemma ProvenancePins(a: Snapshot, b: Snapshot)
    requires Valid(a) && Valid(b) && a.provenance == b.provenance
    ensures a.dir.Keys == b.dir.Keys
    ensures forall n <- a.dir | n != SUMS && n != "source.json" :: a.dir[n] == b.dir[n]
  {
    forall n | n in a.dir && n != SUMS && n != "source.json" ensures n in b.dir && a.dir[n] == b.dir[n] {
      if n in INDEXES {
        assert Sha256(a.dir[n]) == Sha256(b.dir[n]);
      } else {
        var r :| r in a.provenance.packages && r.filename == n;
        assert Sha256(a.dir[n]) == Sha256(b.dir[n]);
      }
    }
  }

  /** What is valid: regular files only, namely the packages, the two indexes, source.json and SHA256SUMS;
      one checksum line for each but the last, with its digest; and the digests of the indexes and the
      digest and size of every package as source.json has them. */
  lemma ValidIff(s: Snapshot)
    ensures Valid(s) <==>
      && s.identified && s.irregular == {} && s.provenance.format == 2
      && (forall n :: n in s.dir <==> n in NAMES || exists r :: r in s.provenance.packages && r.filename == n)
      && (forall i, j | 0 <= i < j < |s.sums| :: s.sums[i].0 != s.sums[j].0)
      && (forall n | n in s.dir && n != SUMS :: (n, Sha256(s.dir[n])) in s.sums)
      && (forall line <- s.sums :: line.0 in s.dir && line.0 != SUMS && line.1 == Sha256(s.dir[line.0]))
      && s.provenance.indexes.Keys == INDEXES
      && (forall n <- INDEXES :: s.provenance.indexes[n] == Sha256(s.dir[n]))
      && (forall r <- s.provenance.packages ::
            r.filename != SUMS && r.digest == Sha256(s.dir[r.filename]) && r.size == |s.dir[r.filename]|)
  {
    NamesAre();
    SumsIff(s);
  }

  lemma NamesAre()
    ensures SUMS == "SHA256SUMS" && INDEXES == {"Packages", "Packages.gz"}
    ensures NAMES == INDEXES + {"source.json", SUMS}
    ensures forall n :: n in NAMES <==> n in INDEXES || n == "source.json" || n == SUMS
  {
  }

  lemma SumsIff(s: Snapshot)
    ensures SumsAgree(s) <==>
      && (forall i, j | 0 <= i < j < |s.sums| :: s.sums[i].0 != s.sums[j].0)
      && (forall n | n in s.dir && n != SUMS :: (n, Sha256(s.dir[n])) in s.sums)
      && (forall line <- s.sums :: line.0 in s.dir && line.0 != SUMS && line.1 == Sha256(s.dir[line.0]))
  {
  }

  /** Reads SHA256SUMS into a table, refusing repeated names. */
  method ReadSums(sums: seq<(string, Digest)>) returns (ok: bool, expected: map<string, Digest>)
    ensures ok <==> forall i, j | 0 <= i < j < |sums| :: sums[i].0 != sums[j].0
    ensures ok ==> forall n :: n in expected <==> exists i :: 0 <= i < |sums| && sums[i].0 == n
    ensures ok ==> forall i | 0 <= i < |sums| :: sums[i].0 in expected && expected[sums[i].0] == sums[i].1
  {
    expected := map[];
    for k := 0 to |sums|
      invariant forall i, j | 0 <= i < j < k :: sums[i].0 != sums[j].0
      invariant forall n :: n in expected <==> exists i :: 0 <= i < k && sums[i].0 == n
      invariant forall i | 0 <= i < k :: sums[i].0 in expected && expected[sums[i].0] == sums[i].1
    {
      if sums[k].0 in expected {
        return false, map[];
      }
      expected := expected[sums[k].0 := sums[k].1];
    }
    ok := true;
  }

  method CheckSums(s: Snapshot) returns (ok: bool, expected: map<string, Digest>)
    requires SUMS in s.dir
    ensures ok <==> SumsAgree(s)
    ensures ok ==> expected.Keys == s.dir.Keys - {SUMS} && forall n <- expected :: Sha256(s.dir[n]) == expected[n]
  {
    ok, expected := ReadSums(s.sums);
    if !ok {
      return;
    }
    if expected.Keys != s.dir.Keys - {SUMS} {
      ghost var n :| (n in expected) != (n in s.dir && n != SUMS);
      return false, expected;
    }
    for k := 0 to |s.sums|
      invariant forall i | 0 <= i < k :: Sha256(s.dir[s.sums[i].0]) == s.sums[i].1
    {
      assert s.sums[k].0 in expected;
      if Sha256(s.dir[s.sums[k].0]) != s.sums[k].1 {
        return false, expected;
      }
    }
    forall n ensures n in s.dir && n != SUMS <==> exists i :: 0 <= i < |s.sums| && s.sums[i].0 == n {
      assert n in expected <==> n in s.dir.Keys - {SUMS};
    }
  }

  predicate Described(r: Record, expected: map<string, Digest>, dir: Files)
    requires expected.Keys <= dir.Keys
  {
    r.filename in expected && expected[r.filename] == r.digest && |dir[r.filename]| == r.size
  }

  method CheckPackages(s: Snapshot, expected: map<string, Digest>) returns (ok: bool)
    requires expected.Keys == s.dir.Keys - {SUMS} && forall n <- expected :: Sha256(s.dir[n]) == expected[n]
    ensures ok <==> PackagesAgree(s)
  {
    var packages := s.provenance.packages;
    var names: set<string> := {};
    for k := 0 to |packages|
      invariant forall n :: n in names <==> exists r :: r in packages[..k] && r.filename == n
    {
      assert packages[..k + 1] == packages[..k] + [packages[k]];
      names := names + {packages[k].filename};
    }
    assert packages[..|packages|] == packages;
    if s.dir.Keys != names + INDEXES + {"source.json", SUMS} {
      ghost var n :| (n in s.dir) != (n in names + INDEXES + {"source.json", SUMS});
      return false;
    }
    for k := 0 to |packages|
      invariant forall i | 0 <= i < k :: Described(packages[i], expected, s.dir)
    {
      var r := packages[k];
      if !Described(r, expected, s.dir) {
        assert r in packages;
        return false;
      }
    }
    return true;
  }

  method Validate(s: Snapshot) returns (ok: bool)
    ensures ok <==> Valid(s)
  {
    if !s.identified || s.irregular != {} || SUMS !in s.dir {
      return false;
    }
    var expected;
    ok, expected := CheckSums(s);
    if !ok {
      return false;
    }
    if s.provenance.format != 2 || s.provenance.indexes.Keys != INDEXES {
      return false;
    }
    ok := CheckPackages(s, expected);
    if !ok {
      return false;
    }
    assert SUMS[0] == 'S';
    ok := && expected["Packages"] == s.provenance.indexes["Packages"]
          && expected["Packages.gz"] == s.provenance.indexes["Packages.gz"];
  }

  // ---------------------------------------------------------------- the release

  predicate IsIpk(n: string) {
    |n| >= 4 && n[|n| - 4..] == ".ipk"
  }

  /** An index, provenance or checksum file is there only if every package is. */
  ghost predicate PackagesFirst(assets: Files, dir: Files) {
    (exists n :: n in assets && !IsIpk(n)) ==> forall n <- dir | IsIpk(n) :: n in assets
  }

  /** What every run of the publisher keeps. */
  ghost predicate Sound(r: Release, s: Snapshot)
    reads r
  {
    && Within(r.assets, s.dir) && PackagesFirst(r.assets, s.dir)
    && (if r.created then (r.draft || r.assets == s.dir) && r.target == s.provenance.revision else r.assets == map[])
  }

  /** Other runs of the same snapshot: they keep the order, and publish only the complete snapshot. */
  method Interfere(r: Release, dir: Files, step: Step)
    modifies r`assets, r`draft
    ensures Grown(old(r.assets), r.assets, dir)
    ensures step.others == {} ==> r.assets == old(r.assets)
    ensures old(PackagesFirst(r.assets, dir)) ==> PackagesFirst(r.assets, dir)
    ensures r.draft <==> old(r.draft) && !(step.published && r.assets == dir)
  {
    StoreGrows(r.assets, dir, step.others);
    if step.others != {} && OrderKept(Store(r.assets, dir, step.others), dir) {
      r.assets := Store(r.assets, dir, step.others);
    }
    if step.published && r.assets == dir {
      r.draft := false;
    }
  }

  predicate OrderKept(assets: Files, dir: Files) {
    (forall n <- assets :: IsIpk(n)) || (forall n <- dir :: IsIpk(n) ==> n in assets)
  }

  /** Packages in order of name, then the rest in order of name. */
  ghost predicate UploadOrder(names: seq<string>, missing: set<string>) {
    && (forall n :: n in names <==> n in missing)
    && (forall i, j | 0 <= i < j < |names| :: names[i] != names[j])
    && (forall i, j | 0 <= i < j < |names| ::
          if IsIpk(names[i]) == IsIpk(names[j]) then Le(names[i], names[j]) else IsIpk(names[i]))
  }

  method InUploadOrder(missing: set<string>) returns (names: seq<string>)
    ensures UploadOrder(names, missing) && |names| == |missing|
    ensures forall n :: n in names <==> n in missing
    ensures forall i, j | 0 <= i < j < |names| && |names[j]| >= 4 && names[j][|names[j]| - 4..] == ".ipk" ::
      |names[i]| >= 4 && names[i][|names[i]| - 4..] == ".ipk"
  {
    var ipks, rest := set n | n in missing && IsIpk(n), set n | n in missing && !IsIpk(n);
    var a := Sort(ipks);
    var b := Sort(rest);
    names := a + b;
    assert missing == ipks + rest;
    BothInOrder(a, b, ipks, rest);
    PackagesAhead(names, missing);
  }

  lemma BothInOrder(a: seq<string>, b: seq<string>, ipks: set<string>, rest: set<string>)
    requires SortedList(a, ipks) && SortedList(b, rest)
    requires (forall n <- ipks :: IsIpk(n)) && (forall n <- rest :: !IsIpk(n))
    ensures UploadOrder(a + b, ipks + rest)
  {
    assert forall i | 0 <= i < |a| :: a[i] in ipks;
    assert forall i | 0 <= i < |b| :: b[i] in rest;
  }

  lemma PackagesAhead(names: seq<string>, missing: set<string>)
    requires UploadOrder(names, missing)
    ensures forall i, j | 0 <= i < j < |names| && |names[j]| >= 4 && names[j][|names[j]| - 4..] == ".ipk" ::
      |names[i]| >= 4 && names[i][|names[i]| - 4..] == ".ipk"
  {
    forall i, j | 0 <= i < j < |names| && |names[j]| >= 4 && names[j][|names[j]| - 4..] == ".ipk"
      ensures |names[i]| >= 4 && names[i][|names[i]| - 4..] == ".ipk" {
      assert IsIpk(names[j]);
      assert IsIpk(names[i]);
    }
  }

  /** Uploads the missing files one by one. */
  method UploadAll(r: Release, dir: Files, names: seq<string>, steps: seq<Step>) returns (done: bool)
    requires r.created && r.draft && Within(r.assets, dir) && UploadOrder(names, dir.Keys - r.assets.Keys)
    modifies r`assets, r`draft
    ensures Grown(old(r.assets), r.assets, dir)
    ensures !r.draft ==> r.assets == dir
    ensures old(PackagesFirst(r.assets, dir)) ==> PackagesFirst(r.assets, dir)
    ensures done ==> r.assets == dir
    ensures |names| <= |steps| && (forall e <- steps :: e.others == {} && e.reply.Done?) ==> done
  {
    ghost var first := r.assets;
    for k := 0 to |names|
      invariant k <= |steps|
      invariant Within(r.assets, dir) && Grown(first, r.assets, dir)
      invariant forall i | 0 <= i < k :: names[i] in r.assets
      invariant !r.draft ==> r.assets == dir
      invariant PackagesFirst(first, dir) ==> PackagesFirst(r.assets, dir)
      invariant (forall e <- steps :: e.others == {}) ==> r.assets.Keys == first.Keys + set i | 0 <= i < k :: names[i]
    {
      if k == |steps| {
        return false;
      }
      Interfere(r, dir, steps[k]);
      var n := names[k];
      assert n in dir.Keys - first.Keys;
      if n in r.assets || steps[k].reply.Refused? {
        return false;
      }
      UploadKeepsOrder(first, r.assets, dir, names, k);
      r.assets := r.assets[n := dir[n]];
      if steps[k].reply.Lost? {
        return false;
      }
    }
    forall n | n in dir ensures n in r.assets {
      if n !in first {
        assert n in dir.Keys - first.Keys;
        assert n in names;
      }
    }
    WithinComplete(r.assets, dir);
    done := true;
  }

  lemma UploadKeepsOrder(first: Files, assets: Files, dir: Files, names: seq<string>, k: nat)
    requires UploadOrder(names, dir.Keys - first.Keys) && k < |names| && Grown(first, assets, dir)
    requires forall i | 0 <= i < k :: names[i] in assets
    ensures names[k] in dir
    ensures PackagesFirst(assets, dir) ==> PackagesFirst(assets[names[k] := dir[names[k]]], dir)
  {
    var n := names[k];
    assert n in dir.Keys - first.Keys;
    if !IsIpk(n) {
      forall m <- dir | IsIpk(m) ensures m in assets {
        if m !in first {
          assert m in dir.Keys - first.Keys;
          var i :| 0 <= i < |names| && names[i] == m;
          assert i < k;
        }
      }
    }
  }

  /** In terms of a snapshot whose packages end in .ipk: whatever is no package comes after all of them. */
  lemma PackagesFirstIff(s: Snapshot, assets: Files)
    requires Valid(s) && Within(assets, s.dir)
    requires forall p <- s.provenance.packages ::
               |p.filename| >= 4 && p.filename[|p.filename| - 4..] == ".ipk"
    ensures PackagesFirst(assets, s.dir) <==>
      forall n <- assets, p <- s.provenance.packages | n in {"Packages", "Packages.gz", "source.json", "SHA256SUMS"} ::
        p.filename in assets
  {
    NoPackageNames();
    forall n | n in s.dir
      ensures !IsIpk(n) <==> n in {"Packages", "Packages.gz", "source.json", "SHA256SUMS"}
      ensures IsIpk(n) ==> IsPackage(s.provenance, n) {
    }
    forall p | p in s.provenance.packages ensures p.filename in s.dir && IsIpk(p.filename) {
    }
  }

  lemma IndexesLast(s: Snapshot)
    requires Valid(s)
    ensures forall assets: Files | Within(assets, s.dir) && (forall p <- s.provenance.packages ::
                                     |p.filename| >= 4 && p.filename[|p.filename| - 4..] == ".ipk") ::
      PackagesFirst(assets, s.dir) <==>
        forall n <- assets, p <- s.provenance.packages |
          n in {"Packages", "Packages.gz", "source.json", "SHA256SUMS"} :: p.filename in assets
  {
    if forall p <- s.provenance.packages :: |p.filename| >= 4 && p.filename[|p.filename| - 4..] == ".ipk" {
      forall assets: Files | Within(assets, s.dir)
        ensures PackagesFirst(assets, s.dir) <==>
          forall n <- assets, p <- s.provenance.packages |
            n in {"Packages", "Packages.gz", "source.json", "SHA256SUMS"} :: p.filename in assets {
        PackagesFirstIff(s, assets);
      }
    }
  }

  lemma NoPackageNames()
    ensures forall n | n in {"Packages", "Packages.gz", "source.json", "SHA256SUMS"} :: !IsIpk(n)
  {
    assert "Packages"[4] == 'a' && "Packages.gz"[7] == 's' && "source.json"[7] == 'j' && "SHA256SUMS"[6] == 'S';
  }

  /** What an existing release is refused for. */
  ghost function Refusal(created: bool, target: string, draft: bool, assets: Files, s: Snapshot): Outcome {
    if !created then Public
    else if target != s.provenance.revision then OtherRevision
    else if !(assets.Keys <= s.dir.Keys) then UnexpectedAsset
    else if !Within(assets, s.dir) then DifferingAsset
    else if !draft && assets != s.dir then Incomplete
    else Public
  }

  method CheckRelease(r: Release, s: Snapshot) returns (o: Outcome)
    requires r.created
    ensures o == Refusal(true, r.target, r.draft, r.assets, s)
    ensures o == OtherRevision <==> r.target != s.provenance.revision
    ensures o == UnexpectedAsset <==> r.target == s.provenance.revision && exists n :: n in r.assets && n !in s.dir
    ensures o == DifferingAsset
       <==> r.target == s.provenance.revision && (forall n <- r.assets :: n in s.dir)
            && exists n :: n in r.assets && r.assets[n] != s.dir[n]
    ensures o == Incomplete
       <==> r.target == s.provenance.revision && (forall n <- r.assets :: n in s.dir && r.assets[n] == s.dir[n])
            && !r.draft && exists n :: n in s.dir && n !in r.assets
    ensures o in {Public, OtherRevision, UnexpectedAsset, DifferingAsset, Incomplete}
  {
    if r.target != s.provenance.revision {
      return OtherRevision;
    }
    if r.assets.Keys - s.dir.Keys != {} {
      return UnexpectedAsset;
    }
    assert r.assets.Keys <= s.dir.Keys by {
      forall n | n in r.assets ensures n in s.dir {
        assert n !in r.assets.Keys - s.dir.Keys;
      }
    }
    var names := Sort(r.assets.Keys);
    for i := 0 to |names|
      invariant forall j | 0 <= j < i :: r.assets[names[j]] == s.dir[names[j]]
    {
      assert names[i] in r.assets.Keys;
      if Sha256(r.assets[names[i]]) != Sha256(s.dir[names[i]]) {
        return DifferingAsset;
      }
    }
    assert Within(r.assets, s.dir) by {
      forall n | n in r.assets ensures r.assets[n] == s.dir[n] {
        assert n in names;
      }
    }
    WithinComplete(r.assets, s.dir);
    if !r.draft && s.dir.Keys - r.assets.Keys != {} {
      return Incomplete;
    }
    return Public;
  }

  /** No other run, no failure, and steps enough for every file. */
  ghost predicate Undisturbed(run: Run, dir: Files) {
    && run.create.Done? && run.edit.Done? && |dir.Keys| <= |run.steps|
    && forall e <- run.steps :: e.others == {} && e.reply.Done?
  }

  /** One run against a release in any state. Uploads are single requests that may be refused or whose
      reply may be lost, so every state inside a run is also the last state of some run. */
  method Publish(r: Release, s: Snapshot, run: Run) returns (o: Outcome)
    modifies r
    // nothing is replaced or removed, everything new is from the snapshot, public is final and complete
    ensures old(r.created) ==> r.created && r.target == old(r.target) && Grown(old(r.assets), r.assets, s.dir)
    ensures old(r.created && !r.draft) ==> !r.draft && r.assets == old(r.assets)
    ensures old(r.created && r.draft) && !r.draft ==> r.assets == s.dir
    ensures old(Sound(r, s)) ==> Sound(r, s)
    // where the packages end in .ipk, an index, provenance or checksum file is there only with every package
    ensures Valid(s) && old(Within(r.assets, s.dir))
        && (forall p <- s.provenance.packages ::
              |p.filename| >= 4 && p.filename[|p.filename| - 4..] == ".ipk")
        && (forall n <- old(r.assets), p <- s.provenance.packages |
              n in {"Packages", "Packages.gz", "source.json", "SHA256SUMS"} :: p.filename in old(r.assets))
        ==> forall n <- r.assets, p <- s.provenance.packages |
              n in {"Packages", "Packages.gz", "source.json", "SHA256SUMS"} :: p.filename in r.assets
    // a bad snapshot or release is refused, for exactly this reason, before anything is changed
    ensures o == BadSnapshot <==> !Valid(s)
    ensures Valid(s)
        && (o != Failed || Refusal(old(r.created), old(r.target), old(r.draft), old(r.assets), s) != Public)
        ==> o == Refusal(old(r.created), old(r.target), old(r.draft), old(r.assets), s)
    ensures o != Public && o != Failed
        ==> r.created == old(r.created) && r.draft == old(r.draft) && r.assets == old(r.assets)
    ensures o == Public ==> r.created && !r.draft && r.assets == s.dir && r.target == s.provenance.revision
    // one undisturbed run is enough
    ensures Valid(s) && old(Sound(r, s)) && Undisturbed(run, s.dir) ==> o == Public
  {
    var ok := Validate(s);
    if !ok {
      return BadSnapshot;
    }
    IndexesLast(s);
    if r.created {
      o := CheckRelease(r, s);
      if o != Public {
        return;
      }
    } else {
      ok := Create(r, s.provenance.revision, run.create);
      if !ok {
        return Failed;
      }
    }
    o := Complete(r, s.dir, run);
  }

  /** A checked release: upload what is missing and make it public. */
  method Complete(r: Release, dir: Files, run: Run) returns (o: Outcome)
    requires r.created && Within(r.assets, dir) && (r.draft || r.assets == dir)
    modifies r`assets, r`draft
    ensures o == Public || o == Failed
    ensures Grown(old(r.assets), r.assets, dir)
    ensures r.draft || r.assets == dir
    ensures r.draft ==> old(r.draft)
    ensures old(!r.draft) ==> r.assets == old(r.assets)
    ensures old(PackagesFirst(r.assets, dir)) ==> PackagesFirst(r.assets, dir)
    ensures o == Public ==> !r.draft && r.assets == dir
    ensures Undisturbed(run, dir) ==> o == Public
  {
    if r.draft {
      var names := InUploadOrder(dir.Keys - r.assets.Keys);
      Included(dir.Keys - r.assets.Keys, dir.Keys);
      var done := UploadAll(r, dir, names, run.steps);
      if !done {
        return Failed;
      }
      if run.edit.Refused? {
        return Failed;
      }
      r.draft := false;
      if run.edit.Lost? {
        return Failed;
      }
    }
    o := Public;
  }

  /** Runs one after the other, from a release that is not there yet or was left by earlier runs: after
      each of them, and wherever one of them died, the release is sound. */
  method Reruns(r: Release, s: Snapshot, runs: seq<Run>) returns (outcomes: seq<Outcome>)
    requires Valid(s) && Sound(r, s)
    modifies r
    ensures Sound(r, s) && |outcomes| == |runs|
    ensures (forall p <- s.provenance.packages :: |p.filename| >= 4 && p.filename[|p.filename| - 4..] == ".ipk")
        ==> forall n <- r.assets, p <- s.provenance.packages |
              n in {"Packages", "Packages.gz", "source.json", "SHA256SUMS"} :: p.filename in r.assets
    // over the whole sequence nothing is replaced or removed, and public is final and complete
    ensures Grown(old(r.assets), r.assets, s.dir)
    ensures old(r.created) ==> r.created && r.target == old(r.target)
    ensures old(r.created && !r.draft) ==> !r.draft && r.assets == old(r.assets)
    ensures r.created && !r.draft ==> r.assets == s.dir
    ensures forall o <- outcomes :: o == Public || o == Failed
    ensures Public in outcomes ==> r.created && !r.draft && r.assets == s.dir
    ensures (exists run :: run in runs && Undisturbed(run, s.dir)) ==> Public in outcomes
  {
    IndexesLast(s);
    outcomes := [];
    for i := 0 to |runs|
      invariant Sound(r, s) && |outcomes| == i
      invariant Grown(old(r.assets), r.assets, s.dir)
      invariant old(r.created) ==> r.created && r.target == old(r.target)
      invariant old(r.created && !r.draft) ==> !r.draft && r.assets == old(r.assets)
      invariant forall o <- outcomes :: o == Public || o == Failed
      invariant Public in outcomes ==> r.created && !r.draft && r.assets == s.dir
      invariant (exists run :: run in runs[..i] && Undisturbed(run, s.dir)) ==> Public in outcomes
    {
      assert runs[..i + 1] == runs[..i] + [runs[i]];
      var o := Publish(r, s, runs[i]);
      outcomes := outcomes + [o];
    }
    assert runs[..|runs|] == runs;
  }
}
