/** What a merged shard feed holds, and that the order of enumeration leaves no trace in it. */
module ShardMergeLaws {
  import opened Wrappers
  import opened Ordering
  import opened PackageNames
  import opened ShardSelect
  import opened ShardCoverage
  import opened ShardMerge

  // ---------------------------------------------------------------- what the feed holds

  /** Every package any shard offers is in the feed once, and its file is the owner's if the owner built
      it, else that of the lowest-numbered shard. */
  lemma WinnerIs(shards: Shards, k: Key)
    requires AllFound(shards) && Choices(shards, k) != []
    ensures Made(shards, Winner(shards, k)) && Offers(Winner(shards, k).ipk, k)
    ensures IsPick(Choices(shards, k), Owners(shards), k.1, Winner(shards, k))
  {
    PickIs(Choices(shards, k), Owners(shards), k.1);
    ChoicesHas(shards, k, Winner(shards, k));
  }

  /** No two packages of a feed have the same file name. */
  ghost predicate OwnFile(shards: Shards, f: string, names: seq<string>)
    requires AllFound(shards) && Offered(shards, f, names)
  {
    forall m <- names, n <- names | m != n :: Winner(shards, (f, m)).ipk.file != Winner(shards, (f, n)).ipk.file
  }

  ghost predicate HasFile(shards: Shards, f: string, n: string, file: string)
    requires AllFound(shards) && Choices(shards, (f, n)) != []
  {
    Winner(shards, (f, n)).ipk.file == file
  }

  /** The last package in order whose chosen file has this name, or -1. */
  ghost function LastNamed(shards: Shards, f: string, names: seq<string>, file: string): (k: int)
    requires AllFound(shards) && Offered(shards, f, names)
    ensures -1 <= k < |names|
    ensures k >= 0 ==> names[k] in names && HasFile(shards, f, names[k], file)
  {
    if names == [] then -1
    else if HasFile(shards, f, names[|names| - 1], file) then |names| - 1
    else LastNamed(shards, f, names[..|names| - 1], file)
  }

  lemma {:induction false} NoLaterNamed(shards: Shards, f: string, names: seq<string>, file: string, j: nat)
    requires AllFound(shards) && Offered(shards, f, names) && LastNamed(shards, f, names, file) < j < |names|
    ensures names[j] in names && !HasFile(shards, f, names[j], file)
  {
    if j < |names| - 1 {
      NoLaterNamed(shards, f, names[..|names| - 1], file, j);
    }
  }

  /** A file is there exactly if some package has one of that name, and then that of the last of them. */
  lemma {:induction false} FilesAre(shards: Shards, f: string, names: seq<string>, file: string)
    requires AllFound(shards) && Offered(shards, f, names)
    ensures var k, files := LastNamed(shards, f, names, file), Files(shards, f, names);
            && (file in files <==> k >= 0)
            && (k >= 0 ==> files[file] == Winner(shards, (f, names[k])).ipk.content)
  {
    if names != [] {
      var front, last := names[..|names| - 1], names[|names| - 1];
      assert names == front + [last];
      if !HasFile(shards, f, last, file) {
        FilesAre(shards, f, front, file);
      }
    }
  }

  /** File names are distinct where versions have no underscore and only the two architectures occur. */
  lemma UnderscoreFreeOwnFile(shards: Shards, f: string, names: seq<string>)
    requires AllFound(shards) && Offered(shards, f, names)
    requires forall s <- shards, p <- s.ipks | Readable(p) :: '_' !in p.control.version && p.control.arch in ARCHES
    ensures OwnFile(shards, f, names)
  {
    forall m, n | m in names && n in names && m != n
      ensures Winner(shards, (f, m)).ipk.file != Winner(shards, (f, n)).ipk.file
    {
      WinnerIs(shards, (f, m));
      WinnerIs(shards, (f, n));
      var a, b := Winner(shards, (f, m)).ipk.control, Winner(shards, (f, n)).ipk.control;
      if Winner(shards, (f, m)).ipk.file == Winner(shards, (f, n)).ipk.file {
        FileNamesInjective(a.package, a.version, a.arch, b.package, b.version, b.arch);
      }
    }
  }

  lemma {:induction false} EntriesHave(shards: Shards, f: string, names: seq<string>)
    requires AllFound(shards) && Offered(shards, f, names)
    ensures |Entries(shards, f, names)| == |names|
    ensures forall i | 0 <= i < |names| :: Entries(shards, f, names)[i].0 == Winner(shards, (f, names[i])).ipk.file
    ensures forall i | 0 <= i < |names| :: Winner(shards, (f, names[i])).ipk.control.Control?
    ensures forall i | 0 <= i < |names| ::
      Entries(shards, f, names)[i].1 == Winner(shards, (f, names[i])).ipk.control.text
  {
    if names != [] {
      var front, last := names[..|names| - 1], names[|names| - 1];
      assert names == front + [last];
      EntriesHave(shards, f, front);
      WinnerIs(shards, (f, last));
      assert forall i | 0 <= i < |front| :: names[i] == front[i];
    }
  }

  lemma StanzasKeepFiles(entries: seq<(string, string)>, files: map<string, string>)
    requires OrderedBy(FileOf, entries)
    ensures forall i, j | 0 <= i < j < |Stanzas(entries, files)| ::
      Le(Stanzas(entries, files)[i].file, Stanzas(entries, files)[j].file)
  {
    var stanzas := Stanzas(entries, files);
    forall i | 0 <= i < |stanzas| ensures stanzas[i].file == FileOf(entries[i]) {}
  }

  /** A feed holds one stanza for every package, in the order of file names, with the control text of the
      chosen file and size and digest of the file of that name. That file is the chosen one exactly if the
      last package in order with that file name has the same bytes; so always where names are distinct. */
  lemma FeedHolds(shards: Shards, f: string, names: seq<string>, n: string)
    requires AllFound(shards) && NamesOf(shards, f, names) && n in names
    ensures var dir, ipk := Built(shards, f, names), Winner(shards, (f, n)).ipk;
            && ipk.file in dir.files && ipk.control.Control?
            && Stanza(ipk.control.text, ipk.file, |dir.files[ipk.file]|, Sha256(dir.files[ipk.file])) in dir.index
            && |dir.index| == |names|
            && (forall i, j | 0 <= i < j < |dir.index| :: Le(dir.index[i].file, dir.index[j].file))
    ensures var dir, ipk := Built(shards, f, names), Winner(shards, (f, n)).ipk;
            var k := LastNamed(shards, f, names, ipk.file);
            k >= 0
            && (dir.files[ipk.file] == ipk.content
                <==> Winner(shards, (f, names[k])).ipk.content == ipk.content)
    ensures var dir, ipk := Built(shards, f, names), Winner(shards, (f, n)).ipk;
            OwnFile(shards, f, names) ==> dir.files[ipk.file] == ipk.content
  {
    var k :| 0 <= k < |names| && names[k] == n;
    var file := Winner(shards, (f, n)).ipk.file;
    FilesAre(shards, f, names, file);
    if LastNamed(shards, f, names, file) < k {
      NoLaterNamed(shards, f, names, file, k);
    }
    EntriesHave(shards, f, names);
    var dir, entries := Built(shards, f, names), Entries(shards, f, names);
    SortBySorts(FileOf, entries);
    StanzasKeepFiles(SortBy(FileOf, entries), dir.files);
    StanzaPresent(entries, dir.files, k);
  }

  lemma StanzaPresent(entries: seq<(string, string)>, files: map<string, string>, k: nat)
    requires k < |entries|
    ensures StanzaOf(entries[k], files) in Stanzas(SortBy(FileOf, entries), files)
    ensures |Stanzas(SortBy(FileOf, entries), files)| == |entries|
  {
    SortBySorts(FileOf, entries);
    var sorted := SortBy(FileOf, entries);
    assert |multiset(sorted)| == |sorted| && |multiset(entries)| == |entries|;
    assert entries[k] in multiset(sorted);
    var j :| 0 <= j < |sorted| && sorted[j] == entries[k];
    assert Stanzas(sorted, files)[j] == StanzaOf(entries[k], files);
  }

  // ---------------------------------------------------------------- enumeration order

  /** A directory cannot hold two files of one name. */
  ghost predicate OnDisk(shards: Shards) {
    forall s <- shards, a <- s.ipks, b <- s.ipks | a.feed == b.feed && a.file == b.file :: a == b
  }

  /** The same artifacts, with the files of each enumerated in another order. */
  ghost predicate Reordered(a: Shards, b: Shards) {
    && |a| == |b|
    && forall i | 0 <= i < |a| ::
         a[i].manifest == b[i].manifest && a[i].report == b[i].report && multiset(a[i].ipks) == multiset(b[i].ipks)
  }

  lemma ReorderedMade(a: Shards, b: Shards, c: Choice)
    requires Reordered(a, b) && AllFound(a) && AllFound(b) && Made(a, c)
    ensures Made(b, c)
  {
    var s :| s in a && c.index == IndexOf(s) && c.ipk in s.ipks;
    var i :| 0 <= i < |a| && a[i] == s;
    assert c.ipk in multiset(a[i].ipks);
    assert b[i] in b;
  }

  lemma ReorderedChoices(a: Shards, b: Shards, k: Key, c: Choice)
    requires Reordered(a, b) && AllFound(a) && AllFound(b)
    ensures c in Choices(a, k) <==> c in Choices(b, k)
  {
    ChoicesHas(a, k, c);
    ChoicesHas(b, k, c);
    if Made(a, c) { ReorderedMade(a, b, c); }
    if Made(b, c) { ReorderedMade(b, a, c); }
  }

  lemma ReorderedFound(a: Shards, b: Shards)
    requires Reordered(a, b) && AllFound(a)
    ensures AllFound(b)
  {
    forall s | s in b ensures s.manifest.Some? {
      var i :| 0 <= i < |b| && b[i] == s;
      assert a[i] in a;
    }
  }

  lemma {:induction false} ReorderedLists(a: Shards, b: Shards)
    requires Reordered(a, b)
    ensures AllPackages(a) == AllPackages(b) && AllRecipes(a) == AllRecipes(b)
  {
    if a != [] {
      var n := |a| - 1;
      ReorderedLists(a[..n], b[..n]);
      assert a[n].manifest == b[n].manifest;
    }
  }

  lemma OwnersLast(shards: Shards)
    requires shards != [] && AllFound(shards)
    ensures var n := |shards| - 1;
            && AllFound(shards[..n]) && shards[n].manifest.Some?
            && Owners(shards) == Owners(shards[..n]) + map p | p in PackagesOf(shards[n]) :: IndexOf(shards[n])
  {
    assert shards[|shards| - 1] in shards && forall t <- shards[..|shards| - 1] :: t in shards;
  }

  lemma {:induction false} ReorderedOwners(a: Shards, b: Shards)
    requires Reordered(a, b) && AllFound(a) && AllFound(b)
    ensures Owners(a) == Owners(b)
  {
    if a != [] {
      var n := |a| - 1;
      OwnersLast(a);
      OwnersLast(b);
      assert a[n].manifest == b[n].manifest;
      ReorderedOwners(a[..n], b[..n]);
    }
  }

  lemma ReorderedManifests(a: Shards, b: Shards)
    requires Reordered(a, b) && AllFound(a)
    ensures AllFound(b) && Owners(a) == Owners(b) && AllPackages(a) == AllPackages(b) && AllRecipes(a) == AllRecipes(b)
  {
    ReorderedFound(a, b);
    ReorderedLists(a, b);
    ReorderedOwners(a, b);
  }

  /** The files of one shard that offer a package are one file. */
  lemma OneFile(shards: Shards, k: Key, c: Choice, d: Choice)
    requires AllFound(shards) && OwnIndexes(shards) && OnDisk(shards) && NoConflict(Choices(shards, k))
    requires c in Choices(shards, k) && d in Choices(shards, k) && c.index == d.index
    ensures c == d
  {
    ChoicesHas(shards, k, c);
    ChoicesHas(shards, k, d);
    var s :| s in shards && c.index == IndexOf(s) && c.ipk in s.ipks;
    var t :| t in shards && d.index == IndexOf(t) && d.ipk in t.ipks;
    var i :| 0 <= i < |shards| && shards[i] == s;
    var j :| 0 <= j < |shards| && shards[j] == t;
    assert i == j;
    assert c.ipk.feed == d.ipk.feed && c.ipk.file == d.ipk.file;
  }

  lemma SameWinner(a: Shards, b: Shards, k: Key)
    requires Reordered(a, b) && AllFound(a) && AllFound(b) && OwnIndexes(a) && OnDisk(a)
    requires NoConflict(Choices(a, k))
    ensures Choices(a, k) != [] <==> Choices(b, k) != []
    ensures Choices(a, k) != [] ==> Winner(a, k) == Winner(b, k)
  {
    forall c ensures c in Choices(a, k) <==> c in Choices(b, k) {
      ReorderedChoices(a, b, k, c);
    }
    assert Choices(a, k) != [] ==> Choices(a, k)[0] in Choices(b, k);
    assert Choices(b, k) != [] ==> Choices(b, k)[0] in Choices(a, k);
    if Choices(a, k) != [] {
      ReorderedManifests(a, b);
      PickIs(Choices(a, k), Owners(a), k.1);
      PickIs(Choices(b, k), Owners(b), k.1);
      var v, w := Winner(a, k), Winner(b, k);
      assert v.index == w.index;
      OneFile(a, k, v, w);
    }
  }

  lemma {:induction false} SameBuilt(a: Shards, b: Shards, f: string, names: seq<string>)
    requires Reordered(a, b) && AllFound(a) && AllFound(b) && OwnIndexes(a) && OnDisk(a) && Peaceful(a)
    requires Offered(a, f, names) && Offered(b, f, names)
    ensures Files(a, f, names) == Files(b, f, names) && Entries(a, f, names) == Entries(b, f, names)
  {
    if names != [] {
      var front := names[..|names| - 1];
      assert names == front + [names[|names| - 1]];
      SameWinner(a, b, (f, names[|names| - 1]));
      SameBuilt(a, b, f, front);
    }
  }

  lemma SameNames(a: Shards, b: Shards, f: string, m: seq<string>, n: seq<string>)
    requires AllFound(a) && AllFound(b) && NamesOf(a, f, m) && NamesOf(b, f, n)
    requires forall p :: Choices(a, (f, p)) != [] <==> Choices(b, (f, p)) != []
    ensures m == n
  {
    forall p ensures p in n <==> p in m {
      assert p in m <==> Choices(a, (f, p)) != [];
    }
    SortedUnique(m, n, set p | p in m);
  }

  lemma SameFeed(a: Shards, b: Shards, f: string, x: FeedDir, y: FeedDir)
    requires Reordered(a, b) && AllFound(a) && AllFound(b) && OwnIndexes(a) && OnDisk(a) && Peaceful(a)
    requires IsFeed(a, f, x) && IsFeed(b, f, y)
    ensures x == y
  {
    forall p ensures Choices(a, (f, p)) != [] <==> Choices(b, (f, p)) != [] {
      SameWinner(a, b, (f, p));
    }
    var m :| NamesOf(a, f, m) && m != [] && x == Built(a, f, m);
    var n :| NamesOf(b, f, n) && n != [] && y == Built(b, f, n);
    SameNames(a, b, f, m, n);
    SameBuilt(a, b, f, m);
  }

  lemma SameAt(a: Shards, b: Shards, x: map<string, FeedDir>, y: map<string, FeedDir>, f: string)
    requires Reordered(a, b) && AllFound(a) && AllFound(b) && OwnIndexes(a) && OnDisk(a) && Peaceful(a)
    requires IsOutput(a, x) && IsOutput(b, y)
    ensures (f in x <==> f in y) && (f in x ==> x[f] == y[f])
  {
    InOutput(a, x, f);
    InOutput(b, y, f);
    if n :| Choices(a, (f, n)) != [] {
      SameWinner(a, b, (f, n));
    }
    if n :| Choices(b, (f, n)) != [] {
      SameWinner(a, b, (f, n));
    }
    if f in x {
      SameFeed(a, b, f, x[f], y[f]);
    }
  }

  /** The merged feed does not depend on the order in which the files of an artifact are enumerated. */
  lemma EnumerationDoesNotMatter(a: Shards, b: Shards, x: map<string, FeedDir>, y: map<string, FeedDir>)
    requires Reordered(a, b) && AllFound(a) && AllFound(b) && OwnIndexes(a) && OnDisk(a) && Peaceful(a)
    requires IsOutput(a, x) && IsOutput(b, y)
    ensures x == y
  {
    forall f ensures (f in x <==> f in y) && (f in x ==> x[f] == y[f]) {
      SameAt(a, b, x, y, f);
    }
    SameMap(x, y);
  }

  lemma SameMap(x: map<string, FeedDir>, y: map<string, FeedDir>)
    requires forall f :: (f in x <==> f in y) && (f in x ==> x[f] == y[f])
    ensures x == y
  {
    assert x.Keys == y.Keys;
  }

  lemma InOutput(shards: Shards, feed: map<string, FeedDir>, f: string)
    requires AllFound(shards) && IsOutput(shards, feed)
    ensures f in feed <==> exists n :: Choices(shards, (f, n)) != []
  {
    if f in feed {
      var names :| NamesOf(shards, f, names) && names != [] && feed[f] == Built(shards, f, names);
      assert names[0] in names;
    }
  }

  lemma AcceptedEitherWay(a: Shards, b: Shards, count: int)
    requires Reordered(a, b) && Accepted(a, count)
    ensures Accepted(b, count)
  {
    ReorderedManifests(a, b);
    forall s | s in b ensures s.ipks != [] || s.report {
      var i :| 0 <= i < |b| && b[i] == s;
      assert a[i] in a;
      assert |multiset(a[i].ipks)| == |a[i].ipks| && |multiset(b[i].ipks)| == |b[i].ipks|;
    }
    forall i | 0 <= i < count ensures HasIndex(b, i) {
      assert HasIndex(a, i);
      var s :| s in a && s.manifest.Some? && IndexOf(s) == i;
      var j :| 0 <= j < |a| && a[j] == s;
      assert b[j] in b;
    }
    if |b| == count {
      AgreeIff(a, count);
      AgreeIff(b, count);
      forall i | 0 <= i < |b| ensures !Deviates(b, i, count) {
        assert !Deviates(a, i, count);
      }
    }
  }

  /** Nor does whether there is one. */
  lemma MergeableEitherWay(a: Shards, b: Shards, count: int)
    requires Reordered(a, b) && Mergeable(a, count)
    ensures Mergeable(b, count)
  {
    AcceptedEitherWay(a, b, count);
    ReorderedManifests(a, b);
    forall s, p: Ipk | s in b && p in s.ipks ensures p.feed in FEEDS {
      var i :| 0 <= i < |b| && b[i] == s;
      assert a[i] in a && p in multiset(a[i].ipks);
    }
    var k :| Choices(a, k) != [];
    ReorderedChoices(a, b, k, Choices(a, k)[0]);
    forall k ensures NoConflict(Choices(b, k)) {
      forall c | c in Choices(b, k) ensures c in Choices(a, k) {
        ReorderedChoices(a, b, k, c);
      }
      assert NoConflict(Choices(a, k));
    }
  }
}
