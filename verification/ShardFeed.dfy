/** The merged shard feed in terms of the artifacts alone. */
module ShardFeed {
  import opened Wrappers
  import opened Ordering
  import opened PackageNames
  import opened ShardSelect
  import opened ShardCoverage
  import opened ShardMerge
  import opened ShardMergeLaws

  /** A file of some shard that can be taken for a package of a feed: it lies in the feed, its control file
      names package, version and architecture, the file is named after them, and it is no kernel package. */
  ghost predicate Candidate(shards: Shards, f: string, n: string, index: int, p: Ipk) {
    && (exists s :: s in shards && s.manifest.Some? && s.manifest.value.index == index && p in s.ipks)
    && p.feed == f && p.control.Control? && p.control.package == n
    && n != "" && p.control.version != "" && p.control.arch != ""
    && p.file == n + "_" + p.control.version + "_" + p.control.arch + ".ipk"
    && n != "kernel" && !("kmod-" <= n)
  }

  lemma CandidateIff(shards: Shards, f: string, n: string, c: Choice)
    requires AllFound(shards)
    ensures c in Choices(shards, (f, n)) <==> Candidate(shards, f, n, c.index, c.ipk)
  {
    ChoicesHas(shards, (f, n), c);
    assert Made(shards, c) <==>
      exists s :: s in shards && s.manifest.Some? && s.manifest.value.index == c.index && c.ipk in s.ipks;
  }

  /** The manifest of the shard with this index has the package. */
  ghost predicate Assigned(shards: Shards, n: string, index: int) {
    exists s :: s in shards && s.manifest.Some? && s.manifest.value.index == index && n in s.manifest.value.packages
  }

  lemma {:induction false} OwnerIff(shards: Shards, n: string, index: int)
    requires AllFound(shards) && Distinct(AllPackages(shards))
    ensures n in Owners(shards) && Owners(shards)[n] == index <==> Assigned(shards, n, index)
  {
    if shards != [] {
      var m := |shards| - 1;
      var front, s := shards[..m], shards[m];
      OwnersLast(shards);
      DistinctConcat(AllPackages(front), PackagesOf(s));
      OwnerIff(front, n, index);
      OwnersKeys(front);
      assert shards == front + [s];
      if t :| t in shards && t.manifest.Some? && t.manifest.value.index == index && n in t.manifest.value.packages {
        if t != s {
          assert t in front;
          assert Assigned(front, n, index);
        }
      }
      if Assigned(front, n, index) {
        assert n !in PackagesOf(s);
      }
    }
  }

  /** For every package some shard offers, the feed has a stanza of one candidate: that of the shard the
      package is assigned to if that one offers it, else one of the lowest-numbered shard that does. */
  lemma FeedSays(shards: Shards, feed: map<string, FeedDir>, f: string, n: string, index: int, p: Ipk)
      returns (c: Choice, e: Stanza)
    requires AllFound(shards) && Distinct(AllPackages(shards)) && IsOutput(shards, feed)
    requires Candidate(shards, f, n, index, p)
    ensures Candidate(shards, f, n, c.index, c.ipk)
    ensures Assigned(shards, n, index) ==> Assigned(shards, n, c.index)
    ensures index < c.index ==> Assigned(shards, n, c.index)
    ensures f in feed && e in feed[f].index && e.text == c.ipk.control.text && e.file == c.ipk.file
    ensures e.file in feed[f].files && e.size == |feed[f].files[e.file]| && e.digest == Sha256(feed[f].files[e.file])
  {
    var k := (f, n);
    CandidateIff(shards, f, n, Choice(index, p));
    c := Winner(shards, k);
    WinnerIs(shards, k);
    CandidateIff(shards, f, n, c);
    OwnerIff(shards, n, index);
    OwnerIff(shards, n, c.index);
    e := StanzaIn(shards, feed, f, n);
  }

  lemma StanzaIn(shards: Shards, feed: map<string, FeedDir>, f: string, n: string) returns (e: Stanza)
    requires AllFound(shards) && IsOutput(shards, feed) && Choices(shards, (f, n)) != []
    ensures f in feed && e in feed[f].index && Winner(shards, (f, n)).ipk.control.Control?
    ensures e.text == Winner(shards, (f, n)).ipk.control.text && e.file == Winner(shards, (f, n)).ipk.file
    ensures e.file in feed[f].files && e.size == |feed[f].files[e.file]| && e.digest == Sha256(feed[f].files[e.file])
  {
    var names :| NamesOf(shards, f, names) && names != [] && feed[f] == Built(shards, f, names);
    FeedHolds(shards, f, names, n);
    var ipk, files := Winner(shards, (f, n)).ipk, feed[f].files;
    e := Stanza(ipk.control.text, ipk.file, |files[ipk.file]|, Sha256(files[ipk.file]));
  }

  // ---------------------------------------------------------------- when there is a feed

  /** All candidates for a package of a feed have one version and architecture. */
  ghost predicate OneBuild(shards: Shards) {
    forall f, n, i, j, p, q | Candidate(shards, f, n, i, p) && Candidate(shards, f, n, j, q) ::
      p.control.version == q.control.version && p.control.arch == q.control.arch
  }

  lemma PeacefulIff(shards: Shards)
    requires AllFound(shards)
    ensures Peaceful(shards) <==> OneBuild(shards)
  {
    if Peaceful(shards) {
      forall f, n, i, j, p, q | Candidate(shards, f, n, i, p) && Candidate(shards, f, n, j, q)
        ensures p.control.version == q.control.version && p.control.arch == q.control.arch {
        CandidateIff(shards, f, n, Choice(i, p));
        CandidateIff(shards, f, n, Choice(j, q));
        assert NoConflict(Choices(shards, (f, n)));
      }
    }
    if OneBuild(shards) {
      forall k ensures NoConflict(Choices(shards, k)) {
        OneBuildHere(shards, k);
      }
    }
  }

  lemma OneBuildHere(shards: Shards, k: Key)
    requires AllFound(shards) && OneBuild(shards)
    ensures NoConflict(Choices(shards, k))
  {
    forall c | c in Choices(shards, k) ensures Candidate(shards, k.0, k.1, c.index, c.ipk) {
      CandidateIff(shards, k.0, k.1, c);
    }
  }

  /** Accepted artifacts can be merged exactly if no package is assigned twice, every file lies in one of the six
      feeds, there is a candidate for something, and candidates for one package have one version and architecture. */
  lemma MergeableIff(shards: Shards, count: int)
    requires Accepted(shards, count)
    ensures Mergeable(shards, count) <==>
      && Distinct(AllPackages(shards))
      && (forall s <- shards, p <- s.ipks ::
            p.feed in {"base", "luci", "packages", "routing", "telephony", "target/packages"})
      && (exists f, n, i, p :: Candidate(shards, f, n, i, p)) && OneBuild(shards)
  {
    PeacefulIff(shards);
    SomeOfferIff(shards);
    assert forall f :: f in FEEDS <==> f in {"base", "luci", "packages", "routing", "telephony", "target/packages"};
  }

  lemma SomeOfferIff(shards: Shards)
    requires AllFound(shards)
    ensures AnyOffer(shards) <==> exists f, n, i, p :: Candidate(shards, f, n, i, p)
  {
    if k :| Choices(shards, k) != [] {
      CandidateIff(shards, k.0, k.1, Choices(shards, k)[0]);
    }
    if f, n, i, p :| Candidate(shards, f, n, i, p) {
      CandidateIff(shards, f, n, Choice(i, p));
    }
  }
}
