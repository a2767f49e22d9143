/** The second half of scripts/merge-userspace-shards.py: of every package take the file of the shard it
    belongs to, else of the lowest-numbered shard that built it, and assemble the feed. */
module ShardMerge {
  import opened Wrappers
  import opened Ordering
  import opened PackageNames
  import opened ShardSelect
  import opened ShardCoverage

  type Key = (string, string)   // feed and package

  datatype Choice = Choice(index: int, ipk: Ipk)

  datatype Stanza = Stanza(text: string, file: string, size: nat, digest: Digest)

  datatype FeedDir = FeedDir(files: map<string, string>, index: seq<Stanza>)

  datatype Result =
    | Merged(feed: map<string, FeedDir>)
    | Problems        // a shard is missing, or the shards do not make up the recipe list
    | BadArtifact     // a package is assigned twice, or a file is in an unknown feed
    | NoPackages | Conflict

  // ---------------------------------------------------------------- what the shards offer

  predicate Readable(ipk: Ipk) {
    && ipk.control.Control? && ipk.control.package != "" && ipk.control.version != "" && ipk.control.arch != ""
    && ipk.file == FileName(ipk.control.package, ipk.control.version, ipk.control.arch)
  }

  /** Unreadable files and kernel packages are skipped. */
  predicate Offers(ipk: Ipk, k: Key) {
    Readable(ipk) && IsUserspace(ipk.control.package) && (ipk.feed, ipk.control.package) == k
  }

  function OffersOf(index: int, ipks: seq<Ipk>, k: Key): seq<Choice> {
    if ipks == [] then []
    else
      var last := ipks[|ipks| - 1];
      OffersOf(index, ipks[..|ipks| - 1], k) + if Offers(last, k) then [Choice(index, last)] else []
  }

  function Choices(shards: Shards, k: Key): seq<Choice>
    requires AllFound(shards)
  {
    if shards == [] then []
    else
      var s := shards[|shards| - 1];
      assert s in shards && forall t <- shards[..|shards| - 1] :: t in shards;
      Choices(shards[..|shards| - 1], k) + OffersOf(IndexOf(s), s.ipks, k)
  }

  function PackagesOf(s: Artifact): seq<string> {
    if s.manifest.Some? then s.manifest.value.packages else []
  }

  function AllPackages(shards: Shards): seq<string> {
    if shards == [] then [] else AllPackages(shards[..|shards| - 1]) + PackagesOf(shards[|shards| - 1])
  }

  /** The shard a package is assigned to. */
  function Owners(shards: Shards): map<string, int>
    requires AllFound(shards)
  {
    if shards == [] then map[]
    else
      var s := shards[|shards| - 1];
      assert s in shards && forall t <- shards[..|shards| - 1] :: t in shards;
      Owners(shards[..|shards| - 1]) + map p | p in PackagesOf(s) :: IndexOf(s)
  }

  ghost predicate NoConflict(choices: seq<Choice>) {
    forall a <- choices, b <- choices :: a.ipk.control.Control? && b.ipk.control.Control?
      && a.ipk.control.version == b.ipk.control.version && a.ipk.control.arch == b.ipk.control.arch
  }

  /** Everything the merge asks for. */
  ghost predicate Mergeable(shards: Shards, count: int) {
    && Accepted(shards, count) && Distinct(AllPackages(shards)) && KnownFeeds(shards)
    && AnyOffer(shards) && Peaceful(shards)
  }

  ghost predicate AnyOffer(shards: Shards)
    requires AllFound(shards)
  {
    exists k :: Choices(shards, k) != []
  }

  ghost predicate Peaceful(shards: Shards)
    requires AllFound(shards)
  {
    forall k :: NoConflict(Choices(shards, k))
  }

  ghost predicate KnownFeeds(shards: Shards) {
    forall s <- shards, p <- s.ipks :: p.feed in FEEDS
  }

  lemma {:induction false} OffersHas(index: int, ipks: seq<Ipk>, k: Key, c: Choice)
    ensures c in OffersOf(index, ipks, k) <==> c.index == index && c.ipk in ipks && Offers(c.ipk, k)
  {
    if ipks != [] {
      OffersHas(index, ipks[..|ipks| - 1], k, c);
      assert ipks == ipks[..|ipks| - 1] + [ipks[|ipks| - 1]];
    }
  }

  ghost predicate Made(shards: Shards, c: Choice)
    requires AllFound(shards)
  {
    exists s :: s in shards && c.index == IndexOf(s) && c.ipk in s.ipks
  }

  lemma {:induction false} ChoicesHas(shards: Shards, k: Key, c: Choice)
    requires AllFound(shards)
    ensures c in Choices(shards, k) <==> Made(shards, c) && Offers(c.ipk, k)
  {
    if shards != [] {
      var front, s := shards[..|shards| - 1], shards[|shards| - 1];
      assert shards == front + [s];
      ChoicesHas(front, k, c);
      OffersHas(IndexOf(s), s.ipks, k, c);
      assert Made(shards, c) <==> Made(front, c) || (c.index == IndexOf(s) && c.ipk in s.ipks);
    }
  }

  // ---------------------------------------------------------------- which one is taken

  function Owned(choices: seq<Choice>, owner: int): seq<Choice> {
    if choices == [] then []
    else (if choices[0].index == owner then [choices[0]] else []) + Owned(choices[1..], owner)
  }

  /** The first of the choices with the lowest index. */
  function Lowest(choices: seq<Choice>): Choice
    requires choices != []
  {
    if |choices| == 1 then choices[0]
    else
      var rest := Lowest(choices[1..]);
      if choices[0].index <= rest.index then choices[0] else rest
  }

  function Pick(choices: seq<Choice>, owners: map<string, int>, name: string): Choice
    requires choices != []
  {
    var own := if name in owners then Owned(choices, owners[name]) else [];
    if own != [] then own[0] else Lowest(choices)
  }

  lemma {:induction false} OwnedHas(choices: seq<Choice>, owner: int, c: Choice)
    ensures c in Owned(choices, owner) <==> c in choices && c.index == owner
  {
    if choices != [] {
      OwnedHas(choices[1..], owner, c);
    }
  }

  lemma {:induction false} LowestIs(choices: seq<Choice>)
    requires choices != []
    ensures Lowest(choices) in choices && forall c <- choices :: Lowest(choices).index <= c.index
  {
    if |choices| > 1 {
      LowestIs(choices[1..]);
    }
  }

  /** The owner's file if the owner built the package, else one of the lowest-numbered shard. */
  ghost predicate IsPick(choices: seq<Choice>, owners: map<string, int>, name: string, c: Choice) {
    && c in choices
    && (if name in owners && exists o :: o in choices && o.index == owners[name]
        then c.index == owners[name]
        else forall o <- choices :: c.index <= o.index)
  }

  lemma PickIs(choices: seq<Choice>, owners: map<string, int>, name: string)
    requires choices != []
    ensures IsPick(choices, owners, name, Pick(choices, owners, name))
  {
    LowestIs(choices);
    if name in owners {
      var own := Owned(choices, owners[name]);
      forall o | o in choices && o.index == owners[name] ensures own != [] {
        OwnedHas(choices, owners[name], o);
      }
      if own != [] {
        OwnedHas(choices, owners[name], own[0]);
      }
    }
  }

  // ---------------------------------------------------------------- the feed

  function Winner(shards: Shards, k: Key): Choice
    requires AllFound(shards) && Choices(shards, k) != []
  {
    Pick(Choices(shards, k), Owners(shards), k.1)
  }

  ghost predicate Offered(shards: Shards, f: string, names: seq<string>)
    requires AllFound(shards)
  {
    forall n <- names :: Choices(shards, (f, n)) != []
  }

  /** The files copied into one feed, package by package. */
  function Files(shards: Shards, f: string, names: seq<string>): map<string, string>
    requires AllFound(shards) && Offered(shards, f, names)
  {
    if names == [] then map[]
    else
      var ipk := Winner(shards, (f, names[|names| - 1])).ipk;
      Files(shards, f, names[..|names| - 1])[ipk.file := ipk.content]
  }

  function Entries(shards: Shards, f: string, names: seq<string>): seq<(string, string)>
    requires AllFound(shards) && Offered(shards, f, names)
  {
    if names == [] then []
    else
      var ipk := Winner(shards, (f, names[|names| - 1])).ipk;
      Entries(shards, f, names[..|names| - 1]) + [(ipk.file, if ipk.control.Control? then ipk.control.text else "")]
  }

  function FileOf(entry: (string, string)): string {
    entry.0
  }

  function StanzaOf(entry: (string, string), files: map<string, string>): Stanza {
    var content := if entry.0 in files then files[entry.0] else "";
    Stanza(entry.1, entry.0, |content|, Sha256(content))
  }

  function Stanzas(entries: seq<(string, string)>, files: map<string, string>): seq<Stanza> {
    seq(|entries|, i requires 0 <= i < |entries| => StanzaOf(entries[i], files))
  }

  function Built(shards: Shards, f: string, names: seq<string>): FeedDir
    requires AllFound(shards) && Offered(shards, f, names)
  {
    FeedDir(Files(shards, f, names), Stanzas(SortBy(FileOf, Entries(shards, f, names)), Files(shards, f, names)))
  }

  /** The packages of a feed in order. */
  ghost predicate NamesOf(shards: Shards, f: string, names: seq<string>)
    requires AllFound(shards)
  {
    Increasing(names) && forall n :: n in names <==> Choices(shards, (f, n)) != []
  }

  ghost predicate IsFeed(shards: Shards, f: string, dir: FeedDir)
    requires AllFound(shards)
  {
    exists names :: NamesOf(shards, f, names) && names != [] && dir == Built(shards, f, names)
  }

  ghost predicate IsOutput(shards: Shards, feed: map<string, FeedDir>)
    requires AllFound(shards)
  {
    && (forall f <- feed :: IsFeed(shards, f, feed[f]))
    && (forall f, n :: Choices(shards, (f, n)) != [] ==> f in feed)
  }

  // ---------------------------------------------------------------- the method

  method AddPackages(owners: map<string, int>, index: int, packages: seq<string>)
      returns (ok: bool, owners': map<string, int>)
    ensures ok <==> Distinct(packages) && forall p <- packages :: p !in owners
    ensures ok ==> owners' == owners + map p | p in packages :: index
  {
    owners' := owners;
    for i := 0 to |packages|
      invariant Distinct(packages[..i]) && forall p <- packages[..i] :: p !in owners
      invariant owners' == owners + map p | p in packages[..i] :: index
    {
      var p := packages[i];
      assert packages[..i + 1] == packages[..i] + [p];
      if p in owners' {
        if p in packages[..i] {
          ghost var j :| 0 <= j < i && packages[j] == p;
        }
        return false, owners;
      }
      DistinctConcat(packages[..i], [p]);
      owners' := owners'[p := index];
    }
    assert packages[..|packages|] == packages;
    ok := true;
  }

  function At(candidates: map<Key, seq<Choice>>, k: Key): seq<Choice> {
    if k in candidates then candidates[k] else []
  }

  ghost predicate Extended(candidates: map<Key, seq<Choice>>, index: int, ipks: seq<Ipk>,
                           candidates': map<Key, seq<Choice>>) {
    && (forall k <- candidates' :: candidates'[k] != [])
    && (forall k :: At(candidates', k) == At(candidates, k) + OffersOf(index, ipks, k))
  }

  function AddIpk(candidates: map<Key, seq<Choice>>, index: int, p: Ipk): map<Key, seq<Choice>> {
    if Readable(p) && IsUserspace(p.control.package) then
      var k := (p.feed, p.control.package);
      candidates[k := At(candidates, k) + [Choice(index, p)]]
    else candidates
  }

  lemma ExtendedByOne(before: map<Key, seq<Choice>>, index: int, ipks: seq<Ipk>, i: nat, now: map<Key, seq<Choice>>)
    requires i < |ipks| && Extended(before, index, ipks[..i], now)
    ensures Extended(before, index, ipks[..i + 1], AddIpk(now, index, ipks[i]))
  {
    var next := AddIpk(now, index, ipks[i]);
    forall k ensures At(next, k) == At(before, k) + OffersOf(index, ipks[..i + 1], k) {
      assert ipks[..i + 1][..i] == ipks[..i];
      assert At(now, k) == At(before, k) + OffersOf(index, ipks[..i], k);
    }
  }

  method AddIpks(candidates: map<Key, seq<Choice>>, index: int, ipks: seq<Ipk>)
      returns (ok: bool, candidates': map<Key, seq<Choice>>)
    requires forall k <- candidates :: candidates[k] != []
    ensures ok <==> forall p <- ipks :: p.feed in FEEDS
    ensures ok ==> Extended(candidates, index, ipks, candidates')
  {
    candidates' := candidates;
    for i := 0 to |ipks|
      invariant forall p <- ipks[..i] :: p.feed in FEEDS
      invariant Extended(candidates, index, ipks[..i], candidates')
    {
      if ipks[i].feed !in FEEDS {
        assert ipks[i] in ipks;
        return false, candidates;
      }
      ExtendedByOne(candidates, index, ipks, i, candidates');
      assert ipks[..i + 1] == ipks[..i] + [ipks[i]];
      candidates' := AddIpk(candidates', index, ipks[i]);
    }
    assert ipks[..|ipks|] == ipks;
    ok := true;
  }

  ghost predicate AreCandidates(candidates: map<Key, seq<Choice>>, shards: Shards)
    requires AllFound(shards)
  {
    && (forall k <- candidates :: candidates[k] != [])
    && (forall k :: At(candidates, k) == Choices(shards, k))
  }

  lemma CandidatesOfNext(before: map<Key, seq<Choice>>, after: map<Key, seq<Choice>>, shards: Shards, i: nat)
    requires i < |shards| && AllFound(shards) && AreCandidates(before, shards[..i])
    requires Extended(before, IndexOf(shards[i]), shards[i].ipks, after)
    ensures AllFound(shards[..i + 1]) && AreCandidates(after, shards[..i + 1])
  {
    var next := shards[..i + 1];
    assert next[..i] == shards[..i] && next[i] == shards[i];
    forall s <- next ensures s.manifest.Some? {
      assert s in shards;
    }
    forall k ensures At(after, k) == Choices(next, k) {
      ChoicesLast(next, k);
      assert At(before, k) == Choices(shards[..i], k);
    }
  }

  lemma ChoicesLast(shards: Shards, k: Key)
    requires shards != [] && AllFound(shards)
    ensures var n := |shards| - 1;
            && AllFound(shards[..n]) && shards[n].manifest.Some?
            && Choices(shards, k) == Choices(shards[..n], k) + OffersOf(IndexOf(shards[n]), shards[n].ipks, k)
  {
    assert shards[|shards| - 1] in shards && forall t <- shards[..|shards| - 1] :: t in shards;
  }

  method Collect(shards: Shards) returns (ok: bool, owners: map<string, int>, candidates: map<Key, seq<Choice>>)
    requires AllFound(shards)
    ensures ok <==> Distinct(AllPackages(shards)) && KnownFeeds(shards)
    ensures ok ==> owners == Owners(shards) && AreCandidates(candidates, shards)
  {
    owners, candidates := map[], map[];
    for i := 0 to |shards|
      invariant Distinct(AllPackages(shards[..i])) && KnownFeeds(shards[..i])
      invariant owners == Owners(shards[..i])
      invariant AreCandidates(candidates, shards[..i])
    {
      var s := shards[i];
      NextShard(shards, i);
      ok, owners := AddPackages(owners, IndexOf(s), s.manifest.value.packages);
      if !ok {
        NotDistinct(shards, i + 1);
        return;
      }
      ghost var before := candidates;
      ok, candidates := AddIpks(candidates, IndexOf(s), s.ipks);
      if !ok {
        assert s in shards;
        return;
      }
      CandidatesOfNext(before, candidates, shards, i);
    }
    assert shards[..|shards|] == shards;
    ok := true;
  }

  /** What one more shard adds. */
  lemma NextShard(shards: Shards, i: nat)
    requires i < |shards| && AllFound(shards)
    ensures var front, next, s := shards[..i], shards[..i + 1], shards[i];
            && s.manifest.Some? && AllFound(front) && AllFound(next)
            && Owners(next) == Owners(front) + (map p | p in PackagesOf(s) :: IndexOf(s))
            && (Distinct(AllPackages(next)) <==>
                  && Distinct(AllPackages(front)) && Distinct(PackagesOf(s))
                  && forall p <- PackagesOf(s) :: p !in Owners(front))
            && (KnownFeeds(next) <==> KnownFeeds(front) && forall p <- s.ipks :: p.feed in FEEDS)
  {
    var front, next, s := shards[..i], shards[..i + 1], shards[i];
    assert next[..i] == front && next[i] == s && next == front + [s];
    forall t <- next ensures t.manifest.Some? {
      assert t in shards;
    }
    DistinctConcat(AllPackages(front), PackagesOf(s));
    OwnersKeys(front);
  }

  lemma {:induction false} OwnersKeys(shards: Shards)
    requires AllFound(shards)
    ensures forall p :: p in Owners(shards) <==> p in AllPackages(shards)
  {
    if shards != [] {
      assert forall t <- shards[..|shards| - 1] :: t in shards;
      OwnersKeys(shards[..|shards| - 1]);
    }
  }

  lemma {:induction false} NotDistinct(shards: Shards, i: nat)
    requires i <= |shards| && !Distinct(AllPackages(shards[..i]))
    ensures !Distinct(AllPackages(shards))
    decreases |shards|
  {
    if i < |shards| {
      var front := shards[..|shards| - 1];
      assert front[..i] == shards[..i];
      NotDistinct(front, i);
      DistinctConcat(AllPackages(front), PackagesOf(shards[|shards| - 1]));
    } else {
      assert shards[..i] == shards;
    }
  }

  method Conflicting(choices: seq<Choice>) returns (conflict: bool)
    requires choices != [] && forall c <- choices :: c.ipk.control.Control?
    ensures conflict <==> !NoConflict(choices)
  {
    var first := choices[0].ipk.control;
    for i := 0 to |choices|
      invariant forall j | 0 <= j < i ::
        choices[j].ipk.control.version == first.version && choices[j].ipk.control.arch == first.arch
    {
      var other := choices[i].ipk.control;
      if other.version != first.version || other.arch != first.arch {
        assert choices[0] in choices && choices[i] in choices;
        return true;
      }
    }
    return false;
  }

  /** Takes one file of every package of a feed and writes the feed's index. */
  method AssembleFeed(ghost shards: Shards, candidates: map<Key, seq<Choice>>, owners: map<string, int>,
                      f: string, names: seq<string>) returns (ok: bool, dir: FeedDir)
    requires AllFound(shards) && AreCandidates(candidates, shards) && owners == Owners(shards)
    requires forall n <- names :: (f, n) in candidates
    ensures Offered(shards, f, names)
    ensures ok <==> forall n <- names :: NoConflict(Choices(shards, (f, n)))
    ensures ok ==> dir == Built(shards, f, names)
  {
    CandidatesOffered(candidates, shards, f, names);
    var files: map<string, string> := map[];
    var entries: seq<(string, string)> := [];
    dir := FeedDir(map[], []);
    for i := 0 to |names|
      invariant forall n <- names[..i] :: NoConflict(Choices(shards, (f, n)))
      invariant Offered(shards, f, names[..i])
      invariant files == Files(shards, f, names[..i]) && entries == Entries(shards, f, names[..i])
    {
      var k := (f, names[i]);
      assert names[i] in names && Choices(shards, k) == At(candidates, k) == candidates[k];
      OneMoreName(shards, f, names, i);
      OffersReadable(shards, k);
      var conflict := Conflicting(candidates[k]);
      if conflict {
        return false, dir;
      }
      var ipk := Pick(candidates[k], owners, k.1).ipk;
      files := files[ipk.file := ipk.content];
      entries := entries + [(ipk.file, if ipk.control.Control? then ipk.control.text else "")];
    }
    assert names[..|names|] == names;
    ok, dir := true, FeedDir(files, Stanzas(SortBy(FileOf, entries), files));
  }

  lemma OneMoreName(shards: Shards, f: string, names: seq<string>, i: nat)
    requires AllFound(shards) && i < |names| && Offered(shards, f, names)
    ensures var next, ipk := names[..i + 1], Winner(shards, (f, names[i])).ipk;
            && Offered(shards, f, names[..i]) && Offered(shards, f, next)
            && (forall n :: n in next <==> n in names[..i] || n == names[i])
            && Files(shards, f, next) == Files(shards, f, names[..i])[ipk.file := ipk.content]
            && Entries(shards, f, next)
                 == Entries(shards, f, names[..i]) + [(ipk.file, if ipk.control.Control? then ipk.control.text else "")]
  {
    var next := names[..i + 1];
    assert next == names[..i] + [names[i]] && next[..i] == names[..i];
  }

  lemma CandidatesOffered(candidates: map<Key, seq<Choice>>, shards: Shards, f: string, names: seq<string>)
    requires AllFound(shards) && AreCandidates(candidates, shards) && forall n <- names :: (f, n) in candidates
    ensures Offered(shards, f, names)
  {
    forall n <- names ensures Choices(shards, (f, n)) != [] {
      assert At(candidates, (f, n)) == Choices(shards, (f, n));
    }
  }

  lemma OffersReadable(shards: Shards, k: Key)
    requires AllFound(shards)
    ensures forall c <- Choices(shards, k) :: c.ipk.control.Control?
  {
    forall c <- Choices(shards, k) ensures c.ipk.control.Control? {
      ChoicesHas(shards, k, c);
    }
  }

  method Merge(shards: Shards, count: int) returns (r: Result)
    ensures r.Problems? <==> !Accepted(shards, count)
    ensures r.BadArtifact? <==> Accepted(shards, count) && !(Distinct(AllPackages(shards)) && KnownFeeds(shards))
    ensures r.NoPackages? <==> Accepted(shards, count) && Distinct(AllPackages(shards)) && KnownFeeds(shards)
                               && !AnyOffer(shards)
    ensures r.Merged? <==> Mergeable(shards, count)
    ensures r.Merged? ==> IsOutput(shards, r.feed)
  {
    var ok := Check(shards, count);
    if !ok {
      return Problems;
    }
    var owners, candidates;
    ok, owners, candidates := Collect(shards);
    if !ok {
      return BadArtifact;
    }
    AnyCandidate(candidates, shards);
    if candidates == map[] {
      return NoPackages;
    }
    r := Assemble(shards, candidates, owners);
  }

  lemma AnyCandidate(candidates: map<Key, seq<Choice>>, shards: Shards)
    requires AllFound(shards) && AreCandidates(candidates, shards)
    ensures AnyOffer(shards) <==> candidates != map[]
  {
    if candidates != map[] {
      var k :| k in candidates;
      assert At(candidates, k) == Choices(shards, k);
    } else {
      assert forall k :: At(candidates, k) == Choices(shards, k);
    }
  }

  method Assemble(ghost shards: Shards, candidates: map<Key, seq<Choice>>, owners: map<string, int>) returns (r: Result)
    requires AllFound(shards) && AreCandidates(candidates, shards) && owners == Owners(shards)
    ensures r.Merged? || r.Conflict?
    ensures r.Merged? <==> Peaceful(shards)
    ensures r.Merged? ==> IsOutput(shards, r.feed)
  {
    var feeds := Sort(set k | k in candidates :: k.0);
    var feed: map<string, FeedDir> := map[];
    for i := 0 to |feeds|
      invariant forall f :: f in feed <==> f in feeds[..i]
      invariant forall f <- feed :: IsFeed(shards, f, feed[f])
      invariant forall f <- feed :: PeacefulIn(shards, f)
    {
      var f := feeds[i];
      assert feeds[..i + 1] == feeds[..i] + [f];
      assert f in feeds;
      var ok, dir := OneFeed(shards, candidates, owners, f);
      if !ok {
        assert !PeacefulIn(shards, f);
        return Conflict;
      }
      feed := feed[f := dir];
    }
    assert feeds[..|feeds|] == feeds;
    FeedsCover(shards, candidates, feeds);
    PeacefulAnywhere(shards, feed.Keys);
    r := Merged(feed);
  }

  ghost predicate PeacefulIn(shards: Shards, f: string)
    requires AllFound(shards)
  {
    forall n :: NoConflict(Choices(shards, (f, n)))
  }

  method OneFeed(ghost shards: Shards, candidates: map<Key, seq<Choice>>, owners: map<string, int>, f: string)
      returns (ok: bool, dir: FeedDir)
    requires AllFound(shards) && AreCandidates(candidates, shards) && owners == Owners(shards)
    requires exists k :: k in candidates && k.0 == f
    ensures ok <==> PeacefulIn(shards, f)
    ensures ok ==> IsFeed(shards, f, dir)
  {
    var names := Sort(set k | k in candidates && k.0 == f :: k.1);
    forall n ensures n in names <==> (f, n) in candidates {
      if (f, n) in candidates {
        var k := (f, n);
        assert k in candidates && k.0 == f && k.1 == n;
      }
    }
    NamesAre(shards, candidates, f, names);
    ok, dir := AssembleFeed(shards, candidates, owners, f, names);
    ConflictsWithin(shards, f, names);
  }

  /** The feeds that have a candidate are the feeds any shard offers something for. */
  lemma FeedsCover(shards: Shards, candidates: map<Key, seq<Choice>>, feeds: seq<string>)
    requires AllFound(shards) && AreCandidates(candidates, shards)
    requires forall f :: f in feeds <==> f in set k | k in candidates :: k.0
    ensures forall f, n :: Choices(shards, (f, n)) != [] ==> f in feeds
  {
    forall f, n | Choices(shards, (f, n)) != [] ensures f in feeds {
      assert At(candidates, (f, n)) == Choices(shards, (f, n));
      var k := (f, n);
      assert k in candidates && k.0 == f;
    }
  }

  lemma NamesAre(shards: Shards, candidates: map<Key, seq<Choice>>, f: string, names: seq<string>)
    requires AllFound(shards) && AreCandidates(candidates, shards) && Increasing(names)
    requires forall n :: n in names <==> (f, n) in candidates
    ensures NamesOf(shards, f, names)
  {
    forall n ensures n in names <==> Choices(shards, (f, n)) != [] {
      assert At(candidates, (f, n)) == Choices(shards, (f, n));
    }
  }

  lemma ConflictsWithin(shards: Shards, f: string, names: seq<string>)
    requires AllFound(shards) && NamesOf(shards, f, names)
    ensures PeacefulIn(shards, f) <==> forall n <- names :: NoConflict(Choices(shards, (f, n)))
  {
    if forall n <- names :: NoConflict(Choices(shards, (f, n))) {
      forall n ensures NoConflict(Choices(shards, (f, n))) {
        if n !in names {
          assert Choices(shards, (f, n)) == [];
        }
      }
    }
  }

  lemma PeacefulAnywhere(shards: Shards, feeds: set<string>)
    requires AllFound(shards)
    requires forall f, n :: Choices(shards, (f, n)) != [] ==> f in feeds
    requires forall f <- feeds :: PeacefulIn(shards, f)
    ensures Peaceful(shards)
  {
    forall k ensures NoConflict(Choices(shards, k)) {
      var (f, n) := k;
      if f in feeds {
        assert PeacefulIn(shards, f);
      } else {
        assert Choices(shards, (f, n)) == [];
      }
    }
  }
}
