/** The resumable batched publisher of scripts/publish-components.py, run any number of times against a
    release that other runs of the same manifest may be filling at the same time. */
module ComponentPublisher {
  import opened Wrappers
  import opened Ordering
  import opened RemoteRelease

  datatype Pin = Pin(size: nat, digest: Digest)

  /** How an upload command ends: with every file of the batch stored; with a message that is worth a
      retry or is not; or the publisher dies. In the last three cases any part may have been stored. */
  datatype Upload =
    | Uploaded | Retryable(stored: set<string>) | Rejected(stored: set<string>) | Died(stored: set<string>)

  /** One round: what other runs store, and whether they publish, between our listing and our upload. */
  datatype Round = Round(others: set<string>, published: bool, upload: Upload)

  /** Everything one run meets. With the rounds used up the run dies. */
  datatype Run = Run(create: Reply, rounds: seq<Round>, edit: Reply)

  datatype Outcome =
    | Public
    | DirectoryDiffers | AssetChanged                 // the prepared directory
    | UnexpectedAsset | DifferingAsset | Incomplete   // the existing release
    | RequestFailed | Crashed                         // the service, the process

  const BATCH := 20

  predicate Pinned(content: string, pin: Pin) {
    |content| == pin.size && Sha256(content) == pin.digest
  }

  ghost predicate Prepared(dir: Files, manifest: map<string, Pin>) {
    dir.Keys == manifest.Keys && forall n <- manifest :: Pinned(dir[n], manifest[n])
  }

  ghost predicate SubsetOf(assets: Files, manifest: map<string, Pin>) {
    assets.Keys <= manifest.Keys
  }

  ghost predicate Matching(assets: Files, manifest: map<string, Pin>) {
    forall n <- assets | n in manifest :: Pinned(assets[n], manifest[n])
  }

  /** Digests being injective, an asset with the pinned digest has the bytes of the prepared file. */
  lemma PinnedIsSame(assets: Files, dir: Files, manifest: map<string, Pin>)
    requires Prepared(dir, manifest)
    ensures SubsetOf(assets, manifest) && Matching(assets, manifest) <==> Within(assets, dir)
  {
  }

  /** The state every run of the publisher keeps: only prepared bytes, public only when complete. */
  ghost predicate Sound(r: Release, dir: Files)
    reads r
  {
    Within(r.assets, dir) && (r.created ==> r.draft || r.assets == dir) && (!r.created ==> r.assets == map[])
  }

  /** Upload calls that `missing` files need. */
  function Calls(missing: nat): nat {
    (missing + BATCH - 1) / BATCH
  }

  /** One for each twenty, and one for the rest: no fewer batches of twenty hold that many files. */
  lemma CallsIs(missing: nat, calls: nat)
    ensures calls == Calls(missing) <==> 20 * calls >= missing && (calls > 0 ==> 20 * (calls - 1) < missing)
  {
  }

  lemma CallsFall(missing: nat, batch: nat)
    requires batch == if missing < BATCH then missing else BATCH
    ensures missing > 0 ==> Calls(missing - batch) == Calls(missing) - 1
  {
  }

  lemma CallsMonotone(a: nat, b: nat)
    requires a <= b
    ensures Calls(a) <= Calls(b)
  {
  }

  ghost function Missing(assets: Files, dir: Files): set<string> {
    dir.Keys - assets.Keys
  }

  // ---------------------------------------------------------------- the remote side

  /** Another run stores some files, and publishes if that completes the release. */
  method Interfere(r: Release, dir: Files, round: Round)
    modifies r
    ensures r.created == old(r.created) && r.assets == Store(old(r.assets), dir, round.others)
    ensures r.draft <==> old(r.draft) && !(round.published && r.assets == dir)
  {
    r.assets := Store(r.assets, dir, round.others);
    if round.published && r.assets == dir {
      r.draft := false;
    }
  }

  /** The upload command: names that exist by now are refused, and then the whole command fails. */
  method UploadBatch(r: Release, dir: Files, batch: set<string>, upload: Upload) returns (result: Upload)
    modifies r`assets
    ensures result == if upload.Uploaded? && batch * old(r.assets).Keys != {} then Retryable({}) else upload
    ensures r.assets == Store(old(r.assets), dir, if result.Uploaded? then batch else batch * result.stored)
  {
    result := if upload.Uploaded? && batch * r.assets.Keys != {} then Retryable({}) else upload;
    r.assets := Store(r.assets, dir, if result.Uploaded? then batch else batch * result.stored);
  }

  // ---------------------------------------------------------------- one run

  method CheckDirectory(dir: Files, manifest: map<string, Pin>) returns (o: Outcome)
    ensures o == Public || o == DirectoryDiffers || o == AssetChanged
    ensures o == DirectoryDiffers <==> dir.Keys != manifest.Keys
    ensures o == Public <==> Prepared(dir, manifest)
    ensures o == Public
       <==> (forall n :: n in dir <==> n in manifest)
            && forall n <- dir :: |dir[n]| == manifest[n].size && Sha256(dir[n]) == manifest[n].digest
  {
    if dir.Keys != manifest.Keys {
      return DirectoryDiffers;
    }
    var rest := manifest.Keys;
    while rest != {}
      invariant rest <= manifest.Keys
      invariant forall n <- manifest.Keys - rest :: Pinned(dir[n], manifest[n])
      decreases |rest|
    {
      var n :| n in rest;
      if !Pinned(dir[n], manifest[n]) {
        return AssetChanged;
      }
      rest := rest - {n};
    }
    return Public;
  }

  method CheckAssets(assets: Files, manifest: map<string, Pin>) returns (o: Outcome)
    ensures o == Public || o == UnexpectedAsset || o == DifferingAsset
    ensures o == UnexpectedAsset <==> !SubsetOf(assets, manifest)
    ensures o == Public <==> SubsetOf(assets, manifest) && Matching(assets, manifest)
    ensures o == Public
       <==> forall n <- assets ::
              n in manifest && |assets[n]| == manifest[n].size && Sha256(assets[n]) == manifest[n].digest
  {
    if assets.Keys - manifest.Keys != {} {
      return UnexpectedAsset;
    }
    assert SubsetOf(assets, manifest) by {
      forall n | n in assets ensures n in manifest {
        assert n !in assets.Keys - manifest.Keys;
      }
    }
    var rest := assets.Keys;
    while rest != {}
      invariant rest <= assets.Keys
      invariant forall n <- assets.Keys - rest :: Pinned(assets[n], manifest[n])
      decreases |rest|
    {
      var n :| n in rest;
      if !Pinned(assets[n], manifest[n]) {
        return DifferingAsset;
      }
      rest := rest - {n};
    }
    return Public;
  }

  /** The names of the next batch: the first twenty missing files in order. */
  method NextBatch(missing: set<string>) returns (batch: set<string>)
    ensures batch <= missing && |batch| == if |missing| < 20 then |missing| else 20
    ensures forall x <- batch, y <- missing - batch :: Le(x, y)
  {
    var sorted := Sort(missing);
    var n := if |sorted| < BATCH then |sorted| else BATCH;
    batch := {};
    for i := 0 to n
      invariant |batch| == i
      invariant forall x :: x in batch <==> x in sorted[..i]
    {
      batch := batch + {sorted[i]};
    }
    forall x, y | x in batch && y in missing - batch ensures Le(x, y) {
      assert x in sorted[..n] && y in sorted && y !in sorted[..n];
      var i :| 0 <= i < n && sorted[i] == x;
      var j :| 0 <= j < |sorted| && sorted[j] == y;
      assert n <= j;
    }
  }

  /** Nobody interferes and the upload succeeds. */
  predicate Quiet(round: Round) {
    round.others == {} && round.upload == Uploaded
  }

  ghost predicate Smooth(rounds: seq<Round>) {
    forall e <- rounds :: Quiet(e)
  }

  /** An upload ends as the service has it, or fails because another run was faster, which is worth a retry. */
  predicate EndsAs(upload: Upload, result: Upload) {
    result == upload || (upload.Uploaded? && result.Retryable?)
  }

  /** After such an upload the run goes on. */
  predicate GoesOn(upload: Upload) {
    upload.Uploaded? || upload.Retryable?
  }

  ghost predicate AllGoOn(rounds: seq<Round>, n: nat) {
    n <= |rounds| && forall i | 0 <= i < n :: GoesOn(rounds[i].upload)
  }

  lemma UploadEnds(rounds: seq<Round>, n: nat, result: Upload)
    requires n < |rounds| && AllGoOn(rounds, n) && EndsAs(rounds[n].upload, result)
    ensures result.Uploaded? || result.Retryable? ==> AllGoOn(rounds, n + 1)
    ensures rounds[n].upload.Died? <==> result.Died?
    ensures rounds[n].upload.Rejected? <==> result.Rejected?
  {
  }

  /** Between two rounds the run may end by itself. */
  lemma WentOn(rounds: seq<Round>, uploads: nat, complete: bool)
    requires AllGoOn(rounds, uploads)
    ensures complete ==> Justified(rounds, uploads, Public, complete)
    ensures !complete && uploads == |rounds| ==> Justified(rounds, uploads, Crashed, complete)
    ensures forall o | o in {UnexpectedAsset, DifferingAsset, Incomplete} :: Justified(rounds, uploads, o, complete)
  {
  }

  /** Why the upload loop ended: it gives up only at an upload that is refused for good, dies only in an
      upload or with the rounds used up, and goes on after every other upload until nothing is missing. */
  ghost predicate Justified(rounds: seq<Round>, uploads: nat, o: Outcome, complete: bool) {
    && uploads <= |rounds| && (uploads > 0 ==> AllGoOn(rounds, uploads - 1))
    && (o == RequestFailed <==> uploads > 0 && rounds[uploads - 1].upload.Rejected?)
    && (uploads > 0 && rounds[uploads - 1].upload.Died? ==> o == Crashed)
    && (o == Crashed ==> (uploads > 0 && rounds[uploads - 1].upload.Died?) || (uploads == |rounds| && !complete))
    && (o == Public ==> complete)
  }

  /** The same of a whole run, with the replies to creating the release and to publishing it. `found` says
      whether there was a release, `complete` whether it has every file in the end. */
  ghost predicate RunJustified(run: Run, found: bool, uploads: nat, o: Outcome, complete: bool) {
    if !found && !run.create.Done? then uploads == 0 && o == if run.create.Lost? then Crashed else RequestFailed
    else
      || Justified(run.rounds, uploads, o, complete)
      || (Justified(run.rounds, uploads, Public, complete)
          && (run.edit.Done? ==> o == Public) && (run.edit.Lost? ==> o == Crashed)
          && (run.edit.Refused? ==> o == RequestFailed))
  }

  function EditOutcome(reply: Reply): Outcome {
    match reply case Done => Public case Lost => Crashed case Refused => RequestFailed
  }

  /** One round on a release that lacks something. */
  method UploadRound(r: Release, dir: Files, round: Round) returns (result: Upload)
    requires Within(r.assets, dir) && r.assets.Keys != dir.Keys
    modifies r
    ensures r.created == old(r.created) && Within(r.assets, dir) && Grown(old(r.assets), r.assets, dir)
    ensures r.draft != old(r.draft) ==> !r.draft && r.assets == dir
    ensures Calls(|Missing(r.assets, dir)|) + Succeeded(result) <= Calls(|Missing(old(r.assets), dir)|)
    ensures EndsAs(round.upload, result)
    ensures Quiet(round) ==> result == Uploaded && r.draft == old(r.draft)
    ensures Quiet(round) ==> Calls(|Missing(r.assets, dir)|) + 1 == Calls(|Missing(old(r.assets), dir)|)
  {
    ghost var current := r.assets;
    WithinComplete(current, dir);
    var missing := dir.Keys - r.assets.Keys;
    var batch := NextBatch(missing);
    ghost var between;
    result, between := StoreRound(r, dir, batch, round);
    RoundShrinks(current, between, r.assets, dir, batch, result);
  }

  ghost function Stored(result: Upload, batch: set<string>): set<string> {
    if result.Uploaded? then batch else batch * result.stored
  }

  /** What the other runs and our upload command do to the release. */
  method StoreRound(r: Release, dir: Files, batch: set<string>, round: Round)
       
        returns (result: Upload, ghost between: Files)
    requires Within(r.assets, dir) && Missing(r.assets, dir) != {} && batch <= Missing(r.assets, dir)
    modifies r
    ensures r.created == old(r.created) && Within(r.assets, dir) && Grown(old(r.assets), r.assets, dir)
    ensures r.draft != old(r.draft) ==> !r.draft && r.assets == dir
    ensures Missing(between, dir) <= Missing(old(r.assets), dir)
    ensures Missing(r.assets, dir) == Missing(between, dir) - Stored(result, batch)
    ensures EndsAs(round.upload, result)
    ensures Quiet(round) ==> between == old(r.assets) && result == Uploaded && r.draft == old(r.draft)
  {
    ghost var current := r.assets;
    Interfere(r, dir, round);
    between := r.assets;
    result := UploadBatch(r, dir, batch, round.upload);
    RoundGrows(current, between, r.assets, dir, round.others, Stored(result, batch));
  }

  lemma RoundGrows(current: Files, between: Files, after: Files, dir: Files, others: set<string>, stored: set<string>)
    requires Within(current, dir) && Missing(current, dir) != {}
    requires between == Store(current, dir, others) && after == Store(between, dir, stored)
    ensures Within(after, dir) && Grown(current, after, dir)
    ensures Missing(between, dir) <= Missing(current, dir) && Missing(after, dir) == Missing(between, dir) - stored
    ensures between == dir ==> after == dir
    ensures others == {} ==> between == current != dir
  {
    StoreGrows(current, dir, others);
    StoreGrows(between, dir, stored);
    WithinComplete(current, dir);
    WithinComplete(between, dir);
    WithinComplete(after, dir);
  }

  function Succeeded(result: Upload): nat {
    if result == Uploaded then 1 else 0
  }

  /** What a round does to the number of upload calls still needed. */
  lemma RoundShrinks(current: Files, between: Files, after: Files, dir: Files, batch: set<string>, result: Upload)
    requires Missing(current, dir) != {} && batch <= Missing(current, dir)
    requires |batch| == if |Missing(current, dir)| < BATCH then |Missing(current, dir)| else BATCH
    requires Missing(between, dir) <= Missing(current, dir)
    requires Missing(after, dir) == Missing(between, dir) - Stored(result, batch)
    ensures Calls(|Missing(after, dir)|) + Succeeded(result) <= Calls(|Missing(current, dir)|)
    ensures between == current && result == Uploaded
        ==> Calls(|Missing(after, dir)|) + 1 == Calls(|Missing(current, dir)|)
  {
    var m := Missing(current, dir);
    CallsFall(|m|, |batch|);
    if result == Uploaded {
      Included(Missing(after, dir), m - batch);
      CallsMonotone(|Missing(after, dir)|, |m - batch|);
    } else {
      Included(Missing(after, dir), m);
      CallsMonotone(|Missing(after, dir)|, |m|);
    }
  }

  method MakePublic(r: Release, reply: Reply) returns (o: Outcome)
    modifies r`draft
    ensures r.draft <==> old(r.draft) && reply.Refused?
    ensures o == EditOutcome(reply)
  {
    if !reply.Refused? {
      r.draft := false;
    }
    o := EditOutcome(reply);
  }

  /** The upload loop. `draft` is what the release was when the run looked it up. */
  method Fill(r: Release, dir: Files, manifest: map<string, Pin>, draft: bool, rounds: seq<Round>)
      returns (o: Outcome, uploads: nat, successes: nat)
    requires Prepared(dir, manifest) && r.created && r.draft == draft
    modifies r
    ensures r.created && Grown(old(r.assets), r.assets, dir)
    ensures r.draft != draft ==> !r.draft && r.assets == dir
    ensures o == UnexpectedAsset <==> !SubsetOf(old(r.assets), manifest)
    ensures o == DifferingAsset <==> SubsetOf(old(r.assets), manifest) && !Matching(old(r.assets), manifest)
    ensures o == Incomplete <==> !draft && Within(old(r.assets), dir) && old(r.assets) != dir
    ensures o in {UnexpectedAsset, DifferingAsset, Incomplete} ==> r.draft == draft && r.assets == old(r.assets)
    ensures o in {Public, UnexpectedAsset, DifferingAsset, Incomplete, RequestFailed, Crashed}
    ensures Justified(rounds, uploads, o, r.assets == dir)
    ensures Within(old(r.assets), dir)
        ==> Calls(|Missing(r.assets, dir)|) + successes <= Calls(|Missing(old(r.assets), dir)|)
    ensures (draft || old(r.assets) == dir) && Within(old(r.assets), dir) && Smooth(rounds)
        && Calls(|Missing(old(r.assets), dir)|) <= |rounds|
        ==> o == Public && uploads == Calls(|Missing(old(r.assets), dir)|)
  {
    uploads, successes := 0, 0;
    PinnedIsSame(r.assets, dir, manifest);
    ghost var first := r.assets;
    while true
      invariant uploads <= |rounds| && successes <= uploads
      invariant AllGoOn(rounds, uploads)
      invariant r.created && Grown(first, r.assets, dir)
      invariant r.draft != draft ==> !r.draft && r.assets == dir
      invariant uploads > 0 ==> draft && Within(r.assets, dir) && Within(first, dir)
      invariant uploads == 0 ==> r.assets == first && r.draft == draft
      invariant Within(first, dir) ==> Calls(|Missing(r.assets, dir)|) + successes <= Calls(|Missing(first, dir)|)
      invariant Within(first, dir) && Smooth(rounds)
        ==> Calls(|Missing(r.assets, dir)|) + uploads == Calls(|Missing(first, dir)|)
      decreases |rounds| - uploads
    {
      PinnedIsSame(r.assets, dir, manifest);
      o := CheckAssets(r.assets, manifest);
      WentOn(rounds, uploads, r.assets == dir);
      if o != Public {
        return;
      }
      WithinComplete(r.assets, dir);
      if r.assets.Keys == dir.Keys {
        return;
      }
      if !draft {
        return Incomplete, uploads, successes;
      }
      if uploads == |rounds| {
        return Crashed, uploads, successes;
      }
      var good;
      o, good := FillRound(r, dir, rounds, uploads);
      uploads, successes := uploads + 1, successes + good;
      if o != Public {
        return;
      }
    }
  }

  /** The rest of that loop's body: an upload, and what its end means for the run. */
  method FillRound(r: Release, dir: Files, rounds: seq<Round>, n: nat) returns (o: Outcome, good: nat)
    requires Within(r.assets, dir) && r.assets.Keys != dir.Keys && n < |rounds| && AllGoOn(rounds, n)
    modifies r
    ensures r.created == old(r.created) && Within(r.assets, dir) && Grown(old(r.assets), r.assets, dir)
    ensures r.draft != old(r.draft) ==> !r.draft && r.assets == dir
    ensures Calls(|Missing(r.assets, dir)|) + good <= Calls(|Missing(old(r.assets), dir)|) && good <= 1
    ensures o == Public ==> AllGoOn(rounds, n + 1)
    ensures o != Public ==> o in {RequestFailed, Crashed} && Justified(rounds, n + 1, o, r.assets == dir)
    ensures Smooth(rounds) ==>
      o == Public && good == 1 && Calls(|Missing(r.assets, dir)|) + 1 == Calls(|Missing(old(r.assets), dir)|)
  {
    var result := UploadRound(r, dir, rounds[n]);
    UploadEnds(rounds, n, result);
    match result {
      case Uploaded => return Public, 1;
      case Retryable(_) => return Public, 0;
      case Rejected(_) => return RequestFailed, 0;
      case Died(_) => return Crashed, 0;
    }
  }

  /** One run against a release in any state. */
  method Publish(r: Release, dir: Files, manifest: map<string, Pin>, revision: string, run: Run)
      returns (o: Outcome, uploads: nat, successes: nat)
    modifies r
    // nothing is replaced or removed, everything new is prepared, public is final
    ensures old(r.created) ==> r.created && Grown(old(r.assets), r.assets, dir)
    ensures old(Sound(r, dir)) ==> Grown(old(r.assets), r.assets, dir)
    ensures old(r.created && !r.draft) ==> !r.draft
    ensures old(r.created && r.draft) && !r.draft ==> r.assets == dir
    ensures old(Sound(r, dir)) ==> Sound(r, dir)
    // refusals: each exactly when, and then nothing has changed
    ensures o == DirectoryDiffers <==> dir.Keys != manifest.Keys
    ensures o == AssetChanged <==> dir.Keys == manifest.Keys && !Prepared(dir, manifest)
    ensures o == UnexpectedAsset
       <==> Prepared(dir, manifest) && old(r.created) && !SubsetOf(old(r.assets), manifest)
    ensures o == DifferingAsset
       <==> Prepared(dir, manifest) && old(r.created) && SubsetOf(old(r.assets), manifest)
            && !Matching(old(r.assets), manifest)
    ensures o == Incomplete
       <==> Prepared(dir, manifest) && old(r.created && !r.draft) && Within(old(r.assets), dir) && old(r.assets) != dir
    ensures o in {DirectoryDiffers, AssetChanged, UnexpectedAsset, DifferingAsset, Incomplete}
        ==> r.created == old(r.created) && r.draft == old(r.draft) && r.assets == old(r.assets)
    // success means public and complete
    ensures o == Public ==> r.created && !r.draft && r.assets == dir
    // a run fails or dies only where the service or the process makes it
    ensures o in {Public, RequestFailed, Crashed}
        ==> RunJustified(run, old(r.created), uploads, o, r.assets == dir)
    // the missing files pay for the successful uploads
    ensures old(Sound(r, dir))
        ==> Calls(|Missing(r.assets, dir)|) + successes <= Calls(|Missing(old(r.assets), dir)|)
    // and with no failure at all the run succeeds, with no upload too many
    ensures Prepared(dir, manifest) && old(Sound(r, dir)) && Smooth(run.rounds) && run.create.Done? && run.edit.Done?
        && Calls(|Missing(old(r.assets), dir)|) <= |run.rounds|
        ==> o == Public && uploads == Calls(|Missing(old(r.assets), dir)|)
  {
    uploads, successes := 0, 0;
    o := CheckDirectory(dir, manifest);
    if o == Public {
      o, uploads, successes := PublishPrepared(r, dir, manifest, revision, run);
    }
  }

  /** The same once the directory has been found to be as prepared. */
  method PublishPrepared(r: Release, dir: Files, manifest: map<string, Pin>, revision: string, run: Run)
      returns (o: Outcome, uploads: nat, successes: nat)
    requires Prepared(dir, manifest)
    modifies r
    ensures old(r.created) ==> r.created && Grown(old(r.assets), r.assets, dir)
    ensures old(Sound(r, dir)) ==> Sound(r, dir) && Grown(old(r.assets), r.assets, dir)
    ensures old(r.created && !r.draft) ==> !r.draft
    ensures old(r.created && r.draft) && !r.draft ==> r.assets == dir
    ensures o == UnexpectedAsset <==> old(r.created) && !SubsetOf(old(r.assets), manifest)
    ensures o == DifferingAsset
       <==> old(r.created) && SubsetOf(old(r.assets), manifest) && !Matching(old(r.assets), manifest)
    ensures o == Incomplete <==> old(r.created && !r.draft) && Within(old(r.assets), dir) && old(r.assets) != dir
    ensures o in {UnexpectedAsset, DifferingAsset, Incomplete}
        ==> r.created == old(r.created) && r.draft == old(r.draft) && r.assets == old(r.assets)
    ensures o in {Public, UnexpectedAsset, DifferingAsset, Incomplete, RequestFailed, Crashed}
    ensures o in {Public, RequestFailed, Crashed}
        ==> RunJustified(run, old(r.created), uploads, o, r.assets == dir)
    ensures o == Public ==> r.created && !r.draft && r.assets == dir
    ensures old(Sound(r, dir))
        ==> Calls(|Missing(r.assets, dir)|) + successes <= Calls(|Missing(old(r.assets), dir)|)
    ensures old(Sound(r, dir)) && Smooth(run.rounds) && run.create.Done? && run.edit.Done?
        && Calls(|Missing(old(r.assets), dir)|) <= |run.rounds|
        ==> o == Public && uploads == Calls(|Missing(old(r.assets), dir)|)
  {
    uploads, successes := 0, 0;
    if !r.created {
      var ok := Create(r, revision, run.create);
      if !ok {
        return if run.create.Lost? then Crashed else RequestFailed, uploads, successes;
      }
    }
    o, uploads, successes := PublishCreated(r, dir, manifest, run);
  }

  /** A release that is there is filled and made public. */
  method PublishCreated(r: Release, dir: Files, manifest: map<string, Pin>, run: Run)
      returns (o: Outcome, uploads: nat, successes: nat)
    requires Prepared(dir, manifest) && r.created
    modifies r
    ensures r.created && Grown(old(r.assets), r.assets, dir)
    ensures old(Sound(r, dir)) ==> Sound(r, dir)
    ensures old(!r.draft) ==> !r.draft
    ensures old(r.draft) && !r.draft ==> r.assets == dir
    ensures o == UnexpectedAsset <==> !SubsetOf(old(r.assets), manifest)
    ensures o == DifferingAsset <==> SubsetOf(old(r.assets), manifest) && !Matching(old(r.assets), manifest)
    ensures o == Incomplete <==> old(!r.draft) && Within(old(r.assets), dir) && old(r.assets) != dir
    ensures o in {UnexpectedAsset, DifferingAsset, Incomplete} ==> r.draft == old(r.draft) && r.assets == old(r.assets)
    ensures o in {Public, UnexpectedAsset, DifferingAsset, Incomplete, RequestFailed, Crashed}
    ensures o in {Public, RequestFailed, Crashed} ==> RunJustified(run, true, uploads, o, r.assets == dir)
    ensures o == Public ==> !r.draft && r.assets == dir
    ensures Within(old(r.assets), dir)
        ==> Calls(|Missing(r.assets, dir)|) + successes <= Calls(|Missing(old(r.assets), dir)|)
    ensures old(Sound(r, dir)) && Smooth(run.rounds) && run.edit.Done?
        && Calls(|Missing(old(r.assets), dir)|) <= |run.rounds|
        ==> o == Public && uploads == Calls(|Missing(old(r.assets), dir)|)
  {
    var draft := r.draft;
    o, uploads, successes := Fill(r, dir, manifest, draft, run.rounds);
    if o == Public && draft {
      o := MakePublic(r, run.edit);
    }
  }

  // ---------------------------------------------------------------- any number of runs

  /** A run that meets no failure and has rounds enough for the whole directory. */
  ghost predicate Undisturbed(run: Run, dir: Files) {
    Smooth(run.rounds) && run.create.Done? && run.edit.Done? && Calls(|dir.Keys|) <= |run.rounds|
  }

  /** Runs of the same prepared directory one after the other, each ending as it may. Over all of them
      together no more uploads succeed than the files need; no run is refused; what was made public
      stays public and complete; and one undisturbed run is enough to get there. */
  method Reruns(r: Release, dir: Files, manifest: map<string, Pin>, revision: string, runs: seq<Run>)
      returns (outcomes: seq<Outcome>, successes: nat)
    requires Prepared(dir, manifest) && Sound(r, dir)
    modifies r
    ensures Sound(r, dir) && Grown(old(r.assets), r.assets, dir) && |outcomes| == |runs|
    ensures Calls(|Missing(r.assets, dir)|) + successes <= Calls(|Missing(old(r.assets), dir)|)
    ensures forall o <- outcomes :: o == Public || o == RequestFailed || o == Crashed
    ensures old(r.created && !r.draft) ==> r.created && !r.draft
    ensures r.created && !r.draft ==> r.assets == dir
    ensures Public in outcomes ==> r.created && !r.draft && r.assets == dir
    ensures (exists run :: run in runs && Undisturbed(run, dir)) ==> Public in outcomes
  {
    outcomes, successes := [], 0;
    for i := 0 to |runs|
      invariant Sound(r, dir) && Grown(old(r.assets), r.assets, dir) && |outcomes| == i
      invariant Calls(|Missing(r.assets, dir)|) + successes <= Calls(|Missing(old(r.assets), dir)|)
      invariant forall o <- outcomes :: o == Public || o == RequestFailed || o == Crashed
      invariant old(r.created && !r.draft) ==> r.created && !r.draft
      invariant Public in outcomes ==> r.created && !r.draft && r.assets == dir
      invariant (exists run :: run in runs[..i] && Undisturbed(run, dir)) ==> Public in outcomes
    {
      assert runs[..i + 1] == runs[..i] + [runs[i]];
      var o, good := Rerun(r, dir, manifest, revision, runs[i]);
      outcomes := outcomes + [o];
      successes := successes + good;
    }
    assert runs[..|runs|] == runs;
  }

  /** One run of a prepared directory on a release that earlier runs may have left. */
  method Rerun(r: Release, dir: Files, manifest: map<string, Pin>, revision: string, run: Run)
      returns (o: Outcome, successes: nat)
    requires Prepared(dir, manifest) && Sound(r, dir)
    modifies r
    ensures Sound(r, dir) && Grown(old(r.assets), r.assets, dir)
    ensures Calls(|Missing(r.assets, dir)|) + successes <= Calls(|Missing(old(r.assets), dir)|)
    ensures o == Public || o == RequestFailed || o == Crashed
    ensures o == Public ==> r.created && !r.draft && r.assets == dir
    ensures old(r.created && !r.draft) ==> r.created && !r.draft && r.assets == dir
    ensures Undisturbed(run, dir) ==> o == Public
  {
    Included(Missing(r.assets, dir), dir.Keys);
    CallsMonotone(|Missing(r.assets, dir)|, |dir.Keys|);
    PinnedIsSame(r.assets, dir, manifest);
    var uploads;
    o, uploads, successes := Publish(r, dir, manifest, revision, run);
  }
}
