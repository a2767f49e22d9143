/** The first half of scripts/merge-userspace-shards.py: do the artifacts found make up all shards? */
module ShardCoverage {
  import opened Wrappers
  import opened Ordering
  import opened ShardSelect
  import TextLines

  /** One package file of an artifact: where it is, and what its control file says when it can be read. */
  datatype Ipk = Ipk(feed: string, file: string, control: Control, content: string)

  datatype Control = Unreadable | Control(package: string, version: string, arch: string, text: string)

  /** One artifact directory. */
  datatype Artifact = Artifact(manifest: Option<Manifest>, report: bool, ipks: seq<Ipk>)

  type Shards = seq<Artifact>

  ghost predicate AllFound(shards: Shards) {
    forall s <- shards :: s.manifest.Some?
  }

  function IndexOf(s: Artifact): int
    requires s.manifest.Some?
  {
    s.manifest.value.index
  }

  ghost predicate OwnIndexes(shards: Shards)
    requires AllFound(shards)
  {
    forall i, j | 0 <= i < j < |shards| :: IndexOf(shards[i]) != IndexOf(shards[j])
  }

  /** The recipes of all shards, in the order the artifacts are found. */
  function AllRecipes(shards: Shards): seq<string> {
    if shards == [] then []
    else AllRecipes(shards[..|shards| - 1]) + RecipesOf(shards[|shards| - 1])
  }

  function RecipesOf(s: Artifact): seq<string> {
    if s.manifest.Some? then s.manifest.value.recipes else []
  }

  ghost predicate Agree(shards: Shards, count: int)
    requires AllFound(shards)
  {
    shards != [] && forall s <- shards ::
      && s.manifest.value.digest == shards[0].manifest.value.digest
      && s.manifest.value.total == shards[0].manifest.value.total
      && s.manifest.value.count == count
  }

  ghost predicate Covered(shards: Shards, count: int)
    requires AllFound(shards)
  {
    && Agree(shards, count)
    && Distinct(AllRecipes(shards)) && |AllRecipes(shards)| == shards[0].manifest.value.total
    && Sha256(Text(Sorted(AllRecipes(shards)))) == shards[0].manifest.value.digest
  }

  ghost predicate HasIndex(shards: Shards, i: int) {
    exists s :: s in shards && s.manifest.Some? && IndexOf(s) == i
  }

  lemma HasIndexIff(shards: Shards, i: int)
    ensures HasIndex(shards, i)
       <==> exists k :: 0 <= k < |shards| && shards[k].manifest.Some? && shards[k].manifest.value.index == i
  {
    if s :| s in shards && s.manifest.Some? && IndexOf(s) == i {
      var k :| 0 <= k < |shards| && shards[k] == s;
    }
    if k :| 0 <= k < |shards| && shards[k].manifest.Some? && shards[k].manifest.value.index == i {
      assert shards[k] in shards && IndexOf(shards[k]) == i;
    }
  }

  /** No problem is reported. */
  ghost predicate Accepted(shards: Shards, count: int) {
    && AllFound(shards) && OwnIndexes(shards)
    && (forall s <- shards :: s.ipks != [] || s.report)
    && (forall i | 0 <= i < count :: HasIndex(shards, i))
    && (|shards| == count ==> Covered(shards, count))
  }

  /** In full: every shard has a manifest and built something or reports a failure, no two have one index, no
      index is missing; and if there are as many as asked for, they agree on digest, total and count, and their
      recipes are as many as the total, distinct, and in order have the digest. */
  lemma AcceptedIff(shards: Shards, count: int)
    requires shards != [] && forall s <- shards :: s.manifest.Some?
    ensures Accepted(shards, count) <==>
      && (forall s <- shards :: s.ipks != [] || s.report)
      && (forall i, j | 0 <= i < j < |shards| :: shards[i].manifest.value.index != shards[j].manifest.value.index)
      && (forall i | 0 <= i < count :: HasIndex(shards, i))
      && (|shards| == count ==>
            && (forall s <- shards ::
                  && s.manifest.value.digest == shards[0].manifest.value.digest
                  && s.manifest.value.total == shards[0].manifest.value.total && s.manifest.value.count == count)
            && Distinct(AllRecipes(shards)) && |AllRecipes(shards)| == shards[0].manifest.value.total
            && shards[0].manifest.value.digest
                 == Sha256(TextLines.Between(Sorted(AllRecipes(shards)), "\n") + "\n"))
  {
    TextIs(Sorted(AllRecipes(shards)));
    assert forall i | 0 <= i < |shards| :: shards[i] in shards && IndexOf(shards[i]) == shards[i].manifest.value.index;
  }

  // ---------------------------------------------------------------- the check

  /** The manifests found, refusing nothing yet: `clean` tells whether a problem was met. */
  method ReadManifests(shards: Shards) returns (clean: bool, manifests: map<int, Artifact>)
    ensures clean <==> AllFound(shards) && OwnIndexes(shards) && forall s <- shards :: s.ipks != [] || s.report
    ensures AllFound(shards) && OwnIndexes(shards) ==>
      && (forall s <- shards :: IndexOf(s) in manifests && manifests[IndexOf(s)] == s)
      && (forall i <- manifests :: manifests[i] in shards && manifests[i].manifest.Some? && IndexOf(manifests[i]) == i)
      && |manifests| == |shards|
  {
    manifests := map[];
    clean := true;
    for k := 0 to |shards|
      invariant clean <==> AllFound(shards[..k]) && OwnIndexes(shards[..k])
                           && forall s <- shards[..k] :: s.ipks != [] || s.report
      invariant forall s <- shards[..k] | s.manifest.Some? :: IndexOf(s) in manifests
      invariant forall i <- manifests :: manifests[i] in shards[..k] && manifests[i].manifest.Some?
                                         && IndexOf(manifests[i]) == i
      invariant AllFound(shards[..k]) && OwnIndexes(shards[..k]) ==>
        && (forall s <- shards[..k] :: manifests[IndexOf(s)] == s) && |manifests| == k
    {
      var s := shards[k];
      assert shards[..k + 1] == shards[..k] + [s];
      if s.manifest.None? {
        assert s in shards[..k + 1];
        clean := false;
      } else if IndexOf(s) in manifests {
        ghost var j :| 0 <= j < k && shards[j] == manifests[IndexOf(s)];
        assert !AllFound(shards[..k + 1]) || IndexOf(shards[..k + 1][j]) == IndexOf(shards[..k + 1][k]);
        clean := false;
      } else {
        if s.ipks == [] && !s.report {
          assert s in shards[..k + 1];
          clean := false;
        }
        AddOne(shards, k);
        manifests := manifests[IndexOf(s) := s];
      }
    }
    assert shards[..|shards|] == shards;
  }

  lemma AddOne(shards: Shards, k: nat)
    requires k < |shards| && shards[k].manifest.Some?
    ensures AllFound(shards[..k + 1]) <==> AllFound(shards[..k])
    ensures AllFound(shards[..k]) && OwnIndexes(shards[..k + 1]) ==> OwnIndexes(shards[..k])
    ensures (AllFound(shards[..k]) && OwnIndexes(shards[..k])
             && forall s <- shards[..k] :: IndexOf(s) != IndexOf(shards[k])) ==> OwnIndexes(shards[..k + 1])
  {
    var a, b := shards[..k], shards[..k + 1];
    assert b == a + [shards[k]];
    if AllFound(a) && OwnIndexes(b) {
      assert forall i | 0 <= i < k :: a[i] == b[i];
    }
    if AllFound(a) && OwnIndexes(a) && forall s <- a :: IndexOf(s) != IndexOf(shards[k]) {
      forall i, j | 0 <= i < j < |b| ensures IndexOf(b[i]) != IndexOf(b[j]) {
        if j == k {
          assert a[i] in a;
        } else {
          assert a[i] == b[i] && a[j] == b[j];
        }
      }
    }
  }

  method Disagree(shards: Shards, count: int) returns (differ: bool, recipes: seq<string>)
    requires AllFound(shards)
    ensures differ <==> !Agree(shards, count)
    ensures recipes == AllRecipes(shards)
  {
    differ, recipes := shards == [], [];
    for k := 0 to |shards|
      invariant recipes == AllRecipes(shards[..k])
      invariant differ <==> shards == [] || exists i :: 0 <= i < k && Deviates(shards, i, count)
    {
      assert shards[..k + 1][..k] == shards[..k];
      recipes := recipes + shards[k].manifest.value.recipes;
      differ := differ || Deviates(shards, k, count);
    }
    assert shards[..|shards|] == shards;
    AgreeIff(shards, count);
  }

  lemma AgreeIff(shards: Shards, count: int)
    requires AllFound(shards)
    ensures Agree(shards, count) <==> shards != [] && forall i | 0 <= i < |shards| :: !Deviates(shards, i, count)
  {
    if shards != [] && forall i | 0 <= i < |shards| :: !Deviates(shards, i, count) {
      forall s | s in shards ensures s.manifest.value.digest == shards[0].manifest.value.digest
          && s.manifest.value.total == shards[0].manifest.value.total && s.manifest.value.count == count {
        var i :| 0 <= i < |shards| && shards[i] == s;
        assert !Deviates(shards, i, count);
      }
    }
    if Agree(shards, count) {
      forall i | 0 <= i < |shards| ensures !Deviates(shards, i, count) {
        assert shards[i] in shards;
      }
    }
  }

  predicate Deviates(shards: Shards, i: nat, count: int)
    requires AllFound(shards) && i < |shards|
  {
    var m, first := shards[i].manifest.value, shards[0].manifest.value;
    m.digest != first.digest || m.total != first.total || m.count != count
  }

  /** The whole check. */
  method Check(shards: Shards, count: int) returns (ok: bool)
    ensures ok <==> Accepted(shards, count)
  {
    var clean, manifests := ReadManifests(shards);
    if !clean {
      return false;
    }
    for i := 0 to (if count < 0 then 0 else count)
      invariant forall j | 0 <= j < i :: HasIndex(shards, j)
    {
      if i !in manifests {
        assert !HasIndex(shards, i);
        return false;
      }
      assert manifests[i] in shards;
    }
    ok := true;
    if |manifests| == count {
      var differ, recipes := Disagree(shards, count);
      ok := !differ && |set r | r in recipes| == |recipes| && |recipes| == shards[0].manifest.value.total
            && Sha256(Text(Sorted(recipes))) == shards[0].manifest.value.digest;
      SetOfDistinct(recipes);
    }
  }

  lemma {:induction false} SetOfDistinct<T(!new)>(s: seq<T>)
    ensures |set x | x in s| == |s| <==> Distinct(s)
    ensures |set x | x in s| <= |s|
  {
    if s != [] {
      var rest := s[1..];
      SetOfDistinct(rest);
      var all, tail := set x | x in s, set x | x in rest;
      assert s == [s[0]] + rest;
      assert all == tail + {s[0]};
      if s[0] in rest {
        assert all == tail;
        var j :| 0 <= j < |rest| && rest[j] == s[0];
        assert s[0] == s[j + 1];
      } else {
        assert s[0] !in tail && |all| == |tail| + 1;
        if Distinct(rest) {
          forall i, j | 0 <= i < j < |s| ensures s[i] != s[j] {
            if i == 0 {
              assert s[j] == rest[j - 1];
            } else {
              assert s[i] == rest[i - 1] && s[j] == rest[j - 1];
            }
          }
        }
        if Distinct(s) {
          assert forall i, j | 0 <= i < j < |rest| :: rest[i] == s[i + 1] && rest[j] == s[j + 1];
        }
      }
    }
  }

  // ---------------------------------------------------------------- what acceptance means

  ghost predicate InRange(shards: Shards, count: int)
    requires AllFound(shards)
  {
    forall s <- shards :: 0 <= IndexOf(s) < count
  }

  function Range(n: nat): set<int> {
    if n == 0 then {} else Range(n - 1) + {n - 1}
  }

  lemma {:induction false} RangeIs(n: nat)
    ensures |Range(n)| == n && forall i :: i in Range(n) <==> 0 <= i < n
  {
    if n > 0 {
      RangeIs(n - 1);
    }
  }

  function Indexes(shards: Shards): seq<int>
    requires AllFound(shards)
  {
    seq(|shards|, i requires 0 <= i < |shards| => IndexOf(shards[i]))
  }

  /** The recipes are checked for coverage exactly when no shard has an index of its own beyond the count. */
  lemma CoverageCheckedIff(shards: Shards, count: nat)
    requires Accepted(shards, count)
    ensures |shards| == count <==> InRange(shards, count)
    ensures InRange(shards, count) ==> Covered(shards, count)
  {
    var range, found := Range(count), set i | i in Indexes(shards);
    SetOfDistinct(Indexes(shards));
    RangeIs(count);
    assert forall k | 0 <= k < |shards| :: Indexes(shards)[k] == IndexOf(shards[k]);
    forall i | i in range ensures i in found {
      assert HasIndex(shards, i);
      var s :| s in shards && s.manifest.Some? && IndexOf(s) == i;
      var k :| 0 <= k < |shards| && shards[k] == s;
      assert Indexes(shards)[k] == i;
    }
    Included(range, found);
    if |shards| == count {
      forall s <- shards ensures 0 <= IndexOf(s) < count {
        var k :| 0 <= k < |shards| && shards[k] == s;
        assert Indexes(shards)[k] in found;
      }
    }
    if InRange(shards, count) {
      forall i | i in found ensures i in range {
        var k :| 0 <= k < |shards| && Indexes(shards)[k] == i;
        assert shards[k] in shards;
      }
      Included(found, range);
    }
  }

  /** One shard too many, and shards that do not even agree on the recipes pass. */
  lemma ExtraShardPasses() returns (shards: Shards)
    ensures Accepted(shards, 1) && !Covered(shards, 1)
  {
    var a := Manifest(0, 1, 5, Sha256("a"), [], []);
    var b := Manifest(1, 9, 7, Sha256("b"), ["r", "r"], []);
    shards := [Artifact(Some(a), true, []), Artifact(Some(b), true, [])];
    assert shards[0] in shards && shards[1] in shards;
    assert HasIndex(shards, 0);
  }

  lemma {:induction false} AllRecipesHas(shards: Shards, r: string)
    ensures r in AllRecipes(shards) <==> exists s :: s in shards && r in RecipesOf(s)
  {
    if shards != [] {
      var front := shards[..|shards| - 1];
      AllRecipesHas(front, r);
      assert shards == front + [shards[|shards| - 1]];
    }
  }

  /** Recipes that are distinct over all shards are in one shard each. */
  lemma {:induction false} InOneShard(shards: Shards, i: nat, j: nat, r: string)
    requires Distinct(AllRecipes(shards)) && i < |shards| && j < |shards|
    requires r in RecipesOf(shards[i]) && r in RecipesOf(shards[j])
    ensures i == j
  {
    if i > j {
      InOneShard(shards, j, i, r);
    } else if i < j {
      var front, last := shards[..|shards| - 1], RecipesOf(shards[|shards| - 1]);
      var before := AllRecipes(front);
      assert AllRecipes(shards) == before + last;
      if j == |shards| - 1 {
        assert front[i] in front;
        AllRecipesHas(front, r);
        DistinctConcat(before, last);
      } else {
        DistinctConcat(before, last);
        InOneShard(front, i, j, r);
      }
    }
  }

  /** Exactly `count` accepted shards whose digest is that of a recipe list deal out that list: every
      recipe is in exactly one shard, once, and there are no others. */
  lemma AcceptedIsPartition(shards: Shards, count: nat, recipes: seq<string>)
    requires Accepted(shards, count) && |shards| == count
    requires Increasing(recipes) && CleanLines(recipes) && CleanLines(AllRecipes(shards))
    requires shards != [] ==> shards[0].manifest.value.digest == Sha256(Text(recipes))
    ensures forall i | 0 <= i < count :: HasIndex(shards, i)
    ensures Sorted(AllRecipes(shards)) == recipes
    ensures forall r :: r in recipes <==> exists s :: s in shards && r in RecipesOf(s)
    ensures forall i, j, r | 0 <= i < count && 0 <= j < count
      && r in RecipesOf(shards[i]) && r in RecipesOf(shards[j]) :: i == j
    ensures forall i | 0 <= i < count :: Distinct(RecipesOf(shards[i]))
  {
    var all := AllRecipes(shards);
    SortedIsSortedList(all);
    SortBySorts(Self, all);
    forall l <- Sorted(all) ensures l != "" && '\n' !in l {
      assert l in multiset(all);
    }
    TextInjective(Sorted(all), recipes);
    forall r ensures r in recipes <==> exists s :: s in shards && r in RecipesOf(s) {
      AllRecipesHas(shards, r);
    }
    forall i, j, r | 0 <= i < count && 0 <= j < count && r in RecipesOf(shards[i]) && r in RecipesOf(shards[j])
      ensures i == j {
      InOneShard(shards, i, j, r);
    }
    forall i | 0 <= i < count ensures Distinct(RecipesOf(shards[i])) {
      PartDistinct(shards, i);
    }
  }

  lemma {:induction false} PartDistinct(shards: Shards, i: nat)
    requires Distinct(AllRecipes(shards)) && i < |shards|
    ensures Distinct(RecipesOf(shards[i]))
  {
    var front, last := shards[..|shards| - 1], RecipesOf(shards[|shards| - 1]);
    var before, all := AllRecipes(front), AllRecipes(shards);
    assert all == before + last;
    DistinctConcat(before, last);
    if i < |shards| - 1 {
      PartDistinct(front, i);
    }
  }

  // ---------------------------------------------------------------- what is selected is accepted

  /** Artifacts of all the shards of one selection, in any order. */
  ghost predicate FromSelection(shards: Shards, recipeOf: map<string, string>, recipes: seq<string>, count: nat) {
    && 0 < count <= |recipes| && SortedList(recipes, recipeOf.Values) && |shards| == count
    && AllFound(shards) && OwnIndexes(shards) && InRange(shards, count)
    && (forall s <- shards :: IsManifest(s.manifest.value, recipeOf, recipes, IndexOf(s), count))
    && (forall s <- shards :: s.ipks != [] || s.report)
  }

  lemma NotInBoth(shards: Shards, recipeOf: map<string, string>, recipes: seq<string>, count: nat,
                  i: nat, j: nat, r: string)
    requires FromSelection(shards, recipeOf, recipes, count) && i < j < |shards| && r in RecipesOf(shards[i])
    ensures r !in RecipesOf(shards[j])
  {
    assert shards[i] in shards && shards[j] in shards;
    if r in RecipesOf(shards[j]) {
      StrideDisjoint(recipes, IndexOf(shards[i]), IndexOf(shards[j]), count, r);
    }
  }

  lemma {:induction false} PrefixDistinct(shards: Shards, recipeOf: map<string, string>, recipes: seq<string>,
                                          count: nat, n: nat)
    requires FromSelection(shards, recipeOf, recipes, count) && n <= |shards|
    ensures Distinct(AllRecipes(shards[..n]))
  {
    if n > 0 {
      var front, s := shards[..n - 1], shards[n - 1];
      assert shards[..n][..n - 1] == front;
      PrefixDistinct(shards, recipeOf, recipes, count, n - 1);
      var before, last := AllRecipes(front), RecipesOf(s);
      assert s in shards;
      StrideDistinct(recipes, IndexOf(s), count);
      forall r | r in before ensures r !in last {
        var k := PrefixHas(shards, n - 1, r);
        NotInBoth(shards, recipeOf, recipes, count, k, n - 1, r);
      }
      DistinctConcat(before, last);
    }
  }

  lemma {:induction false} PrefixHas(shards: Shards, n: nat, r: string) returns (k: nat)
    requires n <= |shards| && r in AllRecipes(shards[..n])
    ensures k < n && r in RecipesOf(shards[k])
  {
    AllRecipesHas(shards[..n], r);
    var t :| t in shards[..n] && r in RecipesOf(t);
    k :| 0 <= k < n && shards[..n][k] == t;
  }

  /** The shards that select makes always pass. */
  lemma SelectedIsAccepted(shards: Shards, recipeOf: map<string, string>, recipes: seq<string>, count: nat)
    requires FromSelection(shards, recipeOf, recipes, count)
    ensures Accepted(shards, count)
  {
    forall i | 0 <= i < count ensures HasIndex(shards, i) {
      AllIndexes(shards, count, i);
    }
    AllRecipesSorted(shards, recipeOf, recipes, count);
    assert shards[0] in shards;
  }

  lemma AllRecipesSorted(shards: Shards, recipeOf: map<string, string>, recipes: seq<string>, count: nat)
    requires FromSelection(shards, recipeOf, recipes, count)
    ensures Distinct(AllRecipes(shards)) && Sorted(AllRecipes(shards)) == recipes
    ensures |AllRecipes(shards)| == |recipes|
  {
    var all := AllRecipes(shards);
    assert shards[..|shards|] == shards;
    PrefixDistinct(shards, recipeOf, recipes, count, |shards|);
    forall r ensures r in all <==> r in recipes {
      SelectedRecipe(shards, recipeOf, recipes, count, r);
    }
    var s := set y | y in all;
    SortedIsSortedList(all);
    assert forall x :: x in s <==> x in recipes;
    SortedUnique(Sorted(all), recipes, s);
  }

  lemma SelectedRecipe(shards: Shards, recipeOf: map<string, string>, recipes: seq<string>, count: nat, r: string)
    requires FromSelection(shards, recipeOf, recipes, count)
    ensures r in AllRecipes(shards) <==> r in recipes
  {
    AllRecipesHas(shards, r);
    ShardsPartition(recipes, count);
    if r in recipes {
      assert InSomeShard(recipes, count, r);
      var i :| 0 <= i < count && r in Stride(recipes, i, count);
      AllIndexes(shards, count, i);
      var s :| s in shards && s.manifest.Some? && IndexOf(s) == i;
      assert r in RecipesOf(s);
    }
  }

  lemma AllIndexes(shards: Shards, count: nat, i: nat)
    requires AllFound(shards) && OwnIndexes(shards) && InRange(shards, count) && |shards| == count && i < count
    ensures HasIndex(shards, i)
  {
    var range, found := Range(count), set k | k in Indexes(shards);
    SetOfDistinct(Indexes(shards));
    RangeIs(count);
    forall k | k in found ensures k in range {
      var n :| 0 <= n < |shards| && Indexes(shards)[n] == k;
      assert shards[n] in shards;
    }
    Included(found, range);
    assert i in range;
    var n :| 0 <= n < |shards| && Indexes(shards)[n] == i;
    assert shards[n] in shards;
  }
}
