/** scripts/select-userspace-shard.py: the enabled userspace recipes, dealt out to a number of shards. */
module ShardSelect {
  import opened Wrappers
  import opened Ordering
  import TextLines

  datatype Manifest = Manifest(index: int, count: int, total: int, digest: Digest,
                               recipes: seq<string>, packages: seq<string>)

  datatype Result = Selected(manifest: Manifest) | TooFewRecipes

  /** The lines joined by line breaks, with a final one. */
  function Text(lines: seq<string>): string {
    if |lines| == 0 then "\n" else if |lines| == 1 then lines[0] + "\n" else lines[0] + "\n" + Text(lines[1..])
  }

  lemma {:induction false} TextIs(lines: seq<string>)
    ensures Text(lines) == TextLines.Between(lines, "\n") + "\n"
  {
    if |lines| > 1 {
      TextIs(lines[1..]);
    }
  }

  ghost predicate CleanLines(lines: seq<string>) {
    forall l <- lines :: l != "" && '\n' !in l
  }

  /** Lists of names without line breaks have different texts. */
  lemma {:induction false} TextInjective(a: seq<string>, b: seq<string>)
    requires CleanLines(a) && CleanLines(b) && Text(a) == Text(b)
    ensures a == b
    decreases |a| + |b|
  {
    if a == [] || b == [] {
      if a != [] { FirstChar(a); }
      if b != [] { FirstChar(b); }
    } else {
      var ra, rb := TextAfter(a), TextAfter(b);
      assert a[0] in a && b[0] in b;
      assert Text(a) == a[0] + ("\n" + ra) && Text(b) == b[0] + ("\n" + rb);
      FirstLine(a[0], ra, b[0], rb);
      if |a| > 1 || |b| > 1 {
        assert |a| > 1 && |b| > 1;
        assert forall l <- a[1..] :: l in a;
        assert forall l <- b[1..] :: l in b;
        TextInjective(a[1..], b[1..]);
      }
      assert a == [a[0]] + a[1..] && b == [b[0]] + b[1..];
    }
  }

  lemma FirstChar(lines: seq<string>)
    requires CleanLines(lines) && lines != []
    ensures Text(lines)[0] != '\n'
  {
    assert lines[0] in lines;
    assert lines[0][0] in lines[0] && Text(lines)[0] == lines[0][0];
  }

  function TextAfter(lines: seq<string>): string
    requires lines != []
  {
    if |lines| == 1 then "" else Text(lines[1..])
  }

  lemma FirstLine(a: string, ra: string, b: string, rb: string)
    requires '\n' !in a && '\n' !in b && a + ("\n" + ra) == b + ("\n" + rb)
    ensures a == b && ra == rb
  {
    var t := a + ("\n" + ra);
    assert t[|a|] == '\n' && t[|b|] == '\n';
    assert forall i | 0 <= i < |a| :: t[i] == a[i];
    assert forall i | 0 <= i < |b| :: t[i] == b[i];
    assert |a| == |b|;
    assert a == t[..|a|] && b == t[..|b|];
    assert ra == t[|a| + 1..] && rb == t[|b| + 1..];
  }

  // ---------------------------------------------------------------- which recipe builds a package

  predicate IsUserspace(package: string) {
    !("kmod-" <= package) && package != "kernel"
  }

  predicate IsUserspaceRecipe(recipe: string) {
    !("kernel/" <= recipe) || recipe == "kernel/om-watchdog"
  }

  function Qualifies(enabled: seq<string>, dep: (string, string)): bool {
    dep.0 in enabled && IsUserspace(dep.0) && IsUserspaceRecipe(dep.1)
  }

  /** The recipe of every enabled userspace package: the last line about it counts. */
  function RecipeOf(enabled: seq<string>, deps: seq<(string, string)>): map<string, string> {
    if deps == [] then map[]
    else
      var front, dep := RecipeOf(enabled, deps[..|deps| - 1]), deps[|deps| - 1];
      if Qualifies(enabled, dep) then front[dep.0 := dep.1] else front
  }

  /** Which line about a package counts: the last one whose recipe is of userspace. */
  ghost predicate Counts(deps: seq<(string, string)>, p: string, i: int) {
    && 0 <= i < |deps| && deps[i].0 == p && (!("kernel/" <= deps[i].1) || deps[i].1 == "kernel/om-watchdog")
    && forall j | i < j < |deps| && deps[j].0 == p :: "kernel/" <= deps[j].1 && deps[j].1 != "kernel/om-watchdog"
  }

  lemma {:induction false} RecipeIs(enabled: seq<string>, deps: seq<(string, string)>, p: string, r: string)
    ensures p in RecipeOf(enabled, deps) && RecipeOf(enabled, deps)[p] == r <==>
      p in enabled && p != "kernel" && !("kmod-" <= p) && exists i :: Counts(deps, p, i) && deps[i].1 == r
  {
    if deps != [] {
      var n := |deps| - 1;
      var front := deps[..n];
      RecipeIs(enabled, front, p, r);
      if Qualifies(enabled, deps[n]) && deps[n].0 == p {
        assert Counts(deps, p, n);
      } else if p in enabled && IsUserspace(p) {
        forall i ensures Counts(deps, p, i) <==> Counts(front, p, i) {
          assert forall j | 0 <= j < n :: front[j] == deps[j];
        }
      }
    }
  }

  method ReadRecipes(enabled: seq<string>, deps: seq<(string, string)>) returns (recipeOf: map<string, string>)
    ensures recipeOf == RecipeOf(enabled, deps)
  {
    var selected: set<string> := {};
    for i := 0 to |enabled|
      invariant selected == set p | p in enabled[..i] && IsUserspace(p)
    {
      assert enabled[..i + 1] == enabled[..i] + [enabled[i]];
      if IsUserspace(enabled[i]) {
        selected := selected + {enabled[i]};
      }
    }
    assert enabled[..|enabled|] == enabled;
    recipeOf := map[];
    for i := 0 to |deps|
      invariant recipeOf == RecipeOf(enabled, deps[..i])
    {
      assert deps[..i + 1][..i] == deps[..i];
      if deps[i].0 in selected && IsUserspaceRecipe(deps[i].1) {
        recipeOf := recipeOf[deps[i].0 := deps[i].1];
      }
    }
    assert deps[..|deps|] == deps;
  }

  // ---------------------------------------------------------------- the partition

  /** Every count-th element from a start on: `s[start::count]`. */
  function Stride<T>(s: seq<T>, start: nat, count: nat): seq<T>
    requires count > 0
    decreases |s| - start
  {
    if start >= |s| then [] else [s[start]] + Stride(s, start + count, count)
  }

  lemma {:induction false} StrideAt<T>(s: seq<T>, start: nat, count: nat, k: nat)
    requires count > 0 && k < |Stride(s, start, count)|
    ensures start + k * count < |s| && Stride(s, start, count)[k] == s[start + k * count]
    decreases |s| - start
  {
    if k > 0 {
      StrideAt(s, start + count, count, k - 1);
      assert (start + count) + (k - 1) * count == start + k * count;
    }
  }

  lemma {:induction false} StrideSize<T>(s: seq<T>, start: nat, count: nat)
    requires count > 0
    ensures var n := |Stride(s, start, count)|;
            |s| <= start + n * count && (start < |s| ==> n > 0 && start + (n - 1) * count < |s|)
    decreases |s| - start
  {
    if start < |s| {
      StrideSize(s, start + count, count);
      var n := |Stride(s, start + count, count)|;
      assert (start + count) + n * count == start + (n + 1) * count;
      if n > 0 {
        assert (start + count) + (n - 1) * count == start + n * count;
      }
    }
  }

  lemma Larger(a: nat, b: nat, count: nat)
    requires a < b
    ensures a * count + count <= b * count
  {
    assert b * count == a * count + (b - a) * count;
    assert (b - a) * count == count + (b - a - 1) * count;
  }

  /** Element k goes to shard k % count. */
  lemma StrideHas<T>(s: seq<T>, k: nat, count: nat) returns (i: nat)
    requires count > 0 && k < |s|
    ensures i == k % count && i < count && s[k] in Stride(s, i, count)
  {
    i := k % count;
    var q := k / count;
    assert k == i + q * count;
    StrideIn(s, i, count, q);
  }

  lemma {:induction false} StrideIn<T>(s: seq<T>, start: nat, count: nat, q: nat)
    requires count > 0 && start + q * count < |s|
    ensures s[start + q * count] in Stride(s, start, count)
    decreases q
  {
    assert start < |s|;
    if q > 0 {
      assert (start + count) + (q - 1) * count == start + q * count;
      StrideIn(s, start + count, count, q - 1);
    }
  }

  ghost predicate InSomeShard<T(!new)>(s: seq<T>, count: nat, x: T)
    requires count > 0
  {
    exists i :: 0 <= i < count && x in Stride(s, i, count)
  }

  lemma StrideCovers<T(!new)>(s: seq<T>, count: nat, x: T)
    requires count > 0 && x in s
    ensures InSomeShard(s, count, x)
  {
    var k :| 0 <= k < |s| && s[k] == x;
    var i := StrideHas(s, k, count);
    assert x in Stride(s, i, count);
  }

  lemma SameResidue(i: nat, a: nat, j: nat, b: nat, count: nat)
    requires i < count && j < count && i + a * count == j + b * count
    ensures i == j
  {
    if a < b {
      Larger(a, b, count);
    } else if b < a {
      Larger(b, a, count);
    }
  }

  /** The shards of a list: none is empty, every element is in exactly one, sizes differ by at most one. */
  lemma ShardsPartition<T(!new)>(s: seq<T>, count: nat)
    requires 0 < count <= |s| && Distinct(s)
    ensures forall i | 0 <= i < count :: Stride(s, i, count) != [] && Distinct(Stride(s, i, count))
    ensures forall x <- s :: InSomeShard(s, count, x)
    ensures forall i, x | 0 <= i < count && x in Stride(s, i, count) :: x in s
    ensures forall i, j, x | 0 <= i < count && 0 <= j < count && x in Stride(s, i, count) && x in Stride(s, j, count) ::
      i == j
    ensures forall i, j | 0 <= i < count && 0 <= j < count ::
      |Stride(s, i, count)| <= |Stride(s, j, count)| + 1
  {
    forall i | 0 <= i < count ensures Stride(s, i, count) != [] && Distinct(Stride(s, i, count)) {
      StrideSize(s, i, count);
      StrideDistinct(s, i, count);
    }
    forall x | x in s ensures InSomeShard(s, count, x) {
      StrideCovers(s, count, x);
    }
    forall i, x | 0 <= i < count && x in Stride(s, i, count) ensures x in s {
      var k :| 0 <= k < |Stride(s, i, count)| && Stride(s, i, count)[k] == x;
      StrideAt(s, i, count, k);
    }
    forall i, j, x | 0 <= i < count && 0 <= j < count && x in Stride(s, i, count) && x in Stride(s, j, count)
      ensures i == j {
      StrideDisjoint(s, i, j, count, x);
    }
    forall i, j | 0 <= i < count && 0 <= j < count
      ensures |Stride(s, i, count)| <= |Stride(s, j, count)| + 1 {
      StrideBalanced(s, i, j, count);
    }
  }

  lemma StrideDistinct<T(!new)>(s: seq<T>, i: nat, count: nat)
    requires i < count && Distinct(s)
    ensures Distinct(Stride(s, i, count))
  {
    var t := Stride(s, i, count);
    forall a, b | 0 <= a < b < |t| ensures t[a] != t[b] {
      StrideAt(s, i, count, a);
      StrideAt(s, i, count, b);
      Larger(a, b, count);
    }
  }

  lemma StrideDisjoint<T(!new)>(s: seq<T>, i: nat, j: nat, count: nat, x: T)
    requires i < count && j < count && Distinct(s) && x in Stride(s, i, count) && x in Stride(s, j, count)
    ensures i == j
  {
    var a :| 0 <= a < |Stride(s, i, count)| && Stride(s, i, count)[a] == x;
    var b :| 0 <= b < |Stride(s, j, count)| && Stride(s, j, count)[b] == x;
    StrideAt(s, i, count, a);
    StrideAt(s, j, count, b);
    SameResidue(i, a, j, b, count);
  }

  lemma StrideBalanced<T>(s: seq<T>, i: nat, j: nat, count: nat)
    requires i < count <= |s| && j < count
    ensures |Stride(s, i, count)| <= |Stride(s, j, count)| + 1
  {
    StrideSize(s, i, count);
    StrideSize(s, j, count);
    var m, n := |Stride(s, i, count)|, |Stride(s, j, count)|;
    if n < m - 1 {
      Larger(n, m - 1, count);
    }
  }

  // ---------------------------------------------------------------- select

  ghost predicate IsManifest(m: Manifest, recipeOf: map<string, string>, recipes: seq<string>, index: nat, count: nat)
    requires count > 0
  {
    && m.index == index && m.count == count && m.total == |recipes| && m.digest == Sha256(Text(recipes))
    && m.recipes == Stride(recipes, index, count)
    && SortedList(m.packages, set p | p in recipeOf && recipeOf[p] in Stride(recipes, index, count))
  }

  /** A manifest in terms of the recipes in order: every count-th from its index on, and their packages. */
  lemma ManifestSays(m: Manifest, recipeOf: map<string, string>, recipes: seq<string>, index: nat, count: nat)
    requires index < count && IsManifest(m, recipeOf, recipes, index, count)
    ensures m.index == index && m.count == count && m.total == |recipes|
    ensures m.digest == Sha256(TextLines.Between(recipes, "\n") + "\n")
    ensures IsDealt(m.recipes, recipes, index, count)
    ensures Increasing(m.packages)
    ensures forall p :: p in m.packages <==> p in recipeOf && recipeOf[p] in m.recipes
  {
    TextIs(recipes);
    StrideIs(recipes, index, count);
  }

  /** The elements at index, index + count, index + 2 count and so on, to the end. */
  ghost predicate IsDealt(part: seq<string>, s: seq<string>, index: nat, count: nat) {
    && |s| <= index + |part| * count
    && forall k | 0 <= k < |part| :: index + k * count < |s| && part[k] == s[index + k * count]
  }

  lemma StrideIs(s: seq<string>, index: nat, count: nat)
    requires count > 0
    ensures IsDealt(Stride(s, index, count), s, index, count)
  {
    var part := Stride(s, index, count);
    StrideSize(s, index, count);
    forall k | 0 <= k < |part| ensures index + k * count < |s| && part[k] == s[index + k * count] {
      StrideAt(s, index, count, k);
    }
  }

  /** What shard `index` of `count` builds. */
  method Select(enabled: seq<string>, deps: seq<(string, string)>, index: nat, count: nat)
      returns (r: Result, ghost recipes: seq<string>)
    requires index < count
    ensures SortedList(recipes, RecipeOf(enabled, deps).Values)
    ensures r.TooFewRecipes? <==> |RecipeOf(enabled, deps).Values| < count
    ensures r.Selected? ==> IsManifest(r.manifest, RecipeOf(enabled, deps), recipes, index, count)
  {
    var recipeOf := ReadRecipes(enabled, deps);
    var sorted := Sort(recipeOf.Values);
    recipes := sorted;
    if |sorted| < count {
      return TooFewRecipes, recipes;
    }
    var mine := Stride(sorted, index, count);
    var packages := Sort(set p | p in recipeOf && recipeOf[p] in mine);
    r := Selected(Manifest(index, count, |sorted|, Sha256(Text(sorted)), mine, packages));
  }

  /** Over all shards of one selection, every package with a recipe is in exactly one. */
  lemma PackageInOneShard(recipeOf: map<string, string>, recipes: seq<string>, count: nat, ms: seq<Manifest>, p: string)
    requires 0 < count <= |recipes| && SortedList(recipes, recipeOf.Values) && |ms| == count
    requires forall i | 0 <= i < count :: IsManifest(ms[i], recipeOf, recipes, i, count)
    ensures p in recipeOf <==> exists i :: 0 <= i < count && p in ms[i].packages
    ensures forall i, j | 0 <= i < count && 0 <= j < count && p in ms[i].packages && p in ms[j].packages :: i == j
  {
    ShardsPartition(recipes, count);
    if p in recipeOf {
      assert recipeOf[p] in recipes && InSomeShard(recipes, count, recipeOf[p]);
      var i :| 0 <= i < count && recipeOf[p] in Stride(recipes, i, count);
      assert p in ms[i].packages;
    }
  }
}
