/** Names of package files and of the feed sections they are in. */
module PackageNames {
  const FEEDS: seq<string> := ["base", "luci", "packages", "routing", "telephony", "target/packages"]
  const ARCHES: set<string> := {"all", "arm_cortex-a9_neon"}

  predicate CleanName(s: string) {
    s != "" && forall c <- s :: c !in {'/', '\\', '\r', '\n', '\0'}
  }

  predicate CleanIdentity(package: string, version: string, arch: string) {
    CleanName(package) && CleanName(version) && CleanName(arch)
  }

  function FileName(package: string, version: string, arch: string): string {
    package + "_" + version + "_" + arch + ".ipk"
  }

  /** Different packages never share a file name as long as versions have no underscore and the
      architecture is one of the two in use; package names may contain underscores. */
  lemma {:induction false} FileNamesInjective(p: string, v: string, a: string, p': string, v': string, a': string)
    requires '_' !in v && '_' !in v' && a in ARCHES && a' in ARCHES
    requires FileName(p, v, a) == FileName(p', v', a')
    ensures p == p' && v == v' && a == a'
  {
    var f := FileName(p, v, a);
    var head, head' := p + "_" + v, p' + "_" + v';
    assert f == head + ("_" + a + ".ipk") && f == head' + ("_" + a' + ".ipk");
    assert |a| == |a'| by {
      assert f[|f| - 5] == a[|a| - 1] && f[|f| - 5] == a'[|a'| - 1];
    }
    assert head == f[..|head|] && head' == f[..|head|];
    LastUnderscore(p, v, p', v');
    assert a == f[|head| + 1..|f| - 4] && a' == f[|head| + 1..|f| - 4];
  }

  lemma LastUnderscore(p: string, v: string, p': string, v': string)
    requires '_' !in v && '_' !in v' && p + "_" + v == p' + "_" + v'
    ensures p == p' && v == v'
  {
    var h := p + "_" + v;
    assert h[|p|] == '_' && h[|p'|] == '_';
    assert forall i | |p| < i < |h| :: h[i] == v[i - |p| - 1];
    assert forall i | |p'| < i < |h| :: h[i] == v'[i - |p'| - 1];
    assert p == h[..|p|] && v == h[|p| + 1..];
  }

  /** With an underscore in the version it is not injective. */
  lemma FileNamesCollide()
    ensures FileName("a", "1_2", "all") == FileName("a_1", "2", "all")
  {
    assert FileName("a", "1_2", "all") == "a_1_2_all.ipk";
    assert FileName("a_1", "2", "all") == "a_1_2_all.ipk";
  }
}
