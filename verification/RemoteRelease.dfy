/** A release on the hosting service as the two publishers see it: assets are files uploaded under a
    name, never replaced; a draft is invisible until it is made public. */
module RemoteRelease {
  import opened Wrappers

  type Files = map<string, string>

  /** The answer to a request that changes the release: a reply may be lost after the change was made. */
  datatype Reply = Done | Lost | Refused

  class Release {
    var created: bool
    var target: string      // the revision it was created for
    var draft: bool
    var assets: Files

    constructor ()
      ensures !created && draft && assets == map[]
    {
      created, target, draft, assets := false, "", true, map[];
    }
  }

  /** Assets already there stay as they are. */
  function Store(assets: Files, dir: Files, names: set<string>): Files {
    map n | n in assets.Keys + (names * dir.Keys) :: if n in assets then assets[n] else dir[n]
  }

  /** Every asset is a file of the directory, with its bytes. */
  ghost predicate Within(assets: Files, dir: Files) {
    forall n <- assets :: n in dir && assets[n] == dir[n]
  }

  /** Nothing is replaced or removed, and what is new comes from the directory. */
  ghost predicate Grown(before: Files, after: Files, dir: Files) {
    && (forall n <- before :: n in after && after[n] == before[n])
    && (forall n <- after | n !in before :: n in dir && after[n] == dir[n])
  }

  lemma StoreGrows(assets: Files, dir: Files, names: set<string>)
    ensures Grown(assets, Store(assets, dir, names), dir)
    ensures Within(assets, dir) ==> Within(Store(assets, dir, names), dir)
    ensures dir.Keys - Store(assets, dir, names).Keys == dir.Keys - assets.Keys - names
  {
  }

  lemma WithinComplete(assets: Files, dir: Files)
    requires Within(assets, dir)
    ensures assets == dir <==> dir.Keys - assets.Keys == {}
  {
    if dir.Keys - assets.Keys == {} {
      assert forall n :: n in dir ==> n !in dir.Keys - assets.Keys;
      assert assets.Keys == dir.Keys;
    }
  }

  /** A new draft for a revision. */
  method Create(r: Release, revision: string, reply: Reply) returns (ok: bool)
    requires !r.created
    modifies r
    ensures r.created <==> !reply.Refused?
    ensures if r.created then r.draft && r.assets == map[] && r.target == revision
            else r.draft == old(r.draft) && r.assets == old(r.assets)
    ensures ok <==> reply.Done?
  {
    if !reply.Refused? {
      r.created, r.target, r.draft, r.assets := true, revision, true, map[];
    }
    ok := reply.Done?;
  }
}
