/**
 * A two-module pack worked through the model: A is required, for both
 * sides, hashed "h1"; B is optional, off by default, client-only, hashed "h2".
 */
module Scenarios {
  import opened Manifest
  import opened Digests
  import opened Selection

  const A := Module("A", true, false, Both, "h1", [], [])
  const B := Module("B", false, false, Client, "h2", [], [])
  const Pack: seq<Entry> := [("A", A), ("B", B)]

  /** A two-entry pack selects the first entry's contribution, then the second's. */
  lemma SelectPair(side: Side, optional: map<string, bool>)
    ensures Select(Pack, side, optional)
      == Contribution(Pack[0], side, optional).Then(Contribution(Pack[1], side, optional))
  {
    assert Pack[..1] == [Pack[0]];
    assert Pack[..1][..0] == [];
    assert Select([], side, optional) == Plan([], []);
  }

  /**
   * A server run installs A only; the digest set still holds B's hash,
   * since it is taken over every module whatever the side.
   */
  lemma ServerRun()
    ensures Select(Pack, Server, map[]).mods == [Whole(A)]
    ensures DigestSet(Pack) == {"h1", "h2"}
  {
    SelectPair(Server, map[]);
    assert ValidSubs([], Server) == [];
    assert Pack[..1] == [Pack[0]];
    assert Pack[..1][..0] == [];
    assert ConfigHashes([], 0) == {} && SubHashes([], 0) == {};
    assert ModuleDigests(A) == {"h1"};
    assert ModuleDigests(B) == {"h2"};
    assert DigestSet(Pack[..1]) == DigestSet([]) + ModuleDigests(A);
    assert DigestSet(Pack) == DigestSet(Pack[..1]) + ModuleDigests(B);
  }

  /** A client run takes B only when the remembered choice says so; with no entry B's default (off) holds. */
  lemma ClientRun()
    ensures Select(Pack, Client, map[]).mods == [Whole(A)]
    ensures Select(Pack, Client, map["B" := true]).mods == [Whole(A), Whole(B)]
    ensures Select(Pack, Client, map["A" := false]).mods == [Whole(A)]
  {
    assert ValidSubs([], Client) == [];
    SelectPair(Client, map[]);
    SelectPair(Client, map["B" := true]);
    SelectPair(Client, map["A" := false]);
  }
}
