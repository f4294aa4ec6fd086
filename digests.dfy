/**
 * The content-digest set behind the instance fingerprint: every non-empty
 * MD5 of every module of the pack, of its config files and of its
 * sub-modules, collected into a set whatever the module's side or selection.
 */
module Digests {
  import opened Manifest

  /** The hash as a set: empty when the hash is the empty string. */
  function NonEmpty(h: string): (r: set<string>)
    ensures h in r <==> h != ""
    ensures r <= {h}
  {
    if h == "" then {} else {h}
  }

  /** The non-empty hashes of the first `j` config files. */
  function ConfigHashes(cs: seq<ConfigFile>, j: nat): set<string>
    requires j <= |cs|
  {
    set k | 0 <= k < j && cs[k].md5 != "" :: cs[k].md5
  }

  /** The non-empty hashes of the first `j` sub-modules. */
  function SubHashes(ss: seq<SubModule>, j: nat): set<string>
    requires j <= |ss|
  {
    set k | 0 <= k < j && ss[k].md5 != "" :: ss[k].md5
  }

  /** What one module contributes: its own, its configs' and its sub-modules' non-empty hashes. */
  function ModuleDigests(m: Module): set<string>
  {
    NonEmpty(m.md5) + ConfigHashes(m.configs, |m.configs|) + SubHashes(m.submodules, |m.submodules|)
  }

  /** The digest set of a pack: the union of what each of its modules contributes. */
  function DigestSet(pack: seq<Entry>): set<string>
  {
    if pack == [] then {} else DigestSet(pack[..|pack| - 1]) + ModuleDigests(pack[|pack| - 1].1)
  }

  /** Independent reading of "module `m` carries hash `d`": as its own, a config's or a sub-module's. */
  predicate Carries(m: Module, d: string)
  {
    m.md5 == d
    || (exists k :: 0 <= k < |m.configs| && m.configs[k].md5 == d)
    || (exists k :: 0 <= k < |m.submodules| && m.submodules[k].md5 == d)
  }

  lemma ModuleDigestsMembership(m: Module, d: string)
    ensures d in ModuleDigests(m) <==> d != "" && Carries(m, d)
  {
    if d != "" && Carries(m, d) {
      if m.md5 != d {
        if k :| 0 <= k < |m.configs| && m.configs[k].md5 == d {
          assert d in ConfigHashes(m.configs, |m.configs|);
        } else {
          var k :| 0 <= k < |m.submodules| && m.submodules[k].md5 == d;
          assert d in SubHashes(m.submodules, |m.submodules|);
        }
      }
    }
  }

  /**
   * The digest set holds exactly the non-empty hashes carried by some module
   * of the pack, at any position: in particular never the empty string.
   */
  lemma {:induction false} DigestSetMembership(pack: seq<Entry>, d: string)
    ensures d in DigestSet(pack) <==> d != "" && exists i :: 0 <= i < |pack| && Carries(pack[i].1, d)
  {
    if pack != [] {
      var n := |pack| - 1;
      DigestSetMembership(pack[..n], d);
      ModuleDigestsMembership(pack[n].1, d);
      if exists i :: 0 <= i < |pack| && Carries(pack[i].1, d) {
        var i :| 0 <= i < |pack| && Carries(pack[i].1, d);
        if i < n {
          assert pack[..n][i] == pack[i];
        }
      }
      if exists i :: 0 <= i < n && Carries(pack[..n][i].1, d) {
        var i :| 0 <= i < n && Carries(pack[..n][i].1, d);
        assert pack[..n][i] == pack[i];
      }
    }
  }

  /** Every module's hashes are in the digest set, whether or not it is later selected. */
  lemma EveryModuleContributes(pack: seq<Entry>, i: nat)
    requires i < |pack|
    ensures ModuleDigests(pack[i].1) <= DigestSet(pack)
    ensures "" !in DigestSet(pack)
  {
    forall d | d in ModuleDigests(pack[i].1)
      ensures d in DigestSet(pack)
    {
      ModuleDigestsMembership(pack[i].1, d);
      DigestSetMembership(pack, d);
    }
    DigestSetMembership(pack, "");
  }

  /**
   * The digest set depends only on which entries the pack holds: not on
   * their order and not on how often each appears.
   */
  lemma SameEntriesSameDigests(p: seq<Entry>, q: seq<Entry>)
    requires forall e :: e in p <==> e in q
    ensures DigestSet(p) == DigestSet(q)
  {
    forall d ensures d in DigestSet(p) <==> d in DigestSet(q) {
      DigestSetMembership(p, d);
      DigestSetMembership(q, d);
      if i :| 0 <= i < |p| && Carries(p[i].1, d) {
        assert p[i] in q;
      }
      if i :| 0 <= i < |q| && Carries(q[i].1, d) {
        assert q[i] in p;
      }
    }
  }

  /** Permuting the modules of the pack leaves the digest set, and so the fingerprint, unchanged. */
  lemma PermutationSameDigests(p: seq<Entry>, q: seq<Entry>)
    requires multiset(p) == multiset(q)
    ensures DigestSet(p) == DigestSet(q)
  {
    forall e ensures e in p <==> e in q {
      assert e in p <==> e in multiset(p);
      assert e in q <==> e in multiset(q);
    }
    SameEntriesSameDigests(p, q);
  }

  /** A module that carries no non-empty hash anywhere leaves the digest set as it was. */
  lemma HashlessModuleIgnored(p: seq<Entry>, q: seq<Entry>, e: Entry)
    requires ModuleDigests(e.1) == {}
    ensures DigestSet(p + [e] + q) == DigestSet(p + q)
  {
    var long, short := p + [e] + q, p + q;
    forall d ensures d in DigestSet(long) <==> d in DigestSet(short) {
      DigestSetMembership(long, d);
      DigestSetMembership(short, d);
      ModuleDigestsMembership(e.1, d);
      if i :| 0 <= i < |long| && Carries(long[i].1, d) {
        if i < |p| {
          assert short[i] == long[i];
        } else if i > |p| {
          assert short[i - 1] == long[i];
        }
      }
      if i :| 0 <= i < |short| && Carries(short[i].1, d) {
        if i < |p| {
          assert long[i] == short[i];
        } else {
          assert long[i + 1] == short[i];
        }
      }
    }
  }

  /**
   * The digest-set loop of the update run: it walks every module of the pack,
   * adding the module's non-empty hash, then its config files', then its
   * sub-modules'.
   */
  method CollectDigests(pack: seq<Entry>) returns (digests: set<string>)
    ensures digests == DigestSet(pack)
  {
    digests := {};
    for i := 0 to |pack|
      invariant digests == DigestSet(pack[..i])
    {
      var m := pack[i].1;
      assert pack[..i + 1][..i] == pack[..i];
      ghost var before := digests;
      if m.md5 != "" {
        digests := digests + {m.md5};
      }
      for j := 0 to |m.configs|
        invariant digests == before + NonEmpty(m.md5) + ConfigHashes(m.configs, j)
      {
        if m.configs[j].md5 != "" {
          digests := digests + {m.configs[j].md5};
        }
        assert ConfigHashes(m.configs, j + 1) == ConfigHashes(m.configs, j) + NonEmpty(m.configs[j].md5);
      }
      for j := 0 to |m.submodules|
        invariant digests == before + NonEmpty(m.md5) + ConfigHashes(m.configs, |m.configs|) + SubHashes(m.submodules, j)
      {
        if m.submodules[j].md5 != "" {
          digests := digests + {m.submodules[j].md5};
        }
        assert SubHashes(m.submodules, j + 1) == SubHashes(m.submodules, j) + NonEmpty(m.submodules[j].md5);
      }
    }
    assert pack[..|pack|] == pack;
  }
}
