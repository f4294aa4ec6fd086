/**
 * Install-set selection: which modules, sub-modules and config files an
 * update run hands to the installer, given the target side and the
 * optional-module choices remembered from earlier runs.
 */
module Selection {
  import opened Wrappers
  import opened Manifest

  /** The result of selection: the install list and the config files, both in pack order. */
  datatype Plan = Plan(mods: seq<Installable>, configs: seq<ConfigFile>) {
    function Then(other: Plan): Plan {
      Plan(mods + other.mods, configs + other.configs)
    }
  }

  /** The remembered choice for `key`, if there is one. */
  function Lookup(optional: map<string, bool>, key: string): (r: Option<bool>)
    ensures r.Some? <==> key in optional
    ensures r.Some? ==> r.value == optional[key]
  {
    if key in optional then Some(optional[key]) else None
  }

  /** Three-way resolution of an optional module: an explicit choice wins over the default. */
  function Resolve(explicit: Option<bool>, default: bool): bool
  {
    match explicit
    case Some(b) => b
    case None => default
  }

  /**
   * Whether a side-valid module is installed. The precedence is fixed: a
   * server run takes everything; otherwise a required module is taken;
   * otherwise a remembered choice decides; otherwise the module's default.
   */
  function Wanted(key: string, m: Module, side: Side, optional: map<string, bool>): (r: bool)
    ensures side == Server ==> r
    ensures side != Server && m.required ==> r
    ensures side != Server && !m.required && key in optional ==> r == optional[key]
    ensures side != Server && !m.required && key !in optional ==> r == m.isDefault
  {
    side == Server || m.required || Resolve(Lookup(optional, key), m.isDefault)
  }

  /** The side-valid sub-modules, in declared order. */
  function ValidSubs(subs: seq<SubModule>, side: Side): seq<Installable>
  {
    if subs == [] then []
    else (if IsSideValid(subs[0].side, side) then [Part(subs[0])] else []) + ValidSubs(subs[1..], side)
  }

  /** The sub-modules kept are exactly the side-valid ones, and never more than were declared. */
  lemma {:induction false} ValidSubsMembership(subs: seq<SubModule>, side: Side, x: Installable)
    ensures x in ValidSubs(subs, side) <==> x.Part? && x.sub in subs && IsSideValid(x.sub.side, side)
    ensures |ValidSubs(subs, side)| <= |subs|
  {
    if subs != [] {
      ValidSubsMembership(subs[1..], side, x);
      assert subs == [subs[0]] + subs[1..];
    }
  }

  /** Whether the entry is selected: it is valid for the side and wanted. */
  predicate Included(e: Entry, side: Side, optional: map<string, bool>)
  {
    IsSideValid(e.1.side, side) && Wanted(e.0, e.1, side, optional)
  }

  /**
   * What one entry adds: if it is selected, the module, then its side-valid
   * sub-modules, and all of its config files unfiltered; otherwise nothing.
   */
  function Contribution(e: Entry, side: Side, optional: map<string, bool>): Plan
  {
    if Included(e, side, optional) then Plan([Whole(e.1)] + ValidSubs(e.1.submodules, side), e.1.configs)
    else Plan([], [])
  }

  /** The selection over the whole pack: the contributions of its entries, in pack order. */
  function Select(pack: seq<Entry>, side: Side, optional: map<string, bool>): Plan
  {
    if pack == [] then Plan([], [])
    else Select(pack[..|pack| - 1], side, optional).Then(Contribution(pack[|pack| - 1], side, optional))
  }

  /** Selecting a concatenation is selecting each part, one after the other. */
  lemma {:induction false} SelectAppend(p: seq<Entry>, q: seq<Entry>, side: Side, optional: map<string, bool>)
    ensures Select(p + q, side, optional) == Select(p, side, optional).Then(Select(q, side, optional))
  {
    if q == [] {
      assert p + q == p;
    } else {
      var n := |q| - 1;
      SelectAppend(p, q[..n], side, optional);
      assert (p + q)[..|p + q| - 1] == p + q[..n];
      assert (p + q)[|p + q| - 1] == q[n];
    }
  }

  /**
   * The selection around entry `i`: what precedes it, then exactly its
   * contribution, then what follows it. So the install list keeps pack order,
   * each selected module is followed by its side-valid sub-modules, and the
   * config list is every selected module's configs in that same order.
   */
  lemma SelectAround(pack: seq<Entry>, i: nat, side: Side, optional: map<string, bool>)
    requires i < |pack|
    ensures Select(pack, side, optional)
      == Select(pack[..i], side, optional).Then(Contribution(pack[i], side, optional)).Then(Select(pack[i + 1..], side, optional))
  {
    assert pack == pack[..i] + [pack[i]] + pack[i + 1..];
    SelectAppend(pack[..i] + [pack[i]], pack[i + 1..], side, optional);
    SelectAppend(pack[..i], [pack[i]], side, optional);
    assert Select([pack[i]], side, optional) == Contribution(pack[i], side, optional) by {
      assert [pack[i]][..0] == [];
    }
  }

  /** An entry that is not valid for the side contributes nothing: no module, no sub-module, no config. */
  lemma SideInvalidContributesNothing(p: seq<Entry>, e: Entry, q: seq<Entry>, side: Side, optional: map<string, bool>)
    requires !IsSideValid(e.1.side, side)
    ensures Select(p + [e] + q, side, optional) == Select(p + q, side, optional)
  {
    SelectAppend(p + [e], q, side, optional);
    SelectAppend(p, [e], side, optional);
    SelectAppend(p, q, side, optional);
    assert [e][..0] == [];
  }

  /**
   * Membership in the install list: a module is there exactly when some
   * selected entry holds it; a sub-module is there exactly when some selected
   * entry lists it and it is itself valid for the side.
   */
  lemma {:induction false} SelectMembership(pack: seq<Entry>, side: Side, optional: map<string, bool>, x: Installable)
    ensures x in Select(pack, side, optional).mods <==>
      exists i :: 0 <= i < |pack| && Included(pack[i], side, optional) &&
        match x
        case Whole(m) => pack[i].1 == m
        case Part(s) => s in pack[i].1.submodules && IsSideValid(s.side, side)
  {
    if pack != [] {
      var n := |pack| - 1;
      SelectMembership(pack[..n], side, optional, x);
      var sel := Select(pack, side, optional);
      assert sel.mods == Select(pack[..n], side, optional).mods + Contribution(pack[n], side, optional).mods;
      ValidSubsMembership(pack[n].1.submodules, side, x);
      forall i | 0 <= i < n ensures pack[..n][i] == pack[i] { }
    }
  }

  /** Everything in the install list, module or sub-module, is valid for the side. */
  lemma SelectedAreSideValid(pack: seq<Entry>, side: Side, optional: map<string, bool>, x: Installable)
    requires x in Select(pack, side, optional).mods
    ensures x.Whole? ==> IsSideValid(x.mod.side, side)
    ensures x.Part? ==> IsSideValid(x.sub.side, side)
  {
    SelectMembership(pack, side, optional, x);
  }

  /** A server run installs every module valid for the server, whatever its flags or remembered choice. */
  lemma ServerTakesAllValid(pack: seq<Entry>, optional: map<string, bool>, i: nat)
    requires i < |pack| && IsSideValid(pack[i].1.side, Server)
    ensures Whole(pack[i].1) in Select(pack, Server, optional).mods
  {
    SelectMembership(pack, Server, optional, Whole(pack[i].1));
  }

  /**
   * The selection loop of the update run: for each entry in pack order, a
   * side-valid and wanted module is appended, then its side-valid
   * sub-modules, and all of its config files are appended to the configs.
   */
  method SelectInstallSet(pack: seq<Entry>, side: Side, optional: map<string, bool>)
    returns (modList: seq<Installable>, configs: seq<ConfigFile>)
    ensures Plan(modList, configs) == Select(pack, side, optional)
  {
    modList, configs := [], [];
    for i := 0 to |pack|
      invariant Plan(modList, configs) == Select(pack[..i], side, optional)
    {
      var key, m := pack[i].0, pack[i].1;
      ghost var before := Plan(modList, configs);
      if IsSideValid(m.side, side) {
        var take := side == Server || m.required || (if key in optional then optional[key] else m.isDefault);
        if take {
          modList := modList + [Whole(m)];
          modList := AppendValidSubs(modList, m.submodules, side);
          configs := configs + m.configs;
        }
      }
      assert Plan(modList, configs) == before.Then(Contribution(pack[i], side, optional));
      assert pack[..i + 1][..i] == pack[..i];
    }
    assert pack[..|pack|] == pack;
  }

  /** The sub-module loop: appends the side-valid sub-modules of one module, in declared order. */
  method AppendValidSubs(modList: seq<Installable>, subs: seq<SubModule>, side: Side)
    returns (r: seq<Installable>)
    ensures r == modList + ValidSubs(subs, side)
  {
    r := modList;
    for j := 0 to |subs|
      invariant r == modList + ValidSubs(subs[..j], side)
    {
      if IsSideValid(subs[j].side, side) {
        r := r + [Part(subs[j])];
      }
      ValidSubsSnoc(subs, j, side);
    }
    assert subs[..|subs|] == subs;
  }

  /** Extending the sub-module prefix by one adds that sub-module if it is side-valid. */
  lemma {:induction false} ValidSubsSnoc(subs: seq<SubModule>, j: nat, side: Side)
    requires j < |subs|
    ensures ValidSubs(subs[..j + 1], side)
      == ValidSubs(subs[..j], side) + (if IsSideValid(subs[j].side, side) then [Part(subs[j])] else [])
  {
    var last: seq<Installable> := if IsSideValid(subs[j].side, side) then [Part(subs[j])] else [];
    var first: seq<Installable> := if IsSideValid(subs[0].side, side) then [Part(subs[0])] else [];
    var longer := subs[..j + 1];
    assert longer[0] == subs[0];
    assert ValidSubs(longer, side) == first + ValidSubs(longer[1..], side);
    if j > 0 {
      var shorter := subs[..j];
      assert shorter[0] == subs[0];
      assert ValidSubs(shorter, side) == first + ValidSubs(shorter[1..], side);
      ValidSubsSnoc(subs[1..], j - 1, side);
      assert longer[1..] == subs[1..][..j];
      assert shorter[1..] == subs[1..][..j - 1];
      assert subs[1..][j - 1] == subs[j];
      assert ValidSubs(longer[1..], side) == ValidSubs(shorter[1..], side) + last;
    } else {
      assert longer[1..] == [];
      assert subs[..j] == [];
    }
  }
}
