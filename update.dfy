/**
 * One update run: the guard on the requested side, the instance record that
 * the run updates, and the order of the run's steps — digest set,
 * fingerprint, optional-module map, selection.
 */
module Update {
  import opened Wrappers
  import opened Manifest
  import opened Digests
  import opened Selection

  /**
   * The record persisted in the install directory: the fingerprint of the
   * last planned content set and the remembered optional-module choices
   * (`None` stands for Java's null map).
   */
  class Instance {
    var hash: string
    var optionalMods: Option<map<string, bool>>

    /** The fresh record used when none can be read: no hash, no map. */
    constructor ()
      ensures hash == "" && optionalMods == None
    {
      hash := "";
      optionalMods := None;
    }

    method SetHash(h: string)
      modifies this
      ensures hash == h && optionalMods == old(optionalMods)
    {
      hash := h;
    }

    method SetOptionalMods(m: map<string, bool>)
      modifies this
      ensures optionalMods == Some(m) && hash == old(hash)
    {
      optionalMods := Some(m);
    }
  }

  /** Why a run stops before planning anything. */
  datatype Failure = InvalidSide

  /**
   * The planning part of an update run on a record already loaded. The
   * fingerprint is `groupHash` of the digest set of ALL modules; a missing
   * optional-module map becomes an empty one and is otherwise left as it is;
   * selection reads that map. Nothing else of the record changes.
   */
  method DoUpdate(pack: seq<Entry>, side: Side, inst: Instance, groupHash: set<string> -> string)
    returns (plan: Plan)
    modifies inst
    ensures inst.hash == groupHash(DigestSet(pack))
    ensures inst.optionalMods == Some(old(inst.optionalMods).GetOr(map[]))
    ensures plan == Select(pack, side, inst.optionalMods.value)
  {
    var digests := CollectDigests(pack);
    inst.SetHash(groupHash(digests));
    if inst.optionalMods.None? {
      inst.SetOptionalMods(map[]);
    }
    var modList, configs := SelectInstallSet(pack, side, inst.optionalMods.value);
    plan := Plan(modList, configs);
  }

  /**
   * A whole run from the requested side onwards. A run for both sides is
   * refused before anything is read or changed. Otherwise the record is the
   * one read from disk (`loaded`), or a fresh one when opening or closing the
   * file threw an `IOException`, and the run plans on it.
   */
  method Run(pack: seq<Entry>, side: Side, loaded: Option<Instance>, groupHash: set<string> -> string)
    returns (r: Result, inst: Instance?)
    modifies if loaded.Some? then {loaded.value} else {}
    ensures side == Both <==> r.Fail?
    ensures r.Fail? ==> r.failure == InvalidSide && inst == null
    ensures r.Fail? && loaded.Some? ==> unchanged(loaded.value)
    ensures r.Done? ==> inst != null && inst.hash == groupHash(DigestSet(pack))
    ensures r.Done? && loaded.Some? ==> inst == loaded.value && inst.optionalMods == Some(old(loaded.value.optionalMods).GetOr(map[]))
    ensures r.Done? && loaded.None? ==> fresh(inst) && inst.optionalMods == Some(map[])
    ensures r.Done? ==> r.plan == Select(pack, side, inst.optionalMods.value)
  {
    if side == Both {
      return Fail(InvalidSide), null;
    }
    match loaded {
      case Some(i) => inst := i;
      case None => inst := new Instance();
    }
    var plan := DoUpdate(pack, side, inst, groupHash);
    r := Done(plan);
  }

  /** The outcome of a run: the plan handed to the installer, or why there is none. */
  datatype Result = Done(plan: Plan) | Fail(failure: Failure)
}
