/** The Some/None wrapper used where the Java code works with a nullable reference. */
module Wrappers {
  datatype Option<+T> = None | Some(value: T) {
    /** The wrapped value, or `default` when there is none. */
    function GetOr(default: T): T {
      match this
      case Some(v) => v
      case None => default
    }
  }
}

/**
 * The in-memory manifest that the update engine consumes: modules with their
 * sub-modules and config files, each with a side and an MD5 content hash
 * (the empty string meaning "unknown").
 */
module Manifest {

  /** The installation side a module declares, or that a run targets. */
  datatype Side = Client | Server | Both

  /**
   * Whether an item declaring side `declared` is installed on side `requested`.
   * The model classes that define this are not part of this model; the rule
   * used here is: an item for both sides, a run for both sides, or an exact
   * match.
   */
  predicate IsSideValid(declared: Side, requested: Side)
  {
    declared == Both || requested == Both || declared == requested
  }

  /** A config file: where it goes and its MD5 (possibly empty). */
  datatype ConfigFile = ConfigFile(path: string, md5: string)

  /** A sub-module: it has its own side and hash, and no children. Its `id` is carried but read by nothing here. */
  datatype SubModule = SubModule(id: string, side: Side, md5: string)

  /**
   * A top-level module: flags, side, hash, one level of sub-modules and its
   * configs. Its `id` is carried but read by nothing here: the optional-module
   * lookup uses the key of the pack entry, not `id`.
   */
  datatype Module = Module(
    id: string,
    required: bool,
    isDefault: bool,
    side: Side,
    md5: string,
    submodules: seq<SubModule>,
    configs: seq<ConfigFile>)

  /** One entry of the pack's module map, in the map's iteration order: its key and module. */
  type Entry = (string, Module)

  /** An element of the install list: a top-level module or one of its sub-modules. */
  datatype Installable = Whole(mod: Module) | Part(sub: SubModule)
}
