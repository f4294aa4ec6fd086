# MCU-CLI update planning and queue bookkeeping, in Dafny

This project models the command-line front end of MCUpdater (`MCUCLI`). It
covers the three parts of that front end that hold real logic:

- **Digest collection.** An update run walks every module of the server pack.
  It gathers the non-empty MD5 of each module, of each of its config files and
  of each of its sub-modules into a set. The group hash of that set becomes the
  instance record's fingerprint.
- **Install-set selection.** For each entry of the pack's module map, in
  iteration order, a module valid for the side is installed when one of these
  holds, in this order:
  - the run is a server run;
  - the module is required;
  - a remembered optional-module choice exists for its key, and that choice decides;
  - otherwise the module's default decides.

  An installed module is followed in the install list by its side-valid
  sub-modules. All of its config files go to the config list, with no side
  filter. A missing (null) optional-module map is first replaced by an empty one.
- **Queue bookkeeping.** The front end keeps a deque of active download
  queues. Submitting a queue appends it. A finish report removes the first
  occurrence of that queue, and "all complete" is reported exactly when the
  deque is then empty.
- **Side guard.** A run whose side is "both" is refused before any planning
  (lines 70-73).

Files:
- `manifest.dfy` (modules `Wrappers` and `Manifest`): the data model.
- `digests.dfy` (`Digests`): the digest set and its loop.
- `selection.dfy` (`Selection`): selection and its loops.
- `update.dfy` (`Update`): the instance record as a class, the update run and the side guard.
- `queues.dfy` (`Queues`): the download queue and the front end's deque.
- `scenarios.dfy` (`Scenarios`): a worked two-module pack.

Each loop is a method proved equal to a specification function. The
properties are proved as lemmas about those functions: `DigestSet`, `Select`
and `RemoveFirst`.

Three foreign pieces become parameters of the model:
- `MCUpdater.calculateGroupHash` becomes the function parameter `groupHash`.
- The fetched and parsed pack is the `pack` argument, a sequence of
  (key, module) entries in the map's iteration order.
- The outcome of reading `instance.json` is `loaded`: the parsed record, or
  `None` when opening or closing `instance.json` throws an `IOException`
  (lines 84-89), in which case a fresh record is made.

The model classes of `org.mcupdater.model` are not part of this model, and
neither is `org.mcupdater.instance.Instance`. For them the model assumes:
- `isSideValid` holds when the item is for both sides, the run is for both
  sides, or the two sides match.
- A fresh instance record has an empty hash and no optional-module map.
- `hasSubmodules()` and `hasConfigs()` (lines 118 and 125) mean "the list is
  non-empty". Appending an empty list changes nothing, so the model appends
  the sub-modules and configs without those guards.
- `getMD5()`, `getConfigs()` and `getSubmodules()` never return null, as the
  unguarded digest loop (lines 95-107) relies on. A module's hash, config list
  and sub-module list are plain values here.

The digest set is built from every module before selection, whatever its
side (lines 91-108). So a server run that installs only A still puts B's hash
"h2" into the set, as `Scenarios.ServerRun` shows.

## Model

| member | source | states |
|---|---|---|
| `Digests.ModuleDigestsMembership` | src/main/java/org/mcupdater/MCUCLI.java:95-107 | a hash is among a module's digests exactly when it is non-empty and is the module's own MD5, a config file's or a sub-module's |
| `Digests.DigestSetMembership` | src/main/java/org/mcupdater/MCUCLI.java:91-108 | the digest set holds exactly the non-empty hashes carried by some module of the pack, at any position, so never the empty string |
| `Digests.EveryModuleContributes` | src/main/java/org/mcupdater/MCUCLI.java:92-94 | every module's hashes enter the set, whatever its side or selection, and the empty string never does |
| `Digests.SameEntriesSameDigests` | src/main/java/org/mcupdater/MCUCLI.java:91-109 | two packs with the same entries give the same digest set: order and repetition do not matter |
| `Digests.PermutationSameDigests` | src/main/java/org/mcupdater/MCUCLI.java:91-109 | permuting the pack's modules leaves the digest set, and so the fingerprint input, unchanged |
| `Digests.HashlessModuleIgnored` | src/main/java/org/mcupdater/MCUCLI.java:95-107 | inserting a module that carries no non-empty hash anywhere leaves the digest set unchanged |
| `Digests.CollectDigests` | src/main/java/org/mcupdater/MCUCLI.java:91-108 | the digest loop (module hash, then configs, then sub-modules, for every module) computes exactly `DigestSet(pack)` |
| `Selection.Wanted` | src/main/java/org/mcupdater/MCUCLI.java:116 | inclusion precedence: a server run takes the module; otherwise required takes it; otherwise a remembered choice decides; otherwise the default decides |
| `Selection.ValidSubsMembership` | src/main/java/org/mcupdater/MCUCLI.java:119-123 | the sub-modules kept are exactly those valid for the side, never more than declared |
| `Selection.SelectAppend` | src/main/java/org/mcupdater/MCUCLI.java:114-130 | selecting a concatenation of packs is selecting each part in turn and concatenating both lists |
| `Selection.SelectAround` | src/main/java/org/mcupdater/MCUCLI.java:114-128 | around any entry, the selection is what comes before, then that entry's module, its side-valid sub-modules and all its configs (if selected), then what comes after: pack order is kept |
| `Selection.SideInvalidContributesNothing` | src/main/java/org/mcupdater/MCUCLI.java:115-128 | an entry not valid for the side adds no module, no sub-module and no config |
| `Selection.SelectMembership` | src/main/java/org/mcupdater/MCUCLI.java:114-128 | a module is in the install list iff some selected entry holds it; a sub-module iff some selected entry lists it and it is itself side-valid |
| `Selection.SelectedAreSideValid` | src/main/java/org/mcupdater/MCUCLI.java:115-123 | every module and sub-module in the install list is valid for the side |
| `Selection.ServerTakesAllValid` | src/main/java/org/mcupdater/MCUCLI.java:116 | on a server run every server-valid module is installed, whatever its flags or remembered choice |
| `Selection.SelectInstallSet` | src/main/java/org/mcupdater/MCUCLI.java:114-130 | the selection loop computes exactly `Select(pack, side, optional)`, both lists |
| `Selection.AppendValidSubs` | src/main/java/org/mcupdater/MCUCLI.java:118-124 | the sub-module loop appends exactly the side-valid sub-modules, in declared order |
| `Update.Instance.constructor` | src/main/java/org/mcupdater/MCUCLI.java:88-89 | the fresh record made when opening or closing `instance.json` throws an `IOException` has no hash and no optional-module map |
| `Update.Instance.SetHash` | src/main/java/org/mcupdater/MCUCLI.java:109 | sets the fingerprint and leaves the optional-module map as it was |
| `Update.Instance.SetOptionalMods` | src/main/java/org/mcupdater/MCUCLI.java:110-112 | sets the optional-module map and leaves the fingerprint as it was |
| `Update.DoUpdate` | src/main/java/org/mcupdater/MCUCLI.java:91-130 | fingerprint = group hash of the digest set of all modules; a null map becomes empty and is otherwise unchanged; the plan is the selection under that map |
| `Update.Run` | src/main/java/org/mcupdater/MCUCLI.java:70-90 | a "both" run fails with nothing changed; otherwise the loaded record, or a fresh one, gets the fingerprint and the plan is the selection |
| `Queues.RemoveFirstSplits` | src/main/java/org/mcupdater/MCUCLI.java:184 | removal takes out exactly the first occurrence and keeps the rest in order; an absent queue leaves the deque as it is |
| `Queues.RemoveFirstMultiset` | src/main/java/org/mcupdater/MCUCLI.java:184 | removal takes one copy of the queue out of the deque's contents and nothing else |
| `Queues.FinishAllMultiset` | src/main/java/org/mcupdater/MCUCLI.java:182-188 | after a series of finish reports the deque holds what it held minus the reported queues |
| `Queues.AllFinishedEmpty` | src/main/java/org/mcupdater/MCUCLI.java:182-188 | once every queue in the deque has reported finished, in any order and with repeats, the deque is empty |
| `Queues.DownloadQueue.constructor` | src/main/java/org/mcupdater/MCUCLI.java:165 | a new queue keeps its name, parent, files, paths and listener |
| `Queues.Cli.constructor` | src/main/java/org/mcupdater/MCUCLI.java:39 | the front end starts with an empty deque |
| `Queues.Cli.SubmitNewQueue` | src/main/java/org/mcupdater/MCUCLI.java:163-168 | the returned queue is new, reports to this front end, and is appended last; the other queues are unchanged |
| `Queues.Cli.OnQueueFinished` | src/main/java/org/mcupdater/MCUCLI.java:182-188 | the deque loses the first occurrence of the queue (nothing if absent), and "all complete" is reported iff the deque is then empty |
| `Scenarios.ServerRun` | src/main/java/org/mcupdater/MCUCLI.java:91-130 | server run on {A required/both/"h1", B optional/client/"h2"}: installs [A]; the digest set is {"h1", "h2"} |
| `Scenarios.ClientRun` | src/main/java/org/mcupdater/MCUCLI.java:114-130 | client run: [A] with no choice for B; [A, B] with B chosen on; A stays, being required, even when its choice is off |

## Left out

- Command-line parsing, the help text and the debug flag (lines 42-69): argument plumbing. Only the rule that side "both" stops the run (lines 70-73) is modelled.
- Fetching and parsing the pack (line 79): network I/O. The pack is an input.
- Reading `instance.json` (lines 83-90): file I/O and JSON. The model takes its outcome as input. A parse that yields a null record is not modelled.
- A malformed or truncated `instance.json` (line 86): Gson reports it with an unchecked exception that the `IOException` handler does not catch, so the run ends there. The model has no such outcome; `loaded` is always a record or `None`.
- A `close()` that throws after a successful parse (line 87): the parsed record is then dropped for a fresh one. The model does not single this case out; it is the `None` input.
- `MCUpdater.calculateGroupHash` (line 109): code outside this model. It is the parameter `groupHash`.
- `installMods` (lines 131-135): code outside this model. The model stops at the plan handed to it.
- `onQueueProgress` (lines 191-196): it only prints floating-point progress.
- Logging, `setStatus`, `log`, `alert`, `printMessage`, and the stubs `requestLogin` and `submitAssetsQueue`: they have no effect on the modelled state.
- The transfers, retries, hash checks and progress of `DownloadQueue`: that class is not part of this model. A queue is its constructor arguments, and files are opaque strings.
- Concurrent access to the deque: the model is single-threaded.
- Null `Boolean` values inside the optional-module map: map values are plain booleans here.
- Nested sub-modules: a module carries one flat level of sub-modules, as the source only reads one level.
