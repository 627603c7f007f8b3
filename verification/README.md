# Verified models of four dentOS components

This project models four components of the repository in Dafny and proves what they are for. Nothing here runs the
original code. `dafny verify dfyconfig.toml` checks everything.

**The optoe transceiver driver** (`Eeprom.dfy`, `OptoeBus.dfy`, `OptoeEffects.dfy`, `OptoeRequests.dfy`,
`OptoeDriver.dfy`, `OptoeRuns.dfy`). A transceiver has a flat bank (two-address modules only), 128 fixed bytes of which
byte 127 selects a page, and 256 pages of 128 bytes behind a window. The driver shows them as one linear array.
`Memory.At` is that linear array, `Memory.Peek` and `Memory.Poke` are what the bus does. Every transaction of `Bus` may
be acknowledged, come back short or fail over any number of retries; a failed read may leave anything in the buffer, a
failed write may leave any prefix on the module unless the constant `atomic` rules that out. `Bus` counts what goes
wrong on it, the driver what it gives up for that; `Grew`, which every operation ensures, says that nothing is given up
without a fault of its own.

The driver does not select page 0 for accesses to the window, and it does not look at the register when a request
starts. So the contract of `ReadWrite` is stated relative to the register as the request finds it: a read returns the
linear bytes that are reached with it (`ReadThrough`), a write lands where it lets it, including what the write itself
sends to the register (`Landed`). `Settled` says what the register holds afterwards if the restores succeed, `Left` what
it may hold at all. `ServeAll` says the same of every request of a run, whatever failed before it, as steps between linear
images. That this is a flat byte array has exact conditions:

- The addresses reached are the ones asked for if and only if page 0 is selected or the request avoids the window
  (`ThroughIsFlat`, and `ShowsLinearIff` for the bytes found; `WrongPage` is the module that shows others).
- A write keeps the module in step with a flat array if and only if it sends nothing but zero to the register
  (`WriteInStep`, `MisdirectedWrite`).
- Over plain I2C a read is two messages. If only the first is executed, `i2c_transfer` returns 1, and when one byte was
  asked for the driver takes that for the byte count and returns a byte that never came (`HalfReadIsTaken`).
  `halfReads` counts these; read results are exact as long as it stays put. It does on every other adapter, and for
  requests that need no capability byte and, if they are reads, have no part of a single byte. A half-read capability
  byte decides how much of a request is legal, so `ReadWrite` names the length it went by.

Hence `RunIsFlat` and `FaultFreeRun`: from page 0, and until a restore of it is given up or a write disturbs the
register, every request is answered as by a flat array.

**The YAML override merge** (`YamlTree.dfy`, `YamlLaws.dfy`, `YamlMerge.dfy`). `YamlTree.Merge` is the recursive meaning.
`YamlLaws` says what is found at every path of the result by walking the two trees along that path only: which scalars
(`ScalarLaw`) and which dicts (`DictLaw`). No other tree obeys these laws (`MergeIsDetermined`). `YamlMerge.MergeTrees` is
the breadth-first worklist over mutable output dicts. It keeps a ghost map from each output dict to the tree it is to
become; it ends because the number of dicts still to come falls with every pop.

**The package manager** (`PackageRepo.dfy`, `RepoRuns.dfy`, `PackageGraph.dfy`, `BuildOrder.dfy`, `BuildResults.dfy`,
`BuildOnce.dfy`, `PackageManager.dfy`). The repository holds package files, looked up by substring of their file names
as the code does, and unpacked directories. `RepoRuns` says what a run of operations leaves, from the operations
alone: which files (`RunFiles`) and what is extracted (`StoredIsExtracted`). `PackageGraph` gives `require` and
`build` as functions; the recursion limit of the interpreter is an explicit number of frames, so cyclic prerequisites
need no precondition: they end in `TooDeep`. `PackageManager` holds the same as loops over objects, equal to the
functions. `BuildOrder` proves order, closure and termination for any groups, ids in several of them included;
`BuildResults` which files a call leaves, given its trace, and why it fails if it does. Order and closure assume exact
look-ups; `ImpostorStandsIn` gives the exact condition under which a missing package is built without that.
`BuildOnce` proves when one call builds no group twice: it is enough that no two groups clash, and for acyclic,
declared prerequisites, exact look-ups and builds that work it is also necessary (`NeverTwiceIfClashFree`). Two groups
clash if they share a package and the first requires what leads to another package of the second that no earlier group
provides.

**The faultd pipe and service table** (`FaultWire.dfy`, `FaultPipe.dfy`, `FaultServer.dfy`, `FaultRuns.dfy`). Messages
are framed as a fixed record and, if its symbols pointer is set, text up to a NUL. `Kernel` offers named pipes whose
reads and writes may be partial, interrupted or failed. The bytes of a pipe are those in flight and those clients will
still write, since a blocking read waits for them; a read or wait that would block for good counts as a hard error.
What `select` answers is free, except that it reports some of the descriptors it was given, all with bytes to read;
`answers` records it, and what the server serves is stated relative to that record. `FaultdServer.Valid`, which every
operation keeps, says that the open descriptors are exactly those recorded in the table and those of others, and that
each recorded one is open on the pipe its slot names.

Where code and comments disagree, the model follows the code:

- `tools/onlpm.py:766-771` says that storing a package clears its unpacked directory. It clears
  `extracts/<arch>/<name>`, whereas `extract` uses `extracts/<name>_<arch>` (line 825). `AddKeepsUnpacked` states it,
  `ReusedStampIsStale` its consequence, and `AddCoherent` exactly when it does no harm.
- `tools/onlpm.py:794-795` speaks of the package; `lookup_all` lists every file whose name contains the id's parts as
  substrings. `LookupIsExact` states exactly when that finds the package's own file.
- `optoe.c:554` says that a failed restore is an error only if nothing was transferred; a transfer that gets that far
  has either moved a byte or failed itself, so the restore's own error is never returned.
- `faultd.c:391` is meant to refuse bad service ids and reads `sid < 0 && sid >= AIM_ARRAYSIZE(...) && sid != -1`.
  AIM_ARRAYSIZE is not part of this model. If it yields an unsigned size, as a quotient of `sizeof`s does, `sid` is
  converted to that type and the guard refuses exactly the ids below -1; if it yields a signed one, the guard refuses
  none. Ids beyond the table are refused in neither case. `SidGuard` states this and the exact ids for which the code
  after the guard stays within the table; `WaitServices` and `Read` require such an id.

## Model

| member | source | states |
|---|---|---|
| Eeprom.LinearOfInjective | packages/platforms/accton/arm64/as4224/src/modules/optoe.c:267-297 | no two canonical (client, page, offset) triples share a linear address |
| Eeprom.LinearOfOnto | packages/platforms/accton/arm64/as4224/src/modules/optoe.c:267-297 | canonical triples cover exactly the linear range of each device class |
| Eeprom.PeekIsLinear | packages/platforms/accton/arm64/as4224/src/modules/optoe.c:20-46 | a one-byte read returns the linear byte its offset reaches with the current page |
| Eeprom.PokeIsLinear | packages/platforms/accton/arm64/as4224/src/modules/optoe.c:20-46 | a one-byte write changes that one linear byte and no other |
| Eeprom.SupportedOneAddr | packages/platforms/accton/arm64/as4224/src/modules/optoe.c:633-646 | a one-address module supports 256 bytes if bit 2 of byte 2 is set, else all 32896 |
| Eeprom.SupportedTwoAddr | packages/platforms/accton/arm64/as4224/src/modules/optoe.c:592-619 | a two-address module supports all 33152 bytes if bit 4 of byte 64 is set, else 512 if bit 6 of byte 92 is, else 256 |
| OptoeEffects.LegalIsSupported | packages/platforms/accton/arm64/as4224/src/modules/optoe.c:575-578 | exactly the bytes of a request within the supported size are legal |
| OptoeEffects.ChunkIsIntersection | packages/platforms/accton/arm64/as4224/src/modules/optoe.c:697-728 | each chunk is the request's intersection with one 128-byte block: consecutive, non-empty, crossing no boundary, and nothing is pending after the last |
| OptoeEffects.WriteLength | packages/platforms/accton/arm64/as4224/src/modules/optoe.c:406-429 | a write transaction is as long as what was asked for, the write limit, its page and the adapter allow, and no longer |
| OptoeEffects.HalfReadIsTaken | packages/platforms/accton/arm64/as4224/src/modules/optoe.c:373-383 | a plain I2C read whose data never came is taken for whole if and only if one byte was asked for and one of its two messages was executed |
| OptoeDriver.Optoe.TranslateOffset | packages/platforms/accton/arm64/as4224/src/modules/optoe.c:267-297 | translation yields the canonical triple of the linear offset, the 8-bit page number included |
| OptoeBus.Bus.ReadTransaction | packages/platforms/accton/arm64/as4224/src/modules/optoe.c:352-377 | one attempt is exact or a fault of the bus; a fault that looks whole is a one-byte read over plain I2C |
| OptoeBus.Bus.WriteTransaction | packages/platforms/accton/arm64/as4224/src/modules/optoe.c:439-480 | one attempt arrives whole if acknowledged, else up to any byte, at consecutive linear bytes even where it passes the register; a failure is a fault of the bus |
| OptoeDriver.Optoe.EepromRead | packages/platforms/accton/arm64/as4224/src/modules/optoe.c:299-393 | a positive result counts exact bytes, whatever failed attempts left behind, as many as the adapter can read at once, unless a one-byte read over plain I2C went half done; a negative one has a fault of the bus behind it, and says that no module is present exactly if a read was answered so; nothing else in the buffer changes |
| OptoeDriver.Optoe.EepromWrite | packages/platforms/accton/arm64/as4224/src/modules/optoe.c:395-496 | acknowledged bytes are on the module, later ones of the block at most sent, all others untouched; a negative result has a fault of the bus behind it |
| OptoeDriver.Optoe.Transfer | packages/platforms/accton/arm64/as4224/src/modules/optoe.c:524-543 | steps of any length add up to an exact prefix; the count is whole exactly when no step was given up |
| OptoeDriver.Optoe.RestorePage | packages/platforms/accton/arm64/as4224/src/modules/optoe.c:546-558 | page 0 is selected again, or the restore is given up after a failed transaction of its own |
| OptoeDriver.Optoe.UpdateClient | packages/platforms/accton/arm64/as4224/src/modules/optoe.c:499-560 | a block is transferred at the address its offset really reaches, and the page register ends up at 0, unchanged, or as the failure left it; nothing is given up without a fault of the bus |
| OptoeDriver.Optoe.PageLegal | packages/platforms/accton/arm64/as4224/src/modules/optoe.c:574-653 | the result is min(len, supported size - off), or 0 past the end, or an error with a fault behind it; after a half read of a capability byte, which only requests past byte 256 need, it still keeps to the request and to the linear space |
| OptoeDriver.Optoe.TransferChunks | packages/platforms/accton/arm64/as4224/src/modules/optoe.c:697-755 | the chunk loop transfers the whole range exactly when no chunk fails, else an exact prefix of it |
| OptoeDriver.Optoe.ReadWrite | packages/platforms/accton/arm64/as4224/src/modules/optoe.c:655-759 | the legal part is transferred whole exactly when no transfer was given up, which takes a fault of the bus; with whatever page selected, reads return exactly the bytes reached, even when restores fail on the way, writes land exactly where the register lets them, and the register ends up as stated; a write equals a flat one if and only if it sends the register nothing but zero; of the two errors, the one for an absent module is returned exactly if a read was answered so; the requests open to half reads are named |
| OptoeRequests.ThroughIsFlat | packages/platforms/accton/arm64/as4224/src/modules/optoe.c:283-297 | the addresses reached are the linear ones asked for if and only if page 0 is selected or the range avoids the window |
| OptoeRequests.ShowsLinearIff | packages/platforms/accton/arm64/as4224/src/modules/optoe.c:283-297 | the same for the bytes found, over all modules with that register; one that shows other bytes is given |
| OptoeRequests.ReadThroughExtends | packages/platforms/accton/arm64/as4224/src/modules/optoe.c:524-543 | one more chunk of a read shows the bytes that the register reaches, also after restores failed |
| OptoeRequests.WriteInStep | packages/platforms/accton/arm64/as4224/src/modules/optoe.c:513-559 | the exact condition under which a write keeps the module in step with a flat array |
| OptoeRequests.LandedExtends | packages/platforms/accton/arm64/as4224/src/modules/optoe.c:513-543 | one more block of a write, acknowledged or torn, whatever it finds or sends in the register, lands on the page that the register then holds; bytes of the same request written to that page later win |
| OptoeRequests.MisdirectedWrite | packages/platforms/accton/arm64/as4224/src/modules/optoe.c:283-292 | an atomic write that finds or sends a non-zero byte in the register leaves page 0 of the window alone, and what it meant for it is on the page selected, except where it goes on to write there |
| OptoeRequests.FlatWrite | packages/platforms/accton/arm64/as4224/src/modules/optoe.c:513-543 | a write that starts from page 0 and sends nothing but zero to the register goes where it was meant to |
| OptoeRequests.SettledExtends | packages/platforms/accton/arm64/as4224/src/modules/optoe.c:513-559 | up to the end of the window a chunk leaves in the register what the request found or sent there; past it page 0 is selected again, if the restores succeed |
| OptoeRequests.LeftExtends | packages/platforms/accton/arm64/as4224/src/modules/optoe.c:513-559 | one more chunk, whatever fails in it, leaves in the register what the request found or sent there, or 0, or the page the request was on |
| OptoeRequests.ChunkServed | packages/platforms/accton/arm64/as4224/src/modules/optoe.c:735-755 | one more chunk keeps the request exact and poised for the next, across failed restores, with whatever page selected |
| OptoeRuns.FlatSupportedOneAddr | packages/platforms/accton/arm64/as4224/src/modules/optoe.c:633-646 | the supported size of a flat image, by the same bit |
| OptoeRuns.FlatSupportedTwoAddr | packages/platforms/accton/arm64/as4224/src/modules/optoe.c:592-619 | the same for two addresses, by the same bits |
| OptoeRuns.FlatResultIsSupported | packages/platforms/accton/arm64/as4224/src/modules/optoe.c:574-653 | a flat array answers with as many bytes as are within the supported size, and with an error only for negative offsets |
| OptoeRuns.Serve | packages/platforms/accton/arm64/as4224/src/modules/optoe.c:655-783 | one request, from whatever state: reply, bytes and register are those that the register it finds allows, cut short only by its own faults |
| OptoeRuns.ServeAll | packages/platforms/accton/arm64/as4224/src/modules/optoe.c:655-783 | every request of any run is such a step from one linear image to the next, whatever failed before it |
| OptoeRuns.StepAnswersFlat | packages/platforms/accton/arm64/as4224/src/modules/optoe.c:655-783 | from page 0, or away from the window with any page selected, a request is answered as by a flat array |
| OptoeRuns.StepWritesFlat | packages/platforms/accton/arm64/as4224/src/modules/optoe.c:655-783 | away from the window, with any page selected, a write that is not torn lands as in a flat array |
| OptoeRuns.StepIsFlat | packages/platforms/accton/arm64/as4224/src/modules/optoe.c:655-783 | from page 0, a request that spares the register and whose restores succeed changes the module as a flat array and selects page 0 again |
| OptoeRuns.RunIsFlat | packages/platforms/accton/arm64/as4224/src/modules/optoe.c:655-783 | after any part of a run that kept page 0 between requests, the next request is answered as by one flat array, even if its own restore fails |
| OptoeRuns.FaultFreeRun | packages/platforms/accton/arm64/as4224/src/modules/optoe.c:655-783 | if no bus transaction of a run fails, every reply is that of the flat array in full |
| OptoeRuns.ReadsBack | packages/platforms/accton/arm64/as4224/src/modules/optoe.c:655-783 | data written and read without faults, away from the capability bytes, is read back exactly with any page selected, unless the write goes past the window with a non-zero byte in the register |
| OptoeRuns.WriteThenRead | packages/platforms/accton/arm64/as4224/src/modules/optoe.c:655-783 | the same of two requests to the driver |
| OptoeRuns.RunExtends | packages/platforms/accton/arm64/as4224/src/modules/optoe.c:655-783 | a run is extended by any request that is a step from its last image |
| YamlTree.PromotedPairIsLower | packages/base/all/vendor-config-onl/src/python/onl/YamlUtils.py:77-99 | the taller side of a pair shrinks from a pair to the pair of its common key, promotion included |
| YamlTree.OneSidedPairIsLower | packages/base/all/vendor-config-onl/src/python/onl/YamlUtils.py:59-74 | the same for the pairs that keys of one side give rise to |
| YamlTree.MergeWithEmptyDefaults | packages/base/all/vendor-config-onl/src/python/onl/YamlUtils.py:67-74 | merging into nothing leaves the override without its tombstones |
| YamlTree.MergeIsIdempotent | packages/base/all/vendor-config-onl/src/python/onl/YamlUtils.py:59-99 | applying the same override twice is applying it once |
| YamlTree.OverrideWins | packages/base/all/vendor-config-onl/src/python/onl/YamlUtils.py:59-99 | each scalar of the override is found at its path followed by exactly as many '=' keys as the defaults nest there |
| YamlTree.TombstoneDeletes | packages/base/all/vendor-config-onl/src/python/onl/YamlUtils.py:67-81 | a null in the override leaves nothing at its path |
| YamlTree.DefaultsSurvive | packages/base/all/vendor-config-onl/src/python/onl/YamlUtils.py:59-65 | what the override does not mention stays as it is, also below a dict that a scalar overrides |
| YamlLaws.DefaultsKept | packages/base/all/vendor-config-onl/src/python/onl/YamlUtils.py:59-99 | each scalar of the defaults is found at its path, or promoted below it by as many '=' keys as the override adds, unless the override has a scalar or a null for it |
| YamlLaws.DefaultIsPromoted | packages/base/all/vendor-config-onl/src/python/onl/YamlUtils.py:94-99 | a scalar default under a dict of the override is found under '=', unless the override has that key itself |
| YamlLaws.ScalarSparesTheRest | packages/base/all/vendor-config-onl/src/python/onl/YamlUtils.py:96-99 | where a scalar overrides a dict, everything in the dict survives but what is below '=' keys alone |
| YamlLaws.ScalarOrigin | packages/base/all/vendor-config-onl/src/python/onl/YamlUtils.py:59-99 | every scalar of the result comes from the override or from the defaults, from the same path but for exactly as many '=' keys as the other side adds; every null comes from the defaults |
| YamlLaws.ScalarLaw | packages/base/all/vendor-config-onl/src/python/onl/YamlUtils.py:59-99 | the scalars of the result are exactly those of the override and those of the defaults that it spares, each at its place |
| YamlLaws.DictLaw | packages/base/all/vendor-config-onl/src/python/onl/YamlUtils.py:59-99 | the dicts of the result, empty ones included, are exactly those of the override and those of the defaults that no null deletes |
| YamlLaws.MergeIsDetermined | packages/base/all/vendor-config-onl/src/python/onl/YamlUtils.py:4-25 | the merge is the only tree that obeys these two laws |
| YamlMerge.Node.SetDefault | packages/base/all/vendor-config-onl/src/python/onl/YamlUtils.py:62-65 | an entry is added unless the key is there |
| YamlMerge.AddChild | packages/base/all/vendor-config-onl/src/python/onl/YamlUtils.py:98-99 | an empty dict is entered and queued under its goal, and no work is lost or gained |
| YamlMerge.FillFromDefaults | packages/base/all/vendor-config-onl/src/python/onl/YamlUtils.py:59-65 | keys of the defaults alone are filled towards the merge, in any order |
| YamlMerge.FillFromOverride | packages/base/all/vendor-config-onl/src/python/onl/YamlUtils.py:67-74 | keys of the override alone are filled towards the merge, tombstones dropped |
| YamlMerge.FillFromBoth | packages/base/all/vendor-config-onl/src/python/onl/YamlUtils.py:77-99 | common keys are filled towards the merge, with promotion either way |
| YamlMerge.Expand | packages/base/all/vendor-config-onl/src/python/onl/YamlUtils.py:53-99 | one iteration settles one output dict and lowers the work left by one |
| YamlMerge.MergeTrees | packages/base/all/vendor-config-onl/src/python/onl/YamlUtils.py:49-101 | the worklist ends and leaves exactly the recursive merge of the two trees |
| YamlMerge.MergeFiles | packages/base/all/vendor-config-onl/src/python/onl/YamlUtils.py:30-101 | parsed files are merged if and only if they have the required shape, else an error is raised |
| YamlMerge.SettledRepresents | packages/base/all/vendor-config-onl/src/python/onl/YamlUtils.py:49-101 | output dicts that are each filled locally make up the whole tree |
| YamlMerge.SumMinus | packages/base/all/vendor-config-onl/src/python/onl/YamlUtils.py:59-77 | the work due does not depend on the order in which keys are visited |
| PackageRepo.ListsItself | tools/onlpm.py:780-788 | a look-up always lists the file stored under its own id |
| PackageRepo.LookupIsExact | tools/onlpm.py:780-806 | a look-up finds exactly the package's own file if and only if no other file is listed with it (for absent packages: not just one) |
| PackageRepo.AddCoherent | tools/onlpm.py:760-771 | storing a file keeps the extract cache trustworthy exactly when its time is fresh |
| PackageRepo.ExtractCoherent | tools/onlpm.py:818-855 | extracting keeps the cache trustworthy |
| PackageRepo.ExtractAgrees | tools/onlpm.py:818-855 | a successful extract leaves the contents of the stored file, unless it trusts a directory of the same time and other contents |
| PackageRepo.AddKeepsUnpacked | tools/onlpm.py:766-771 | storing a file clears no directory that extract uses |
| PackageRepo.ReusedStampIsStale | tools/onlpm.py:829-834 | a new file with the old file's time is not unpacked |
| PackageRepo.RunIsCoherent | tools/onlpm.py:743-857 | over any run with fresh times the cache stays trustworthy and each id has at most one file |
| PackageRepo.RunExtractsAgree | tools/onlpm.py:808-857 | every successful extract of such a run leaves the contents of the one file stored for the id |
| RepoRuns.ListedExactly | tools/onlpm.py:780-788 | a package is listed exactly the files of its architecture of which the name or the version ends in its name |
| RepoRuns.AddFrame | tools/onlpm.py:760-771 | storing replaces the files of the same id, clears one directory, and leaves all else as it is |
| RepoRuns.RemoveFrame | tools/onlpm.py:773-778 | removing deletes a file if and only if it is the only one listed, and touches no directory |
| RepoRuns.ExtractFrame | tools/onlpm.py:808-857 | extracting changes no file and no directory but the package's own, which is left with the file's time, or with none |
| RepoRuns.RunFiles | tools/onlpm.py:743-778 | over any run with exact look-ups, the repository holds exactly the files stored last under their ids and not removed since |
| RepoRuns.RunLookup | tools/onlpm.py:794-806 | each removal and each extract of such a run finds exactly the file that its id then holds, if any |
| RepoRuns.RemovedAreGone | tools/onlpm.py:773-778 | removing a list of packages leaves exactly the files of all others |
| RepoRuns.StoredIsExtracted | tools/onlpm.py:743-857 | a file stored under an id, and not replaced or removed since, is found by an extract, which leaves its contents and time, if no other file of the id has the same time |
| RepoRuns.ExtractedStays | tools/onlpm.py:808-857 | an unpacked directory stays as it is until its package is extracted again |
| PackageRepo.OnlPackageRepo.AddPackages | tools/onlpm.py:743-771 | files are stored one by one up to the first missing path |
| PackageRepo.OnlPackageRepo.LookupPackage | tools/onlpm.py:794-806 | the one file listed, or none |
| PackageRepo.OnlPackageRepo.RemovePackages | tools/onlpm.py:773-778 | each id that resolves loses its file |
| PackageRepo.OnlPackageRepo.ExtractPackage | tools/onlpm.py:808-857 | the package is unpacked unless the timestamps agree |
| PackageGraph.CycleIsDeep | tools/onlpm.py:1085-1087 | on a cycle there are prerequisite chains of every length |
| BuildOrder.BuiltInOrder | tools/onlpm.py:1084-1094 | a group built after its prerequisites extends a topological trace |
| BuildOrder.NotBelowItself | tools/onlpm.py:1085-1087 | a group declares nothing that its own prerequisites reach, if requiring them returned |
| BuildOrder.RequireRuns | tools/onlpm.py:1109-1133 | every call of require builds only groups that are due: asked for, or declaring something reachable that was missing; it returns normally only if all that is reachable is declared and no chain exhausts the recursion limit; a build failure names a due group |
| BuildOrder.BuildRuns | tools/onlpm.py:1054-1099 | the same for the loop over the groups, which on normal return has built every group that declares the package |
| BuildOrder.CanFinishByPrereqs | tools/onlpm.py:1084-1087 | a package can be required if and only if the prerequisites of all its groups can, one frame further down |
| BuildOrder.RequireKeeps | tools/onlpm.py:1109-1133 | every call of require keeps the order, returns normally only with everything reachable present, starts no build step before all that its group requires is there, and otherwise only fails for a cycle, an undeclared package or a failed build |
| BuildOrder.RequireAllKeeps | tools/onlpm.py:1085-1087 | the same for a list of prerequisites |
| BuildOrder.BuildGroupKeeps | tools/onlpm.py:1084-1096 | the same for one group |
| BuildOrder.BuildKeeps | tools/onlpm.py:1054-1099 | the same for the loop over the groups |
| BuildOrder.RequireIsIdle | tools/onlpm.py:1125-1130 | if everything reachable is present, nothing is built, whatever the look-up finds |
| BuildOrder.AcyclicIsShallow | tools/onlpm.py:1085-1087 | acyclic prerequisites have no chain longer than the number of groups |
| BuildOrder.CyclicIsDeep | tools/onlpm.py:1085-1087 | cyclic ones have chains beyond any recursion limit |
| BuildOrder.RequireIsSafe | tools/onlpm.py:1050-1133 | whatever the outcome, groups are built in topological order and only as needed; a normal return means closure |
| BuildOrder.RequireTerminates | tools/onlpm.py:1050-1133 | without build failures, require succeeds if and only if everything reachable is declared and no chain exhausts the recursion limit; acyclic prerequisites never do |
| BuildOrder.RequireBuilds | tools/onlpm.py:1125-1127 | a forced package, or a missing one to be built, has all its groups built, the last of them last of all |
| BuildOrder.ImpostorStandsIn | tools/onlpm.py:788-792 | on normal return a missing package's group has been built if and only if no file of another id is listed for the package |
| BuildResults.AddAllStores | tools/onlpm.py:743-771 | storing a list of files leaves the last one of each id in the place of older ones, and clears their directories and no other |
| BuildResults.RequireFiles | tools/onlpm.py:1089-1094 | whatever the outcome of require, an id that a group of the trace yields is stored as the last such product of the last such group; all other files and directories are as before |
| BuildResults.RequireExplained | tools/onlpm.py:1054-1133 | each failure of require has its reason: an undeclared package, or a declared one not found, that the package reaches, a broken group that yields one, or a chain as long as the recursion limit |
| BuildResults.AbsentIsNotBuilt | tools/onlplatform.py:33-37 | without building what is missing, an absent package raises an error, and nothing is built |
| BuildResults.RequireResults | tools/onlpm.py:1109-1133 | of one call: files, reason of failure, and on normal return the package is found or was to be skipped |
| BuildOnce.StaysUnbuilt | tools/onlpm.py:1054-1094 | without clashes, requiring the prerequisites of one group of a package builds none of its groups that are still to come |
| BuildOnce.RequireIsOnce | tools/onlpm.py:1050-1133 | without clashes, one call builds each group at most once, on any repository and whatever happens |
| BuildOnce.ClashIsBuiltTwice | tools/onlpm.py:1054-1094 | of two clashing groups one is built twice in one successful call, when only the two packages of the clash are missing |
| BuildOnce.SharedIdIsBuiltTwice | tools/onlpm.py:1054-1055 | the smallest such world: two groups share a package, and the first requires the other's second one |
| BuildOnce.NeverTwiceIfClashFree | tools/onlpm.py:1050-1133 | with acyclic, declared prerequisites, exact look-ups and working builds, no call builds a group twice if and only if no two groups clash |
| PackageManager.OnlPackageManager.ContainsPackage | tools/onlpm.py:1044-1048 | the loops find whether any group declares the package |
| PackageManager.OnlPackageManager.Require | tools/onlpm.py:1109-1133 | outcome, repository and trace are those of the function that the order theorems are about |
| PackageManager.OnlPackageManager.Build | tools/onlpm.py:1050-1099 | the same for build |
| PackageManager.OnlPackageManager.BuildGroup | tools/onlpm.py:1057-1096 | the same for one group, whose products all enter the repository |
| FaultWire.StoredIsText | packages/base/any/faultd/src/module/src/faultd.c:466-477 | the stored symbols read as a C string are the text if and only if it leaves room for the NUL; else a truncated, unterminated prefix is stored |
| FaultWire.DecodeEncode | packages/base/any/faultd/src/module/src/faultd.c:453-506 | a message in front of any bytes is recovered and the stream stops at its end |
| FaultWire.DecodeEncodeAll | packages/base/any/faultd/src/module/src/faultd.c:453-506 | any run of messages is recovered record by record |
| FaultWire.ReportShowsRecord | packages/base/any/faultd/src/module/src/faultd.c:453-477 | bytes 8 to 551 of the record are reported in place, and symbols if and only if one of bytes 552 to 559 is set |
| FaultWire.ReportsDetermine | packages/base/any/faultd/src/module/src/faultd.c:453-477 | two reports are equal if and only if the messages agree in these bytes, in having symbols, and in what fits of them |
| FaultPipe.ReadSize | packages/base/any/faultd/src/module/src/faultd.c:316-347 | exactly the next bytes of the pipe over partial and interrupted reads, or -1; no other pipe changes |
| FaultPipe.ReadUntil | packages/base/any/faultd/src/module/src/faultd.c:285-312 | the text up to the first NUL is consumed with it, and as much as fits is stored; no other pipe changes |
| FaultPipe.WriteSize | packages/base/any/faultd/src/module/src/faultd.c:350-381 | all bytes in order over partial and interrupted writes, or a prefix and -1 |
| FaultPipe.ClientWrite | packages/base/any/faultd/src/module/src/faultd.c:489-506 | without a hard error exactly the encoding of the message goes onto the pipe |
| FaultPipe.ReadMessage | packages/base/any/faultd/src/module/src/faultd.c:457-477 | without a hard error exactly the first message is decoded and consumed |
| FaultServer.FaultdServer.constructor | packages/base/any/faultd/src/module/src/faultd.c:82-95 | all slots start free |
| FaultServer.FaultdServer.DestroyService | packages/base/any/faultd/src/module/src/faultd.c:109-124 | a slot's descriptors are closed and the slot is free |
| FaultServer.FaultdServer.Add | packages/base/any/faultd/src/module/src/faultd.c:126-202 | the first free slot gets the pipe and two new descriptors, or the table and the open descriptors are as before; it fails exactly when the table is full or a step fails |
| FaultServer.FaultdServer.Remove | packages/base/any/faultd/src/module/src/faultd.c:204-218 | a valid slot is freed and its descriptors closed; any other id is refused |
| FaultServer.FaultdServer.Destroy | packages/base/any/faultd/src/module/src/faultd.c:97-107 | every descriptor the server opened is closed |
| FaultServer.SidGuard | packages/base/any/faultd/src/module/src/faultd.c:391-418 | the guard refuses exactly the ids below -1 if the table size is unsigned, else none; the code behind it stays within the table exactly for admissible ids |
| FaultServer.FaultdServer.WaitServices | packages/base/any/faultd/src/module/src/faultd.c:383-426 | select is asked about exactly the watched services, again after each interruption, and its answer is returned; it is not asked if there is nothing to watch under the id |
| FaultServer.FaultdServer.Read | packages/base/any/faultd/src/module/src/faultd.c:429-486 | of the services that select was asked about and found ready, the first in cyclic order after the last one served is served its first message, under its pipe's name; even after hard errors no pipe of a service that was not ready changes |
| FaultServer.ServedInTime | packages/base/any/faultd/src/module/src/faultd.c:444-483 | from any read on, a service that stays ready is served within its cyclic distance, less than the table size |
| FaultServer.RecordedUpdate | packages/base/any/faultd/src/module/src/faultd.c:74-79 | changing one slot changes the recorded descriptors by that slot's alone |
| FaultServer.WatchedSlots | packages/base/any/faultd/src/module/src/faultd.c:396-418 | each descriptor that select may report belongs to exactly one watched slot |
| FaultServer.FaultdServer.ReadFirst | packages/base/any/faultd/src/module/src/faultd.c:453-485 | the scan serves the first ready service in cyclic order and passes over one that cannot be read |
| FaultRuns.Relay | packages/base/any/faultd/src/module/src/faultd.c:429-506 | a client's messages arrive as sent, in order, over any partial and interrupted transfers, and leave the pipe empty and all others untouched |
| FaultRuns.InTurnNobodyStarves | packages/base/any/faultd/src/module/src/faultd.c:444-483 | if each read serves the next of the services that select found ready, a service found ready as many times in a row as there are slots is served meanwhile |
| FaultRuns.Poll | packages/base/any/faultd/src/module/src/faultd.c:429-486 | any number of reads over all services serve in turn by select's own answers, starve nobody, and return the messages of the pipes served, in order, leaving all else in the pipes |
| FaultRuns.Lifetime | packages/base/any/faultd/src/module/src/faultd.c:82-218 | over any run of additions, removals and reads, whichever steps fail, and a final destroy, no descriptor is lost |

## Left out

- optoe probe and removal, sysfs attributes, locking, port names, changing the device class, adapter discovery: kernel
  plumbing; a request is atomic because the lock is held throughout.
- optoe retry timing: a retry loop ends after some number of attempts, not at a deadline.
- optoe integer widths: offsets and lengths are unbounded, since sysfs hands over at most one memory page per request;
  only the 8-bit page number is modelled as such.
- YAML parsing, anchors and file reading before line 30 of YamlUtils.py: the model starts from two parsed trees; lists
  are opaque leaves.
- `build` without a package name, the `filtered` flag, submodule prerequisites, `try_arches` and the id 'all': command
  line conveniences around the recursion.
- fpm, dpkg, make, pickled caches, locks and the pmake text: foreign tools; unpacking and building are taken to do what
  they say or, for building, to raise an error.
- `extract` into a given directory or without prefix: it layers packages on purpose and is no cache.
- Package names and architectures are taken to hold no underscore, as file names are parsed by it.
- BuildOrder.RequireTerminates: assumes that no build step fails; `RequireRuns` states which group is to blame if one does.
- BuildOnce.NeverTwiceIfClashFree: that a clash is harmful is stated for worlds in which everything can be built; in others
  it may be that no call gets far enough. `RequireIsOnce` needs none of this.
- faultd signal handling, backtraces and daemonizing: symbol text is any NUL-free text; several clients on one pipe at
  once are not modelled, as their interleaving is not controlled by this code.
- FaultRuns.Poll: says nothing once a hard error has occurred; `Read` says what then still holds of one read.
- faultd with a service id for which the code indexes outside the table (`SidGuard`): the model requires another one.
- FaultServer.FaultdServer.Add: descriptor 0 is taken to be in use by the process, so that open never returns it; the
  code treats 0 as no descriptor.
- End of file on a pipe: the server keeps a writer open on each, so it does not occur.
