# Action cache server — a Dafny model

This project models the Action Cache server of a remote build cache. The server implements the
ActionCache service of the Bazel Remote Execution API v2 (`build.bazel.remote.execution.v2`):

- `GetActionResult` returns the cached `ActionResult` of an action digest. It does so only after
  checking that the blobs its existence check covers are still in the store: the output files with
  inlined contents and a positive size, and each output directory's tree blob and files.
- `UpdateActionResult` stamps a result with the server's worker id and stores it under the action
  digest. It checks its arguments, but not that the blobs the result references exist.

The model has these parts:

- `wrappers.dfy`: `Option`, `Result`, `Outcome`.
- `status.dfy`: the error kinds (`InvalidArgument`, `NotFound`, `Internal`, `DecodeError`,
  `StoreError`).
- `remote_execution.dfy`: the protocol messages (`Digest`, `OutputFile`, `OutputDirectory`,
  `Directory`, `Tree`, `ActionResult`) and their encoding as store blobs.
- `digest_cache.dfy`: the shared digest cache as a `Cache` class holding `map<Key, Blob>`.
  - A key is a digest inside a namespace (the caller's scope plus the cache view's prefix).
  - `Faults` describes how the store misbehaves, so every error path of the server can be reached:
    unreadable keys, a failing `ContainsMulti`, keys left out of `ContainsMulti` answers, a failing
    `Set`.
- `action_cache_spec.dfy`: a functional model of each handler. Each function returns the
  outcome together with the log of store calls it makes, in order.
- `action_cache_server.dfy`: the `ActionCacheServer` class. Its methods keep the loops and early
  returns of the source, and each one is proved equal to its function in the functional model,
  call log included. The store object keeps that log itself: its `Get`, `ContainsMulti` and
  `Set` each append the call they serve to a ghost `log` field. Each server method states the
  calls it appends, and the read paths also state that they change nothing else.
  `UpdateActionResult` modifies the store and stamps the request's result in place.
- `action_cache_properties.dfy`: the properties, stated over the functional model.
  - the filtering rules;
  - the scan order and the first-failure rule of `checkFilesExist`;
  - the order of store calls and where the work stops;
  - soundness of validation on any store, and completeness on an honest one;
  - how `GetActionResult` classifies errors;
  - the write-then-read round trip.

Points where the code's behaviour is easy to misread, and which the model keeps as written:

- A digest that fails validation is reported with the validator's own error, not with a fresh
  `InvalidArgument` (lines 122-125 and 168-171).
- `checkFilesExist` scans a list of digests in request order, so repeats are looked up and
  reported like any other digest (lines 44-53).
- The existence checks and the Tree fetches go through the same `"ac-"`-prefixed view of the store
  that holds the action results (lines 29, 40 and 79), not through a separate content-addressable
  store.
- A stored result that fails to decode is returned with the decoder's own error, not mapped to
  `NotFound` (lines 135-138).
- The existence check covers less than the API's doc comment on `GetActionResult` asks for
  (lines 106-113: any blob the result references should be available). Line 70 looks up an
  output file only when the file has inlined contents and a positive digest size, so files
  referenced only by digest are never looked up. The stdout and stderr digests are never looked
  up either. `GetIgnoresNonInlinedFiles` and `ValidateIgnoresOtherFields` state this, and
  `OutputsPresent` names exactly the blobs that are covered.

## Model

| member | source | states |
|---|---|---|
| `RemoteExecution.DecodeActionResult` | server/remote_cache/action_cache_server/action_cache_server.go:135-138 | decoding the stored bytes succeeds exactly on an encoded ActionResult; any other blob fails with the decode error |
| `RemoteExecution.EncodeActionResult` | server/remote_cache/action_cache_server/action_cache_server.go:178 | decoding an encoded result gives it back, and it never decodes as a Tree |
| `RemoteExecution.DecodeTree` | server/remote_cache/action_cache_server/action_cache_server.go:83-86 | decoding a tree blob succeeds exactly on an encoded Tree; anything else fails with the decode error |
| `RemoteExecution.EncodeTree` | server/remote_cache/action_cache_server/action_cache_server.go:83-84 | decoding an encoded tree gives it back, and it never decodes as an ActionResult |
| `RemoteExecution.SizeBytes` | server/remote_cache/action_cache_server/action_cache_server.go:70 | the size of a possibly nil digest, 0 for nil, as the nil-safe getter reads it |
| `DigestCache.StoreGet` | server/remote_cache/action_cache_server/action_cache_server.go:79 | a successful Get returns the blob stored under the key; a stored, readable key always succeeds |
| `DigestCache.StoreContainsMulti` | server/remote_cache/action_cache_server/action_cache_server.go:40-43 | the answer only mentions requested digests, says truthfully whether each is stored, covers every digest the store does not leave out, and fails exactly when the store's ContainsMulti fails |
| `DigestCache.StoreSet` | server/remote_cache/action_cache_server/action_cache_server.go:183-185 | a successful Set writes exactly one key and keeps the faults; it fails exactly when the store's Set fails |
| `DigestCache.Cache.Get` | server/remote_cache/action_cache_server/action_cache_server.go:79 | the store object's Get answers exactly as `StoreGet` on its current state, and appends one Get of the key to the store's log, changing nothing else |
| `DigestCache.Cache.ContainsMulti` | server/remote_cache/action_cache_server/action_cache_server.go:40 | the store object's ContainsMulti answers exactly as `StoreContainsMulti` on its current state, and appends that one call to the store's log, changing nothing else |
| `DigestCache.Cache.Set` | server/remote_cache/action_cache_server/action_cache_server.go:183 | the store object's Set leaves the state `StoreSet` gives, or keeps it and returns the Set error; either way it appends one Set to the store's log |
| `ActionCacheSpec.FilesVerdict` | server/remote_cache/action_cache_server/action_cache_server.go:44-53 | the scan passes iff every requested digest is in the answer map with value true (so an empty list passes); otherwise it is Internal or NotFound |
| `ActionCacheSpec.DirDigests` | server/remote_cache/action_cache_server/action_cache_server.go:57-63 | a digest is checked iff some file of the directory carries it; files without a digest contribute nothing |
| `ActionCacheSpec.OutputFileDigests` | server/remote_cache/action_cache_server/action_cache_server.go:68-73 | a digest is checked iff some output file with inlined contents and positive digest size carries it; every checked digest has positive size |
| `ActionCacheSpec.CheckFilesExist` | server/remote_cache/action_cache_server/action_cache_server.go:39-54 | defines checkFilesExist: one batched ContainsMulti whose error is passed on, then the scan `FilesVerdict`; its properties are the `CheckFilesExist…` lemmas |
| `ActionCacheSpec.CheckDirExists` | server/remote_cache/action_cache_server/action_cache_server.go:56-65 | defines checkDirExists: the existence check of `DirDigests` of the directory's files |
| `ActionCacheSpec.CheckDirsExist` | server/remote_cache/action_cache_server/action_cache_server.go:91-95 | defines the loop over a tree's children: each directory's check in order, stopping at the first failure (`CheckDirsExistStopsAtFailure`) |
| `ActionCacheSpec.CheckTree` | server/remote_cache/action_cache_server/action_cache_server.go:87-95 | defines the check of a decoded tree: its root, then its children |
| `ActionCacheSpec.CheckOutputDirectory` | server/remote_cache/action_cache_server/action_cache_server.go:79-95 | defines one output directory's check: Get of the tree blob, decode, then the tree check, each error returned as it is |
| `ActionCacheSpec.CheckOutputDirectories` | server/remote_cache/action_cache_server/action_cache_server.go:78-96 | defines the loop over the output directories, stopping at the first failure (`CheckOutputDirectoriesStopsAtFailure`) |
| `ActionCacheSpec.ValidateActionResult` | server/remote_cache/action_cache_server/action_cache_server.go:67-98 | defines validateActionResult: the output files' check, then the output directories (`ValidateSound`, `ValidateComplete`, `ValidateFetchOrder`) |
| `ActionCacheSpec.GetActionResult` | server/remote_cache/action_cache_server/action_cache_server.go:118-143 | defines the read RPC: argument checks, entry read, decode, validation with failures mapped to NotFound (`GetOutcomes`, `GetSuccessIsValidated`) |
| `ActionCacheSpec.SetWorkerMetadata` | server/remote_cache/action_cache_server/action_cache_server.go:100-104 | the execution metadata becomes one naming only the worker, and every other field is kept |
| `ActionCacheSpec.UpdateActionResult` | server/remote_cache/action_cache_server/action_cache_server.go:161-187 | defines the write RPC: argument checks, stamping, one Set of the encoded result (`UpdateWritesWithoutChecking`, `UpdateThenGet`) |
| `ActionCacheServer.ActionCacheServer.constructor` | server/remote_cache/action_cache_server/action_cache_server.go:20-36 | the server works on the given store through the `"ac-"` prefix, with the given worker id and digest validator |
| `ActionCacheServer.ActionCacheServer.CheckFilesExist` | server/remote_cache/action_cache_server/action_cache_server.go:39-54 | one ContainsMulti call, its error passed on unchanged, then the in-order scan with early returns; the outcome and the calls it appends to the store's log are the functional model's, and the store's contents are unchanged |
| `ActionCacheServer.ActionCacheServer.CheckDirExists` | server/remote_cache/action_cache_server/action_cache_server.go:56-65 | the append loop collects exactly the digests of the files that have one, in file order, then checks them; outcome and logged calls are the functional model's, the store's contents unchanged |
| `ActionCacheServer.ActionCacheServer.ValidateActionResult` | server/remote_cache/action_cache_server/action_cache_server.go:67-98 | output files first, then each output directory in order, returning the first error; outcome and logged calls are the functional model's, the store's contents unchanged |
| `ActionCacheServer.ActionCacheServer.CollectOutputFileDigests` | server/remote_cache/action_cache_server/action_cache_server.go:68-73 | the first loop of the validation collects exactly the digests of the output files that must be present, in output order |
| `ActionCacheServer.ActionCacheServer.CheckOutputDirectory` | server/remote_cache/action_cache_server/action_cache_server.go:79-95 | one output directory: Get of the tree blob, decode, root, then each child in order; the first error is returned as it is; outcome and logged calls are the functional model's, the store's contents unchanged |
| `ActionCacheServer.ActionCacheServer.GetActionResult` | server/remote_cache/action_cache_server/action_cache_server.go:118-143 | the read RPC: outcome and the calls appended to the store's log are the functional model's, and the store's contents are unchanged |
| `ActionCacheServer.ActionCacheServer.UpdateActionResult` | server/remote_cache/action_cache_server/action_cache_server.go:161-187 | the write RPC: outcome, the calls appended to the store's log and the new store are those of the functional model; the request's result is stamped in place exactly when the argument checks pass |
| `ActionCacheServer.DirDigestsSnoc` | server/remote_cache/action_cache_server/action_cache_server.go:58-63 | one step of the append loop: a file adds its digest if it has one |
| `ActionCacheServer.OutputFileDigestsSnoc` | server/remote_cache/action_cache_server/action_cache_server.go:69-73 | one step of the append loop: an output file adds its digest only if it must be present |
| `ActionCacheProperties.FilesVerdictFirstBad` | server/remote_cache/action_cache_server/action_cache_server.go:44-52 | the scan stops at the first digest not answered true: Internal if the map lacks it, NotFound if it maps to false |
| `ActionCacheProperties.FilesVerdictInternal` | server/remote_cache/action_cache_server/action_cache_server.go:45-48 | when the answer covers every requested digest, the scan never yields Internal |
| `ActionCacheProperties.CheckFilesExistOneBatchedCall` | server/remote_cache/action_cache_server/action_cache_server.go:39-43 | exactly one batched ContainsMulti call, also for no digests; its error is the verdict, unchanged; no digests on a working store pass |
| `ActionCacheProperties.CheckFilesExistSound` | server/remote_cache/action_cache_server/action_cache_server.go:39-54 | a pass means every requested digest is stored |
| `ActionCacheProperties.CheckFilesExistComplete` | server/remote_cache/action_cache_server/action_cache_server.go:39-54 | on an honest store, all requested digests stored means a pass |
| `ActionCacheProperties.CheckFilesExistIncompleteAnswer` | server/remote_cache/action_cache_server/action_cache_server.go:44-51 | an answer missing a requested digest never passes; it is Internal when every earlier digest was answered and stored |
| `ActionCacheProperties.DirDigestsConcat` | server/remote_cache/action_cache_server/action_cache_server.go:58-63 | the digests checked for concatenated file lists are those of each list, in order |
| `ActionCacheProperties.DirDigestsOfOne` | server/remote_cache/action_cache_server/action_cache_server.go:59-62 | a file without a digest is skipped; a file with one contributes exactly it |
| `ActionCacheSpec.ThenAfter` | server/remote_cache/action_cache_server/action_cache_server.go:87-95 | a sequence of checks stops at the first failure, and otherwise goes on after the calls of both |
| `ActionCacheProperties.CheckDirExistsCall` | server/remote_cache/action_cache_server/action_cache_server.go:56-65 | checking one directory makes exactly one ContainsMulti, of its file digests |
| `ActionCacheProperties.CheckDirsExistStep` | server/remote_cache/action_cache_server/action_cache_server.go:91-95 | one step over the children: the first directory's ContainsMulti, then its failure or the rest of the list |
| `ActionCacheProperties.CheckDirsExistCallShape` | server/remote_cache/action_cache_server/action_cache_server.go:87-95 | one ContainsMulti per directory checked, in directory order, never more calls than directories |
| `ActionCacheProperties.CheckDirsExistPassedBefore` | server/remote_cache/action_cache_server/action_cache_server.go:91-95 | every directory before the last one checked passed |
| `ActionCacheProperties.CheckDirsExistPassedAll` | server/remote_cache/action_cache_server/action_cache_server.go:91-95 | a pass means every directory passed |
| `ActionCacheProperties.CheckDirsExistPassCalls` | server/remote_cache/action_cache_server/action_cache_server.go:91-95 | a pass makes one ContainsMulti per directory |
| `ActionCacheProperties.CheckDirsExistFailIsLast` | server/remote_cache/action_cache_server/action_cache_server.go:92-94 | a failure is that of the last directory checked |
| `ActionCacheProperties.CheckDirsExistStopsAtFailure` | server/remote_cache/action_cache_server/action_cache_server.go:91-95 | every directory before the failing one passed, the failure is that directory's, and a pass means every directory was checked and passed |
| `ActionCacheProperties.CheckDirsExistCalls` | server/remote_cache/action_cache_server/action_cache_server.go:87-95 | directories are checked in order with one ContainsMulti each; every directory before the failing one passed and none after it is checked |
| `ActionCacheProperties.CheckDirsExistSound` | server/remote_cache/action_cache_server/action_cache_server.go:91-95 | a pass means every file digest of every directory is stored |
| `ActionCacheProperties.CheckDirsExistComplete` | server/remote_cache/action_cache_server/action_cache_server.go:91-95 | on an honest store, all file digests stored means a pass |
| `ActionCacheProperties.OutputFileDigestsConcat` | server/remote_cache/action_cache_server/action_cache_server.go:69-73 | the output-file digests of concatenated lists are those of each list, in order |
| `ActionCacheProperties.OutputFileDigestsSkip` | server/remote_cache/action_cache_server/action_cache_server.go:70 | an output file with no inlined contents or a non-positive size is never looked up |
| `ActionCacheProperties.NonInlinedFilesNotChecked` | server/remote_cache/action_cache_server/action_cache_server.go:70 | output files without inlined contents contribute no digest |
| `ActionCacheProperties.GetIgnoresNonInlinedFiles` | server/remote_cache/action_cache_server/action_cache_server.go:68-76 | on an honest store, a stored result whose files are all non-inlined and which has no output directory is returned whether or not its files' blobs and its stdout/stderr blobs are stored |
| `ActionCacheProperties.ValidateChecksFilesFirst` | server/remote_cache/action_cache_server/action_cache_server.go:74-76 | the first call is the ContainsMulti of the output files; if it fails, nothing else is called |
| `ActionCacheProperties.FetchedConcat` | server/remote_cache/action_cache_server/action_cache_server.go:78-96 | the blobs read by concatenated call logs are those of each, in order |
| `ActionCacheProperties.FetchedNone` | server/remote_cache/action_cache_server/action_cache_server.go:87-95 | a log of ContainsMulti calls reads no blob |
| `ActionCacheProperties.CheckTreeFetchesNothing` | server/remote_cache/action_cache_server/action_cache_server.go:87-95 | checking a decoded tree reads no further blob |
| `ActionCacheProperties.CheckTreeIsDirsExist` | server/remote_cache/action_cache_server/action_cache_server.go:87-95 | a decoded tree is checked as the one directory list root-then-children, with the same stop at the first failure |
| `ActionCacheProperties.CheckOutputDirectoryErrors` | server/remote_cache/action_cache_server/action_cache_server.go:79-86 | a failed Get of the tree blob fails the directory with the store's error (StoreError when unreadable, NotFound when missing), a blob that does not decode fails it with DecodeError; in both cases the Get is the only call |
| `ActionCacheProperties.CheckOutputDirectoryFetchesItsTree` | server/remote_cache/action_cache_server/action_cache_server.go:79-95 | one output directory's check reads exactly its tree blob, whatever the outcome |
| `ActionCacheProperties.CheckOutputDirectoriesFetchOrder` | server/remote_cache/action_cache_server/action_cache_server.go:78-96 | tree blobs are read one per output directory, in order: a prefix of the tree keys, all of them on success |
| `ActionCacheProperties.CheckOutputDirectoriesStep` | server/remote_cache/action_cache_server/action_cache_server.go:78-96 | one step over the output directories: the first one's check, then its failure or the rest; each step reads one tree blob |
| `ActionCacheProperties.CheckOutputDirectoriesPassedBefore` | server/remote_cache/action_cache_server/action_cache_server.go:78-96 | every output directory before the last one whose tree was read passed |
| `ActionCacheProperties.CheckOutputDirectoriesPassedAll` | server/remote_cache/action_cache_server/action_cache_server.go:78-96 | a pass means every output directory passed |
| `ActionCacheProperties.CheckOutputDirectoriesFailIsLast` | server/remote_cache/action_cache_server/action_cache_server.go:80-94 | a failure is that of the last output directory whose tree was read |
| `ActionCacheProperties.CheckOutputDirectoriesStopsAtFailure` | server/remote_cache/action_cache_server/action_cache_server.go:78-96 | with n tree blobs read: n is at most the number of output directories, the first n-1 passed, a failure is the n-th's, and a pass reads and passes all of them |
| `ActionCacheProperties.ValidateFetchOrder` | server/remote_cache/action_cache_server/action_cache_server.go:67-98 | validation reads only tree blobs, in output-directory order, and only after the output files passed; with n blobs read, the first n-1 output directories passed and a failure is the n-th's, so nothing is read after a failing output directory |
| `ActionCacheProperties.CheckOutputDirectorySound` | server/remote_cache/action_cache_server/action_cache_server.go:79-95 | an output directory passes only if its tree blob is stored and decodes and all its file digests are stored |
| `ActionCacheProperties.CheckOutputDirectoryComplete` | server/remote_cache/action_cache_server/action_cache_server.go:79-95 | on an honest store, such an output directory passes |
| `ActionCacheProperties.CheckOutputDirectoriesSound` | server/remote_cache/action_cache_server/action_cache_server.go:78-96 | all output directories pass only if each one's tree and files are stored |
| `ActionCacheProperties.CheckOutputDirectoriesComplete` | server/remote_cache/action_cache_server/action_cache_server.go:78-96 | on an honest store, output directories whose trees and files are stored pass |
| `ActionCacheProperties.ValidateSound` | server/remote_cache/action_cache_server/action_cache_server.go:67-98 | validation passes only if every blob the existence check covers is stored (inlined output files of positive size, each output directory's tree blob and its files), whatever the store's faults |
| `ActionCacheProperties.ValidateComplete` | server/remote_cache/action_cache_server/action_cache_server.go:67-98 | on an honest store, validation passes when every blob the existence check covers is stored |
| `ActionCacheProperties.CheckDirsExistHonestErrors` | server/remote_cache/action_cache_server/action_cache_server.go:87-95 | on an honest store, checking directories passes or fails with NotFound |
| `ActionCacheProperties.CheckOutputDirectoriesHonestErrors` | server/remote_cache/action_cache_server/action_cache_server.go:78-96 | on an honest store, the output directories pass or fail with NotFound or a decode error |
| `ActionCacheProperties.ValidateHonestErrors` | server/remote_cache/action_cache_server/action_cache_server.go:67-98 | on an honest store, validation never yields Internal: only a pass, NotFound or a decode error |
| `ActionCacheProperties.DirMissingIsNotFound` | server/remote_cache/action_cache_server/action_cache_server.go:56-65 | on an honest store, a directory with an unstored file digest fails with NotFound |
| `ActionCacheProperties.HonestDirCheck` | server/remote_cache/action_cache_server/action_cache_server.go:56-65 | on an honest store, one directory's check is its one ContainsMulti and passes exactly when all its file digests are stored, otherwise NotFound |
| `ActionCacheProperties.SecondOfTwoMissing` | server/remote_cache/action_cache_server/action_cache_server.go:91-95 | on an honest store, of two children the first present and the second not: NotFound after exactly one ContainsMulti each |
| `ActionCacheProperties.SecondChildMissingTree` | server/remote_cache/action_cache_server/action_cache_server.go:87-95 | on an honest store, a tree whose second child misses a blob fails with NotFound after exactly one ContainsMulti for the root and for each child |
| `ActionCacheProperties.StoredTreeCheck` | server/remote_cache/action_cache_server/action_cache_server.go:79-86 | an output directory whose readable tree blob decodes to a tree is checked by that one Get followed by the tree's check |
| `ActionCacheProperties.SecondChildMissing` | server/remote_cache/action_cache_server/action_cache_server.go:67-98 | on an honest store, for a result with that tree, validation is NotFound with exactly the calls ContainsMulti([]), Get(tree), root, first child, second child |
| `ActionCacheProperties.ValidateIgnoresOtherFields` | server/remote_cache/action_cache_server/action_cache_server.go:67-98 | exit code, stdout/stderr digests and execution metadata never affect validation |
| `ActionCacheProperties.GetRejectsBeforeStore` | server/remote_cache/action_cache_server/action_cache_server.go:119-125 | a nil digest gives InvalidArgument and an invalid one the validator's error, both with no store call |
| `ActionCacheProperties.GetOutcomes` | server/remote_cache/action_cache_server/action_cache_server.go:129-142 | the entry is read first; a read error is NotFound, a decode failure stays a decode error, any validation failure (Internal included) is NotFound, and success returns the decoded result |
| `ActionCacheProperties.GetErrorKinds` | server/remote_cache/action_cache_server/action_cache_server.go:118-143 | the read RPC fails only with InvalidArgument, NotFound, a decode error or the validator's own error |
| `ActionCacheProperties.GetSuccessIsValidated` | server/remote_cache/action_cache_server/action_cache_server.go:129-142 | a returned result is exactly the stored one, and every blob the existence check covers is stored (inlined output files of positive size, each output directory's tree blob and its files) |
| `ActionCacheProperties.GetReturnsCheckedResult` | server/remote_cache/action_cache_server/action_cache_server.go:129-142 | on an honest store, a stored result whose covered blobs are all stored is returned after its entry read and validation calls, whatever its other blobs |
| `ActionCacheProperties.GetMissingOutputIsNotFound` | server/remote_cache/action_cache_server/action_cache_server.go:139-141 | a stored result with a blob the existence check covers unstored is NotFound although its entry exists |
| `ActionCacheProperties.SetWorkerMetadataOverrides` | server/remote_cache/action_cache_server/action_cache_server.go:100-104 | stamping discards any client metadata, leaving only the worker id, and keeps every other field |
| `ActionCacheProperties.UpdateArgumentChecks` | server/remote_cache/action_cache_server/action_cache_server.go:162-171 | a nil digest, then a nil result, give InvalidArgument before validation; a digest failing validation gives the validator's error; none touches the store |
| `ActionCacheProperties.UpdateWritesWithoutChecking` | server/remote_cache/action_cache_server/action_cache_server.go:176-186 | with valid arguments the only store call is one Set of the stamped result under the action key; it returns the stamped result, or the Set's error with the store unchanged |
| `ActionCacheProperties.UpdateChangesOnlyItsKey` | server/remote_cache/action_cache_server/action_cache_server.go:183 | every other key (other actions, scopes and prefixes) keeps its blob |
| `ActionCacheProperties.UpdateThenGet` | server/remote_cache/action_cache_server/action_cache_server.go:118-187 | after a successful write, on an honest store with every blob the existence check covers stored, a read returns the stamped result with the written outputs unchanged |
| `ActionCacheProperties.UpdateThenGetMissingOutput` | server/remote_cache/action_cache_server/action_cache_server.go:118-187 | after a successful write whose result has a blob the existence check covers unstored, a read is NotFound |

## Left out

- ValidateSound: states the guarantee for the blobs the existence check covers, not for every blob
  the result references as the doc comment at lines 106-113 asks. The code never looks up output
  files without inlined contents or the stdout/stderr digests, so nothing stronger holds.
- GetSuccessIsValidated: a returned result may still reference unstored blobs: output files
  without inlined contents and the stdout/stderr digests. Lines 106-113 ask for every referenced
  blob, but line 70 and lines 67-98 never look those up.
- GetMissingOutputIsNotFound: NotFound follows only from a missing blob that the existence check
  covers. A result missing only an output file without inlined contents, or its stdout/stderr
  blob, is returned (`GetIgnoresNonInlinedFiles`), contrary to lines 106-113.
- UpdateThenGetMissingOutput: the same limit after a write. Only a missing covered blob makes the
  read NotFound.
- Logging (`cli/log/log.go`) is not part of this model. It only prints.
- Protobuf encoding is modelled as a tagged `Blob`. Decoding fails exactly when the blob is not the
  encoding of the expected message. Real protobuf decoding is more lenient. Encoding cannot fail
  in the model, so the `proto.Marshal` error path (lines 179-181) is not modelled.
- `digest.Validate` is not part of this model. It is an opaque function given to the server at
  construction, returning `Pass` or an error.
- `perms.AttachUserPrefixToContext` and the request context become a `Scope` parameter, the
  caller's already-derived scope. It is part of every store key.
- The worker id (`uuid.NodeID()` in base64) is a string given to the server at construction.
- `NewActionCacheServer`'s failure on a missing cache (lines 30-32) and the `environment.Env`
  wiring are left out. The constructor always receives a store.
- `OutputDirectory.treeDigest` is never nil in the model. The store's behaviour on a nil key is
  not visible.
- A nil `Tree.root` or a nil child is modelled as an empty `Directory`. Go returns no files for
  both.
- The store never answers `true` for a blob it does not hold, nor `false` for one it holds
  (a `ContainsMulti` answer can only leave a digest out). Its eviction, durability,
  capacity, concurrency and last-write-wins races are left out. Cancellation and the RPC
  transport are left out too.
- `ContainsMulti` answers are keyed by digest value. Go keys them by the address of each digest message.
- Error messages are left out; only the error kind is modelled.
