/** A functional model of the action cache server's handlers. Each function gives the outcome
    of one operation together with the calls it makes on the store, in the order it makes them,
    so that what is looked up, in which order, and when the work stops can all be stated. */
module ActionCacheSpec {
  import opened Wrappers
  import opened Status
  import opened RemoteExecution
  import opened DigestCache

  /** The prefix of the action cache's view of the shared digest cache. */
  const AcCachePrefix: string := "ac-"

  /** The outcome of an operation and the store calls it made. */
  datatype Run<+T> = Run(out: T, calls: seq<Call>) {
    /** The same run, preceded by the `earlier` calls. */
    function After(earlier: seq<Call>): Run<T> {
      Run(out, earlier + calls)
    }
  }

  /** Two checks in sequence: `second` is run only when `first` passed. */
  function Then(first: Run<Outcome<Error>>, second: Run<Outcome<Error>>): Run<Outcome<Error>> {
    if first.out.Fail? then first else second.After(first.calls)
  }

  /** One step of a sequence of checks that follows `earlier` calls: it stops at a failing
      `first`, and otherwise goes on with `second` after the calls of both. */
  lemma ThenAfter(first: Run<Outcome<Error>>, second: Run<Outcome<Error>>, earlier: seq<Call>)
    ensures Then(first, second).After(earlier) ==
            if first.out.Fail? then first.After(earlier) else second.After(earlier + first.calls)
  {
  }

  // ---------------------------------------------------------------------------------------------
  // checkFilesExist

  /** The scan of a ContainsMulti answer, in request order: the first digest missing from the
      answer is an Internal error, the first digest answered `false` is NotFound. */
  function FilesVerdict(digests: seq<Digest>, found: map<Digest, bool>): (r: Outcome<Error>)
    ensures r == Pass <==> forall d | d in digests :: d in found && found[d]
    ensures r == Pass || r == Fail(Internal) || r == Fail(NotFound)
  {
    if digests == [] then Pass
    else if digests[0] !in found then Fail(Internal)
    else if !found[digests[0]] then Fail(NotFound)
    else FilesVerdict(digests[1..], found)
  }

  /** checkFilesExist: one batched ContainsMulti, whose failure is passed on as it is, then the scan. */
  function CheckFilesExist(st: StoreState, ns: Namespace, digests: seq<Digest>): Run<Outcome<Error>> {
    var answer := StoreContainsMulti(st, ns, digests);
    var out := if answer.Failure? then Fail(answer.error) else FilesVerdict(digests, answer.value);
    Run(out, [CallContainsMulti(ns, digests)])
  }

  // ---------------------------------------------------------------------------------------------
  // checkDirExists

  /** The digests of the files of a directory that have one, in file order. */
  function DirDigests(files: seq<FileNode>): (r: seq<Digest>)
    ensures |r| <= |files|
    ensures forall d :: d in r <==> exists i | 0 <= i < |files| :: files[i].digest == Some(d)
  {
    if files == [] then []
    else (if files[0].digest.Some? then [files[0].digest.value] else []) + DirDigests(files[1..])
  }

  /** checkDirExists: the existence check of the file digests of one directory. */
  function CheckDirExists(st: StoreState, ns: Namespace, dir: Directory): Run<Outcome<Error>> {
    CheckFilesExist(st, ns, DirDigests(dir.files))
  }

  /** checkDirExists on each directory in turn, stopping at the first failure. */
  function CheckDirsExist(st: StoreState, ns: Namespace, dirs: seq<Directory>): Run<Outcome<Error>> {
    if dirs == [] then Run(Pass, [])
    else Then(CheckDirExists(st, ns, dirs[0]), CheckDirsExist(st, ns, dirs[1..]))
  }

  /** The check of a decoded Tree: its root, then its children in order. */
  function CheckTree(st: StoreState, ns: Namespace, t: Tree): Run<Outcome<Error>> {
    Then(CheckDirExists(st, ns, t.root), CheckDirsExist(st, ns, t.children))
  }

  // ---------------------------------------------------------------------------------------------
  // validateActionResult

  /** An output file whose blob must be present: inlined contents and a positive digest size. */
  predicate MustExist(f: OutputFile) {
    |f.contents| > 0 && SizeBytes(f.digest) > 0
  }

  /** The digests of the output files that must be present, in output order. */
  function OutputFileDigests(files: seq<OutputFile>): (r: seq<Digest>)
    ensures |r| <= |files|
    ensures forall d :: d in r <==> exists i | 0 <= i < |files| :: MustExist(files[i]) && files[i].digest == Some(d)
    ensures forall d | d in r :: d.sizeBytes > 0
  {
    if files == [] then []
    else (if MustExist(files[0]) then [files[0].digest.value] else []) + OutputFileDigests(files[1..])
  }

  /** One output directory: fetch its Tree blob, decode it, check the tree. */
  function CheckOutputDirectory(st: StoreState, ns: Namespace, od: OutputDirectory): Run<Outcome<Error>> {
    var k := Key(ns, od.treeDigest);
    match StoreGet(st, k)
    case Failure(e) => Run(Fail(e), [CallGet(k)])
    case Success(blob) =>
      match DecodeTree(blob)
      case Failure(e) => Run(Fail(e), [CallGet(k)])
      case Success(t) => CheckTree(st, ns, t).After([CallGet(k)])
  }

  /** The output directories in order, stopping at the first failure. */
  function CheckOutputDirectories(st: StoreState, ns: Namespace, ods: seq<OutputDirectory>): Run<Outcome<Error>> {
    if ods == [] then Run(Pass, [])
    else Then(CheckOutputDirectory(st, ns, ods[0]), CheckOutputDirectories(st, ns, ods[1..]))
  }

  /** validateActionResult: the output files first, then the output directories. */
  function ValidateActionResult(st: StoreState, ns: Namespace, ar: ActionResult): Run<Outcome<Error>> {
    Then(CheckFilesExist(st, ns, OutputFileDigests(ar.outputFiles)),
         CheckOutputDirectories(st, ns, ar.outputDirectories))
  }

  // ---------------------------------------------------------------------------------------------
  // GetActionResult

  /** GetActionResult, with `validate` standing for digest validation and `ns` the caller's view
      of the action cache. */
  function GetActionResult(st: StoreState, validate: Digest -> Outcome<Error>, ns: Namespace,
                           actionDigest: Option<Digest>): Run<Result<ActionResult, Error>> {
    match actionDigest
    case None => Run(Failure(InvalidArgument), [])
    case Some(d) =>
      match validate(d)
      case Fail(e) => Run(Failure(e), [])
      case Pass =>
        var k := Key(ns, d);
        match StoreGet(st, k)
        case Failure(_) => Run(Failure(NotFound), [CallGet(k)])
        case Success(blob) =>
          match DecodeActionResult(blob)
          case Failure(e) => Run(Failure(e), [CallGet(k)])
          case Success(ar) =>
            var check := ValidateActionResult(st, ns, ar);
            Run(if check.out.Fail? then Failure(NotFound) else Success(ar), [CallGet(k)] + check.calls)
  }

  // ---------------------------------------------------------------------------------------------
  // UpdateActionResult

  /** setWorkerMetadata: the execution metadata replaced by one naming only the server's worker. */
  function SetWorkerMetadata(ar: ActionResult, worker: string): (r: ActionResult)
    ensures r.executionMetadata == Some(ExecutedActionMetadata(worker, map[]))
    ensures r.(executionMetadata := ar.executionMetadata) == ar
  {
    ar.(executionMetadata := Some(ExecutedActionMetadata(worker, map[])))
  }

  /** The outcome of a write, the store calls it made and the store afterwards. */
  datatype Write = Write(out: Result<ActionResult, Error>, calls: seq<Call>, store: StoreState)

  /** UpdateActionResult, with `validate` standing for digest validation, `worker` the server's
      worker identifier and `ns` the caller's view of the action cache. */
  function UpdateActionResult(st: StoreState, validate: Digest -> Outcome<Error>, worker: string, ns: Namespace,
                              actionDigest: Option<Digest>, actionResult: Option<ActionResult>): Write {
    if actionDigest.None? then Write(Failure(InvalidArgument), [], st)
    else if actionResult.None? then Write(Failure(InvalidArgument), [], st)
    else
      match validate(actionDigest.value)
      case Fail(e) => Write(Failure(e), [], st)
      case Pass =>
        var stamped := SetWorkerMetadata(actionResult.value, worker);
        var k := Key(ns, actionDigest.value);
        var blob := EncodeActionResult(stamped);
        match StoreSet(st, k, blob)
        case Failure(e) => Write(Failure(e), [CallSet(k, blob)], st)
        case Success(st') => Write(Success(stamped), [CallSet(k, blob)], st')
  }
}
