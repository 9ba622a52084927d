/** What the action cache promises, proved about the functional model in ActionCacheSpec. */
module ActionCacheProperties {
  import opened Wrappers
  import opened Status
  import opened RemoteExecution
  import opened DigestCache
  import opened ActionCacheSpec

  // ---------------------------------------------------------------------------------------------
  // The blobs the existence check covers

  /** Every file digest of a directory is stored in `ns`. */
  ghost predicate DirPresent(st: StoreState, ns: Namespace, dir: Directory) {
    forall d | d in DirDigests(dir.files) :: Key(ns, d) in st.blobs
  }

  /** The Tree blob of an output directory is stored and decodes, and every file digest of its
      root and of each of its children is stored. */
  ghost predicate OutputDirPresent(st: StoreState, ns: Namespace, od: OutputDirectory) {
    var k := Key(ns, od.treeDigest);
    && k in st.blobs
    && DecodeTree(st.blobs[k]).Success?
    && DirPresent(st, ns, DecodeTree(st.blobs[k]).value.root)
    && forall dir | dir in DecodeTree(st.blobs[k]).value.children :: DirPresent(st, ns, dir)
  }

  /** Every blob the existence check of an ActionResult covers is stored: the digest of each output
      file with inlined contents and a positive size, and for each output directory its Tree blob
      (which must decode) and the file digests of the tree's root and children. Output files
      referenced only by digest, and the stdout and stderr digests, are not covered. */
  ghost predicate OutputsPresent(st: StoreState, ns: Namespace, ar: ActionResult) {
    && (forall d | d in OutputFileDigests(ar.outputFiles) :: Key(ns, d) in st.blobs)
    && (forall od | od in ar.outputDirectories :: OutputDirPresent(st, ns, od))
  }

  /** The keys the Get calls of a call log read, in order. */
  function Fetched(calls: seq<Call>): seq<Key> {
    if calls == [] then []
    else (if calls[0].CallGet? then [calls[0].key] else []) + Fetched(calls[1..])
  }

  /** The keys of the Tree blobs of a list of output directories, in order. */
  function TreeKeys(ns: Namespace, ods: seq<OutputDirectory>): (r: seq<Key>)
    ensures |r| == |ods|
    ensures forall i | 0 <= i < |ods| :: r[i] == Key(ns, ods[i].treeDigest)
  {
    if ods == [] then [] else [Key(ns, ods[0].treeDigest)] + TreeKeys(ns, ods[1..])
  }

  // ---------------------------------------------------------------------------------------------
  // checkFilesExist

  /** The scan stops at the first digest that is not answered `true`: Internal when the answer
      leaves it out, NotFound when the answer says `false`. */
  lemma {:induction false} FilesVerdictFirstBad(digests: seq<Digest>, found: map<Digest, bool>, k: nat)
    requires k < |digests|
    requires forall i | 0 <= i < k :: digests[i] in found && found[digests[i]]
    requires !(digests[k] in found && found[digests[k]])
    ensures FilesVerdict(digests, found) == if digests[k] in found then Fail(NotFound) else Fail(Internal)
  {
    if k > 0 {
      assert digests[0] in found && found[digests[0]];
      FilesVerdictFirstBad(digests[1..], found, k - 1);
    }
  }

  /** Internal arises only from a requested digest that the answer leaves out. */
  lemma {:induction false} FilesVerdictInternal(digests: seq<Digest>, found: map<Digest, bool>)
    requires forall d | d in digests :: d in found
    ensures FilesVerdict(digests, found) == Pass || FilesVerdict(digests, found) == Fail(NotFound)
  {
    if digests != [] {
      FilesVerdictInternal(digests[1..], found);
    }
  }

  /** checkFilesExist makes exactly one store call, the batched ContainsMulti, even for no digests;
      a failure of that call is its verdict, unchanged. */
  lemma CheckFilesExistOneBatchedCall(st: StoreState, ns: Namespace, digests: seq<Digest>)
    ensures CheckFilesExist(st, ns, digests).calls == [CallContainsMulti(ns, digests)]
    ensures st.faults.containsMultiError.Some? ==>
              CheckFilesExist(st, ns, digests).out == Fail(st.faults.containsMultiError.value)
    ensures digests == [] && st.faults.containsMultiError.None? ==> CheckFilesExist(st, ns, digests).out == Pass
  {
  }

  /** checkFilesExist passes only when every requested digest is stored. */
  lemma CheckFilesExistSound(st: StoreState, ns: Namespace, digests: seq<Digest>)
    requires CheckFilesExist(st, ns, digests).out == Pass
    ensures forall d | d in digests :: Key(ns, d) in st.blobs
  {
  }

  /** Against a store that answers honestly and completely, checkFilesExist passes when every
      requested digest is stored. */
  lemma CheckFilesExistComplete(st: StoreState, ns: Namespace, digests: seq<Digest>)
    requires ReadsFaithful(st.faults)
    requires forall d | d in digests :: Key(ns, d) in st.blobs
    ensures CheckFilesExist(st, ns, digests).out == Pass
  {
  }

  /** An answer that leaves out a requested digest never passes: the scan reaches it (Internal)
      unless an earlier digest was answered `false` (NotFound). */
  lemma CheckFilesExistIncompleteAnswer(st: StoreState, ns: Namespace, digests: seq<Digest>, k: nat)
    requires st.faults.containsMultiError.None?
    requires k < |digests| && Key(ns, digests[k]) in st.faults.unreported
    ensures CheckFilesExist(st, ns, digests).out == Fail(Internal) || CheckFilesExist(st, ns, digests).out == Fail(NotFound)
    ensures (forall i | 0 <= i < k :: Key(ns, digests[i]) !in st.faults.unreported && Key(ns, digests[i]) in st.blobs) ==>
              CheckFilesExist(st, ns, digests).out == Fail(Internal)
  {
    var found := StoreContainsMulti(st, ns, digests).value;
    assert digests[k] !in found;
    if forall i | 0 <= i < k :: Key(ns, digests[i]) !in st.faults.unreported && Key(ns, digests[i]) in st.blobs {
      FilesVerdictFirstBad(digests, found, k);
    }
  }

  // ---------------------------------------------------------------------------------------------
  // checkDirExists and the digests it checks

  /** The digests of a concatenation of file lists are those of each list, in order. */
  lemma {:induction false} DirDigestsConcat(a: seq<FileNode>, b: seq<FileNode>)
    ensures DirDigests(a + b) == DirDigests(a) + DirDigests(b)
  {
    if a != [] {
      assert (a + b)[1..] == a[1..] + b;
      DirDigestsConcat(a[1..], b);
    } else {
      assert a + b == b;
    }
  }

  /** A file without a digest contributes nothing; a file with one contributes exactly it. */
  lemma DirDigestsOfOne(f: FileNode)
    ensures DirDigests([f]) == if f.digest.Some? then [f.digest.value] else []
  {
  }

  /** checkDirExists makes exactly one ContainsMulti, of the directory's file digests. */
  lemma CheckDirExistsCall(st: StoreState, ns: Namespace, dir: Directory)
    ensures CheckDirExists(st, ns, dir).calls == [CallContainsMulti(ns, DirDigests(dir.files))]
  {
    CheckFilesExistOneBatchedCall(st, ns, DirDigests(dir.files));
  }

  /** One step of checkDirExists over a list: the first directory's ContainsMulti, then either its
      failure or the rest of the list. */
  lemma CheckDirsExistStep(st: StoreState, ns: Namespace, dirs: seq<Directory>)
    requires dirs != []
    ensures var h := CheckDirExists(st, ns, dirs[0]);
            var rest := CheckDirsExist(st, ns, dirs[1..]);
            var call := CallContainsMulti(ns, DirDigests(dirs[0].files));
            CheckDirsExist(st, ns, dirs) ==
              if h.out.Fail? then Run(h.out, [call]) else Run(rest.out, [call] + rest.calls)
  {
    CheckDirExistsCall(st, ns, dirs[0]);
  }

  /** One ContainsMulti per directory checked, in directory order. */
  lemma {:induction false} CheckDirsExistCallShape(st: StoreState, ns: Namespace, dirs: seq<Directory>)
    ensures var r := CheckDirsExist(st, ns, dirs);
            && |r.calls| <= |dirs|
            && (forall i | 0 <= i < |r.calls| :: r.calls[i] == CallContainsMulti(ns, DirDigests(dirs[i].files)))
  {
    if dirs != [] {
      var r := CheckDirsExist(st, ns, dirs);
      var rest := CheckDirsExist(st, ns, dirs[1..]);
      CheckDirsExistStep(st, ns, dirs);
      CheckDirsExistCallShape(st, ns, dirs[1..]);
      forall i | 1 <= i < |r.calls|
        ensures r.calls[i] == CallContainsMulti(ns, DirDigests(dirs[i].files))
      {
        assert r.calls[i] == rest.calls[i - 1];
        assert dirs[i] == dirs[1..][i - 1];
      }
    }
  }

  /** Every directory before the last one checked passed. */
  lemma {:induction false} CheckDirsExistPassedBefore(st: StoreState, ns: Namespace, dirs: seq<Directory>, i: nat)
    requires i < |dirs| && i < |CheckDirsExist(st, ns, dirs).calls| - 1
    ensures CheckDirExists(st, ns, dirs[i]).out == Pass
  {
    CheckDirsExistStep(st, ns, dirs);
    if i > 0 {
      CheckDirsExistPassedBefore(st, ns, dirs[1..], i - 1);
      assert dirs[i] == dirs[1..][i - 1];
    }
  }

  /** A pass checked every directory, and every one of them passed. */
  lemma {:induction false} CheckDirsExistPassedAll(st: StoreState, ns: Namespace, dirs: seq<Directory>, i: nat)
    requires i < |dirs| && CheckDirsExist(st, ns, dirs).out == Pass
    ensures CheckDirExists(st, ns, dirs[i]).out == Pass
  {
    CheckDirsExistStep(st, ns, dirs);
    if i > 0 {
      CheckDirsExistPassedAll(st, ns, dirs[1..], i - 1);
      assert dirs[i] == dirs[1..][i - 1];
    }
  }

  /** A pass makes one call per directory. */
  lemma {:induction false} CheckDirsExistPassCalls(st: StoreState, ns: Namespace, dirs: seq<Directory>)
    requires CheckDirsExist(st, ns, dirs).out == Pass
    ensures |CheckDirsExist(st, ns, dirs).calls| == |dirs|
  {
    if dirs != [] {
      CheckDirsExistStep(st, ns, dirs);
      CheckDirsExistPassCalls(st, ns, dirs[1..]);
    }
  }

  /** A failure is that of the last directory checked. */
  lemma {:induction false} CheckDirsExistFailIsLast(st: StoreState, ns: Namespace, dirs: seq<Directory>)
    requires CheckDirsExist(st, ns, dirs).out.Fail?
    ensures var r := CheckDirsExist(st, ns, dirs);
            0 < |r.calls| <= |dirs| && CheckDirExists(st, ns, dirs[|r.calls| - 1]).out == r.out
  {
    CheckDirsExistStep(st, ns, dirs);
    if CheckDirExists(st, ns, dirs[0]).out.Pass? {
      var r := CheckDirsExist(st, ns, dirs);
      var rest := CheckDirsExist(st, ns, dirs[1..]);
      CheckDirsExistFailIsLast(st, ns, dirs[1..]);
      assert |r.calls| == 1 + |rest.calls|;
      assert dirs[|r.calls| - 1] == dirs[1..][|rest.calls| - 1];
    }
  }

  /** The work stops at the first directory that fails: every directory before it passed, and a
      pass means every directory was checked and passed. */
  lemma CheckDirsExistStopsAtFailure(st: StoreState, ns: Namespace, dirs: seq<Directory>)
    ensures var r := CheckDirsExist(st, ns, dirs);
            && |r.calls| <= |dirs|
            && (forall i | 0 <= i < |r.calls| - 1 :: CheckDirExists(st, ns, dirs[i]).out == Pass)
            && (r.out == Pass ==> |r.calls| == |dirs| && forall i | 0 <= i < |dirs| :: CheckDirExists(st, ns, dirs[i]).out == Pass)
            && (r.out.Fail? ==> |r.calls| > 0 && CheckDirExists(st, ns, dirs[|r.calls| - 1]).out == r.out)
  {
    var r := CheckDirsExist(st, ns, dirs);
    CheckDirsExistCallShape(st, ns, dirs);
    forall i | 0 <= i < |r.calls| - 1
      ensures CheckDirExists(st, ns, dirs[i]).out == Pass
    {
      CheckDirsExistPassedBefore(st, ns, dirs, i);
    }
    if r.out == Pass {
      CheckDirsExistPassCalls(st, ns, dirs);
      forall i | 0 <= i < |dirs|
        ensures CheckDirExists(st, ns, dirs[i]).out == Pass
      {
        CheckDirsExistPassedAll(st, ns, dirs, i);
      }
    } else {
      CheckDirsExistFailIsLast(st, ns, dirs);
    }
  }

  /** The directories are checked in order, one ContainsMulti each, and the work stops at the
      first directory that fails: every directory before it passed, none after it is looked at. */
  lemma CheckDirsExistCalls(st: StoreState, ns: Namespace, dirs: seq<Directory>)
    ensures var r := CheckDirsExist(st, ns, dirs);
            && |r.calls| <= |dirs|
            && (forall i | 0 <= i < |r.calls| :: r.calls[i] == CallContainsMulti(ns, DirDigests(dirs[i].files)))
            && (forall i | 0 <= i < |r.calls| - 1 :: CheckDirExists(st, ns, dirs[i]).out == Pass)
            && (r.out == Pass ==> |r.calls| == |dirs| && forall i | 0 <= i < |dirs| :: CheckDirExists(st, ns, dirs[i]).out == Pass)
            && (r.out.Fail? ==> |r.calls| > 0 && CheckDirExists(st, ns, dirs[|r.calls| - 1]).out == r.out)
  {
    CheckDirsExistCallShape(st, ns, dirs);
    CheckDirsExistStopsAtFailure(st, ns, dirs);
  }

  /** checkDirExists on a list of directories passes only when all their file digests are stored. */
  lemma {:induction false} CheckDirsExistSound(st: StoreState, ns: Namespace, dirs: seq<Directory>)
    requires CheckDirsExist(st, ns, dirs).out == Pass
    ensures forall dir | dir in dirs :: DirPresent(st, ns, dir)
  {
    if dirs != [] {
      CheckFilesExistSound(st, ns, DirDigests(dirs[0].files));
      CheckDirsExistSound(st, ns, dirs[1..]);
      forall dir | dir in dirs
        ensures DirPresent(st, ns, dir)
      {
        if dir != dirs[0] {
          assert dir in dirs[1..];
        }
      }
    }
  }

  /** Against an honest store, checkDirExists on a list of directories passes when all their file
      digests are stored. */
  lemma {:induction false} CheckDirsExistComplete(st: StoreState, ns: Namespace, dirs: seq<Directory>)
    requires ReadsFaithful(st.faults)
    requires forall dir | dir in dirs :: DirPresent(st, ns, dir)
    ensures CheckDirsExist(st, ns, dirs).out == Pass
  {
    if dirs != [] {
      assert DirPresent(st, ns, dirs[0]);
      CheckFilesExistComplete(st, ns, DirDigests(dirs[0].files));
      CheckDirsExistComplete(st, ns, dirs[1..]);
    }
  }

  // ---------------------------------------------------------------------------------------------
  // validateActionResult

  /** The digests of a concatenation of output-file lists are those of each list, in order. */
  lemma {:induction false} OutputFileDigestsConcat(a: seq<OutputFile>, b: seq<OutputFile>)
    ensures OutputFileDigests(a + b) == OutputFileDigests(a) + OutputFileDigests(b)
  {
    if a != [] {
      assert (a + b)[1..] == a[1..] + b;
      OutputFileDigestsConcat(a[1..], b);
    } else {
      assert a + b == b;
    }
  }

  /** An output file is looked up only when it has inlined contents and a positive digest size:
      adding any other output file leaves the files that are checked as they were. */
  lemma OutputFileDigestsSkip(files: seq<OutputFile>, f: OutputFile)
    requires |f.contents| == 0 || SizeBytes(f.digest) <= 0
    ensures OutputFileDigests(files + [f]) == OutputFileDigests(files)
    ensures OutputFileDigests([f] + files) == OutputFileDigests(files)
  {
    OutputFileDigestsConcat(files, [f]);
    OutputFileDigestsConcat([f], files);
    assert [f][1..] == [];
  }

  /** Output files without inlined contents are never looked up. */
  lemma {:induction false} NonInlinedFilesNotChecked(files: seq<OutputFile>)
    requires forall i | 0 <= i < |files| :: |files[i].contents| == 0
    ensures OutputFileDigests(files) == []
  {
    if files != [] {
      NonInlinedFilesNotChecked(files[1..]);
    }
  }

  /** Hence a stored result whose output files all come without inlined contents, and which has
      no output directory, is returned on an honest store whether or not its files' blobs are
      stored. */
  lemma GetIgnoresNonInlinedFiles(st: StoreState, validate: Digest -> Outcome<Error>, ns: Namespace, d: Digest, ar: ActionResult)
    requires validate(d) == Pass && ReadsFaithful(st.faults)
    requires Key(ns, d) in st.blobs && st.blobs[Key(ns, d)] == EncodeActionResult(ar)
    requires ar.outputDirectories == []
    requires forall i | 0 <= i < |ar.outputFiles| :: |ar.outputFiles[i].contents| == 0
    ensures GetActionResult(st, validate, ns, Some(d)).out == Success(ar)
  {
  }

  /** The first call of the validation is the ContainsMulti of the output files that must be
      present; when it fails, nothing else is called and its error is the verdict. */
  lemma ValidateChecksFilesFirst(st: StoreState, ns: Namespace, ar: ActionResult)
    ensures var r := ValidateActionResult(st, ns, ar);
            && |r.calls| > 0
            && r.calls[0] == CallContainsMulti(ns, OutputFileDigests(ar.outputFiles))
            && (CheckFilesExist(st, ns, OutputFileDigests(ar.outputFiles)).out.Fail? ==>
                  r == CheckFilesExist(st, ns, OutputFileDigests(ar.outputFiles)))
  {
  }

  /** The Get calls of a concatenation of call logs are those of each log, in order. */
  lemma {:induction false} FetchedConcat(a: seq<Call>, b: seq<Call>)
    ensures Fetched(a + b) == Fetched(a) + Fetched(b)
  {
    if a != [] {
      assert (a + b)[1..] == a[1..] + b;
      FetchedConcat(a[1..], b);
    } else {
      assert a + b == b;
    }
  }

  /** A call log with only ContainsMulti calls reads no key. */
  lemma {:induction false} FetchedNone(calls: seq<Call>)
    requires forall i | 0 <= i < |calls| :: calls[i].CallContainsMulti?
    ensures Fetched(calls) == []
  {
    if calls != [] {
      FetchedNone(calls[1..]);
    }
  }

  /** Checking a decoded tree fetches no blob. */
  lemma CheckTreeFetchesNothing(st: StoreState, ns: Namespace, t: Tree)
    ensures Fetched(CheckTree(st, ns, t).calls) == []
  {
    var root := CheckDirExists(st, ns, t.root);
    CheckDirsExistCalls(st, ns, t.children);
    var children := CheckDirsExist(st, ns, t.children);
    FetchedNone(root.calls);
    FetchedNone(children.calls);
    FetchedConcat(root.calls, children.calls);
  }

  /** A decoded tree is checked as one sequence of directories: the root first, then each child
      in order, stopping at the first failure. */
  lemma CheckTreeIsDirsExist(st: StoreState, ns: Namespace, t: Tree)
    ensures CheckTree(st, ns, t) == CheckDirsExist(st, ns, [t.root] + t.children)
  {
    assert ([t.root] + t.children)[1..] == t.children;
  }

  /** An output directory whose Tree blob cannot be read fails with the store's error (a store
      error for an unreadable key, NotFound for a missing one), and one whose blob does not decode
      fails with the decoder's error; either way the Get of the tree is the only call made. */
  lemma CheckOutputDirectoryErrors(st: StoreState, ns: Namespace, od: OutputDirectory)
    ensures var k := Key(ns, od.treeDigest);
            StoreGet(st, k).Failure? ==>
              CheckOutputDirectory(st, ns, od) == Run(Fail(StoreGet(st, k).error), [CallGet(k)])
    ensures var k := Key(ns, od.treeDigest);
            k in st.faults.unreadable ==> CheckOutputDirectory(st, ns, od) == Run(Fail(StoreError), [CallGet(k)])
    ensures var k := Key(ns, od.treeDigest);
            k !in st.faults.unreadable && k !in st.blobs ==>
              CheckOutputDirectory(st, ns, od) == Run(Fail(NotFound), [CallGet(k)])
    ensures var k := Key(ns, od.treeDigest);
            StoreGet(st, k).Success? && DecodeTree(st.blobs[k]).Failure? ==>
              CheckOutputDirectory(st, ns, od) == Run(Fail(DecodeError), [CallGet(k)])
  {
  }

  /** Checking one output directory reads exactly one blob, its Tree, whatever the outcome. */
  lemma CheckOutputDirectoryFetchesItsTree(st: StoreState, ns: Namespace, od: OutputDirectory)
    ensures Fetched(CheckOutputDirectory(st, ns, od).calls) == [Key(ns, od.treeDigest)]
  {
    var k := Key(ns, od.treeDigest);
    assert Fetched([CallGet(k)]) == [k] + Fetched([]);
    match StoreGet(st, k)
    case Failure(_) =>
    case Success(blob) =>
      match DecodeTree(blob)
      case Failure(_) =>
      case Success(t) =>
        CheckTreeFetchesNothing(st, ns, t);
        FetchedConcat([CallGet(k)], CheckTree(st, ns, t).calls);
  }

  /** The Tree blobs are fetched one per output directory, in order: the keys read are a prefix of
      the output directories' tree keys, all of them on success. */
  lemma {:induction false} CheckOutputDirectoriesFetchOrder(st: StoreState, ns: Namespace, ods: seq<OutputDirectory>)
    ensures Fetched(CheckOutputDirectories(st, ns, ods).calls) <= TreeKeys(ns, ods)
    ensures CheckOutputDirectories(st, ns, ods).out == Pass ==>
              Fetched(CheckOutputDirectories(st, ns, ods).calls) == TreeKeys(ns, ods)
  {
    if ods != [] {
      var h := CheckOutputDirectory(st, ns, ods[0]);
      var rest := CheckOutputDirectories(st, ns, ods[1..]);
      CheckOutputDirectoryFetchesItsTree(st, ns, ods[0]);
      CheckOutputDirectoriesFetchOrder(st, ns, ods[1..]);
      FetchedConcat(h.calls, rest.calls);
    }
  }

  /** One step over the output directories: the first one's check, then either its failure or
      the rest of the list; each step reads exactly one Tree blob. */
  lemma CheckOutputDirectoriesStep(st: StoreState, ns: Namespace, ods: seq<OutputDirectory>)
    requires ods != []
    ensures var h := CheckOutputDirectory(st, ns, ods[0]);
            var rest := CheckOutputDirectories(st, ns, ods[1..]);
            var r := CheckOutputDirectories(st, ns, ods);
            && r == (if h.out.Fail? then h else Run(rest.out, h.calls + rest.calls))
            && |Fetched(r.calls)| == if h.out.Fail? then 1 else 1 + |Fetched(rest.calls)|
  {
    var h := CheckOutputDirectory(st, ns, ods[0]);
    var rest := CheckOutputDirectories(st, ns, ods[1..]);
    CheckOutputDirectoryFetchesItsTree(st, ns, ods[0]);
    FetchedConcat(h.calls, rest.calls);
  }

  /** Every output directory before the last one whose Tree was read passed. */
  lemma {:induction false} CheckOutputDirectoriesPassedBefore(st: StoreState, ns: Namespace, ods: seq<OutputDirectory>, i: nat)
    requires i < |ods| && i < |Fetched(CheckOutputDirectories(st, ns, ods).calls)| - 1
    ensures CheckOutputDirectory(st, ns, ods[i]).out == Pass
  {
    CheckOutputDirectoriesStep(st, ns, ods);
    if i > 0 {
      CheckOutputDirectoriesPassedBefore(st, ns, ods[1..], i - 1);
      assert ods[i] == ods[1..][i - 1];
    }
  }

  /** A pass means every output directory passed. */
  lemma {:induction false} CheckOutputDirectoriesPassedAll(st: StoreState, ns: Namespace, ods: seq<OutputDirectory>, i: nat)
    requires i < |ods| && CheckOutputDirectories(st, ns, ods).out == Pass
    ensures CheckOutputDirectory(st, ns, ods[i]).out == Pass
  {
    CheckOutputDirectoriesStep(st, ns, ods);
    if i > 0 {
      CheckOutputDirectoriesPassedAll(st, ns, ods[1..], i - 1);
      assert ods[i] == ods[1..][i - 1];
    }
  }

  /** A failure is that of the last output directory whose Tree was read. */
  lemma {:induction false} CheckOutputDirectoriesFailIsLast(st: StoreState, ns: Namespace, ods: seq<OutputDirectory>)
    requires CheckOutputDirectories(st, ns, ods).out.Fail?
    ensures var r := CheckOutputDirectories(st, ns, ods);
            var n := |Fetched(r.calls)|;
            0 < n <= |ods| && CheckOutputDirectory(st, ns, ods[n - 1]).out == r.out
  {
    CheckOutputDirectoriesStep(st, ns, ods);
    if CheckOutputDirectory(st, ns, ods[0]).out.Pass? {
      var r := CheckOutputDirectories(st, ns, ods);
      var rest := CheckOutputDirectories(st, ns, ods[1..]);
      CheckOutputDirectoriesFailIsLast(st, ns, ods[1..]);
      var m := |Fetched(rest.calls)|;
      assert ods[m] == ods[1..][m - 1];
    }
  }

  /** The work stops at the first output directory that fails. With `n` the number of Tree blobs
      read: the first `n - 1` output directories passed, a failure is that of the `n`-th, and a
      pass means every output directory was read and passed. */
  lemma CheckOutputDirectoriesStopsAtFailure(st: StoreState, ns: Namespace, ods: seq<OutputDirectory>)
    ensures var r := CheckOutputDirectories(st, ns, ods);
            var n := |Fetched(r.calls)|;
            && n <= |ods|
            && (forall i | 0 <= i < n - 1 :: CheckOutputDirectory(st, ns, ods[i]).out == Pass)
            && (r.out == Pass ==> n == |ods| && forall i | 0 <= i < |ods| :: CheckOutputDirectory(st, ns, ods[i]).out == Pass)
            && (r.out.Fail? ==> n > 0 && CheckOutputDirectory(st, ns, ods[n - 1]).out == r.out)
  {
    var r := CheckOutputDirectories(st, ns, ods);
    var n := |Fetched(r.calls)|;
    CheckOutputDirectoriesFetchOrder(st, ns, ods);
    assert n <= |TreeKeys(ns, ods)| == |ods|;
    forall i | 0 <= i < n - 1
      ensures CheckOutputDirectory(st, ns, ods[i]).out == Pass
    {
      CheckOutputDirectoriesPassedBefore(st, ns, ods, i);
    }
    if r.out == Pass {
      forall i | 0 <= i < |ods|
        ensures CheckOutputDirectory(st, ns, ods[i]).out == Pass
      {
        CheckOutputDirectoriesPassedAll(st, ns, ods, i);
      }
    } else {
      CheckOutputDirectoriesFailIsLast(st, ns, ods);
    }
  }

  /** validateActionResult reads the Tree blobs of the output directories in order and reads
      nothing else; it reads one only after the output files passed, and it stops at the first
      output directory that fails. */
  lemma ValidateFetchOrder(st: StoreState, ns: Namespace, ar: ActionResult)
    ensures var r := ValidateActionResult(st, ns, ar);
            var n := |Fetched(r.calls)|;
            && Fetched(r.calls) <= TreeKeys(ns, ar.outputDirectories)
            && (r.out == Pass ==> Fetched(r.calls) == TreeKeys(ns, ar.outputDirectories))
            && (n > 0 ==> CheckFilesExist(st, ns, OutputFileDigests(ar.outputFiles)).out == Pass)
            && (forall i | 0 <= i < n - 1 :: CheckOutputDirectory(st, ns, ar.outputDirectories[i]).out == Pass)
            && (r.out.Fail? && n > 0 ==> CheckOutputDirectory(st, ns, ar.outputDirectories[n - 1]).out == r.out)
  {
    var r := ValidateActionResult(st, ns, ar);
    var files := CheckFilesExist(st, ns, OutputFileDigests(ar.outputFiles));
    var dirs := CheckOutputDirectories(st, ns, ar.outputDirectories);
    CheckFilesExistOneBatchedCall(st, ns, OutputFileDigests(ar.outputFiles));
    assert Fetched(files.calls) == [] by {
      FetchedNone(files.calls);
    }
    if files.out.Fail? {
      assert r == files;
    } else {
      assert r.calls == files.calls + dirs.calls && r.out == dirs.out;
      FetchedConcat(files.calls, dirs.calls);
      assert Fetched(r.calls) == Fetched(dirs.calls);
      CheckOutputDirectoriesFetchOrder(st, ns, ar.outputDirectories);
      CheckOutputDirectoriesStopsAtFailure(st, ns, ar.outputDirectories);
    }
  }

  /** One output directory passes only when its tree blob is stored, decodes, and every file
      digest of its root and children is stored. */
  lemma CheckOutputDirectorySound(st: StoreState, ns: Namespace, od: OutputDirectory)
    requires CheckOutputDirectory(st, ns, od).out == Pass
    ensures OutputDirPresent(st, ns, od)
  {
    var k := Key(ns, od.treeDigest);
    var t := DecodeTree(StoreGet(st, k).value).value;
    CheckFilesExistSound(st, ns, DirDigests(t.root.files));
    CheckDirsExistSound(st, ns, t.children);
  }

  /** Against an honest store, an output directory whose tree and files are all stored passes. */
  lemma CheckOutputDirectoryComplete(st: StoreState, ns: Namespace, od: OutputDirectory)
    requires ReadsFaithful(st.faults)
    requires OutputDirPresent(st, ns, od)
    ensures CheckOutputDirectory(st, ns, od).out == Pass
  {
    var k := Key(ns, od.treeDigest);
    var t := DecodeTree(st.blobs[k]).value;
    CheckFilesExistComplete(st, ns, DirDigests(t.root.files));
    CheckDirsExistComplete(st, ns, t.children);
  }

  lemma {:induction false} CheckOutputDirectoriesSound(st: StoreState, ns: Namespace, ods: seq<OutputDirectory>)
    requires CheckOutputDirectories(st, ns, ods).out == Pass
    ensures forall od | od in ods :: OutputDirPresent(st, ns, od)
  {
    if ods != [] {
      CheckOutputDirectorySound(st, ns, ods[0]);
      CheckOutputDirectoriesSound(st, ns, ods[1..]);
      forall od | od in ods
        ensures OutputDirPresent(st, ns, od)
      {
        if od != ods[0] {
          assert od in ods[1..];
        }
      }
    }
  }

  lemma {:induction false} CheckOutputDirectoriesComplete(st: StoreState, ns: Namespace, ods: seq<OutputDirectory>)
    requires ReadsFaithful(st.faults)
    requires forall od | od in ods :: OutputDirPresent(st, ns, od)
    ensures CheckOutputDirectories(st, ns, ods).out == Pass
  {
    if ods != [] {
      CheckOutputDirectoryComplete(st, ns, ods[0]);
      CheckOutputDirectoriesComplete(st, ns, ods[1..]);
    }
  }

  /** validateActionResult passes only when every blob its existence check covers is stored,
      whatever the store's faults: a fault can only turn a pass into a failure. */
  lemma ValidateSound(st: StoreState, ns: Namespace, ar: ActionResult)
    requires ValidateActionResult(st, ns, ar).out == Pass
    ensures OutputsPresent(st, ns, ar)
  {
    CheckFilesExistSound(st, ns, OutputFileDigests(ar.outputFiles));
    CheckOutputDirectoriesSound(st, ns, ar.outputDirectories);
  }

  /** Against a store that answers honestly and completely, validateActionResult passes when every
      blob its existence check covers is stored. */
  lemma ValidateComplete(st: StoreState, ns: Namespace, ar: ActionResult)
    requires ReadsFaithful(st.faults)
    requires OutputsPresent(st, ns, ar)
    ensures ValidateActionResult(st, ns, ar).out == Pass
  {
    CheckFilesExistComplete(st, ns, OutputFileDigests(ar.outputFiles));
    CheckOutputDirectoriesComplete(st, ns, ar.outputDirectories);
  }

  /** Against an honest store a failed validation is NotFound or a decode error, never Internal:
      Internal is kept for a store that breaks its own contract. */
  lemma {:induction false} CheckDirsExistHonestErrors(st: StoreState, ns: Namespace, dirs: seq<Directory>)
    requires ReadsFaithful(st.faults)
    ensures CheckDirsExist(st, ns, dirs).out == Pass || CheckDirsExist(st, ns, dirs).out == Fail(NotFound)
  {
    if dirs != [] {
      var digests := DirDigests(dirs[0].files);
      FilesVerdictInternal(digests, StoreContainsMulti(st, ns, digests).value);
      CheckDirsExistHonestErrors(st, ns, dirs[1..]);
    }
  }

  lemma {:induction false} CheckOutputDirectoriesHonestErrors(st: StoreState, ns: Namespace, ods: seq<OutputDirectory>)
    requires ReadsFaithful(st.faults)
    ensures var out := CheckOutputDirectories(st, ns, ods).out;
            out == Pass || out == Fail(NotFound) || out == Fail(DecodeError)
  {
    if ods != [] {
      var k := Key(ns, ods[0].treeDigest);
      if StoreGet(st, k).Success? && DecodeTree(st.blobs[k]).Success? {
        var t := DecodeTree(st.blobs[k]).value;
        CheckDirsExistHonestErrors(st, ns, [t.root]);
        assert [t.root][1..] == [];
        CheckDirsExistHonestErrors(st, ns, t.children);
      }
      CheckOutputDirectoriesHonestErrors(st, ns, ods[1..]);
    }
  }

  lemma ValidateHonestErrors(st: StoreState, ns: Namespace, ar: ActionResult)
    requires ReadsFaithful(st.faults)
    ensures var out := ValidateActionResult(st, ns, ar).out;
            out == Pass || out == Fail(NotFound) || out == Fail(DecodeError)
  {
    var digests := OutputFileDigests(ar.outputFiles);
    FilesVerdictInternal(digests, StoreContainsMulti(st, ns, digests).value);
    CheckOutputDirectoriesHonestErrors(st, ns, ar.outputDirectories);
  }

  /** A directory whose file digests are not all stored fails with NotFound on an honest store. */
  lemma DirMissingIsNotFound(st: StoreState, ns: Namespace, dir: Directory)
    requires ReadsFaithful(st.faults)
    requires !DirPresent(st, ns, dir)
    ensures CheckDirExists(st, ns, dir).out == Fail(NotFound)
  {
    var digests := DirDigests(dir.files);
    if CheckDirExists(st, ns, dir).out == Pass {
      CheckFilesExistSound(st, ns, digests);
    }
    FilesVerdictInternal(digests, StoreContainsMulti(st, ns, digests).value);
  }

  /** On an honest store, checking one directory makes its one ContainsMulti and passes exactly
      when all its file digests are stored; otherwise it is NotFound. */
  lemma HonestDirCheck(st: StoreState, ns: Namespace, dir: Directory)
    requires ReadsFaithful(st.faults)
    ensures CheckDirExists(st, ns, dir) ==
            Run(if DirPresent(st, ns, dir) then Pass else Fail(NotFound),
                [CallContainsMulti(ns, DirDigests(dir.files))])
  {
    CheckDirExistsCall(st, ns, dir);
    if DirPresent(st, ns, dir) {
      CheckFilesExistComplete(st, ns, DirDigests(dir.files));
    } else {
      DirMissingIsNotFound(st, ns, dir);
    }
  }

  /** On an honest store, two directories of which the first has all its file digests stored and
      the second does not: the first passes, the second fails with NotFound, one ContainsMulti each. */
  lemma SecondOfTwoMissing(st: StoreState, ns: Namespace, d1: Directory, d2: Directory)
    requires ReadsFaithful(st.faults)
    requires DirPresent(st, ns, d1) && !DirPresent(st, ns, d2)
    ensures CheckDirsExist(st, ns, [d1, d2]) ==
            Run(Fail(NotFound), [CallContainsMulti(ns, DirDigests(d1.files)),
                                 CallContainsMulti(ns, DirDigests(d2.files))])
  {
    var c1 := CallContainsMulti(ns, DirDigests(d1.files));
    var c2 := CallContainsMulti(ns, DirDigests(d2.files));
    HonestDirCheck(st, ns, d2);
    assert [d2][0] == d2 && [d2][1..] == [];
    CheckDirsExistStep(st, ns, [d2]);
    assert CheckDirsExist(st, ns, [d2]) == Run(Fail(NotFound), [c2]);
    HonestDirCheck(st, ns, d1);
    assert [d1, d2][0] == d1 && [d1, d2][1..] == [d2];
    CheckDirsExistStep(st, ns, [d1, d2]);
    assert [c1] + [c2] == [c1, c2];
  }

  /** A tree whose second child references a blob that is not stored: the root and the first
      child pass, the second child fails with NotFound, after one ContainsMulti per directory. */
  lemma SecondChildMissingTree(st: StoreState, ns: Namespace, root: Directory, d1: Directory, d2: Directory)
    requires ReadsFaithful(st.faults)
    requires DirPresent(st, ns, root) && DirPresent(st, ns, d1) && !DirPresent(st, ns, d2)
    ensures CheckTree(st, ns, Tree(root, [d1, d2])) ==
            Run(Fail(NotFound), [CallContainsMulti(ns, DirDigests(root.files)),
                                 CallContainsMulti(ns, DirDigests(d1.files)),
                                 CallContainsMulti(ns, DirDigests(d2.files))])
  {
    var c0 := CallContainsMulti(ns, DirDigests(root.files));
    var children := CheckDirsExist(st, ns, [d1, d2]);
    HonestDirCheck(st, ns, root);
    SecondOfTwoMissing(st, ns, d1, d2);
    ThenAfter(CheckDirExists(st, ns, root), children, []);
    assert [] + [c0] == [c0];
    assert CheckTree(st, ns, Tree(root, [d1, d2])) == children.After([c0]);
  }

  /** An output directory whose Tree blob is stored, readable and decodes to `t` is checked by
      reading that blob and then checking `t`. */
  lemma StoredTreeCheck(st: StoreState, ns: Namespace, od: OutputDirectory, t: Tree)
    requires Key(ns, od.treeDigest) in st.blobs && Key(ns, od.treeDigest) !in st.faults.unreadable
    requires st.blobs[Key(ns, od.treeDigest)] == EncodeTree(t)
    ensures CheckOutputDirectory(st, ns, od) == CheckTree(st, ns, t).After([CallGet(Key(ns, od.treeDigest))])
  {
  }

  /** The same scenario seen from validateActionResult: an ActionResult whose one output directory
      has that tree is NotFound, and nothing is called after the failing child. */
  lemma SecondChildMissing(st: StoreState, ns: Namespace, ar: ActionResult, root: Directory, d1: Directory, d2: Directory)
    requires ReadsFaithful(st.faults)
    requires ar.outputFiles == [] && |ar.outputDirectories| == 1
    requires Key(ns, ar.outputDirectories[0].treeDigest) in st.blobs
    requires st.blobs[Key(ns, ar.outputDirectories[0].treeDigest)] == EncodeTree(Tree(root, [d1, d2]))
    requires DirPresent(st, ns, root) && DirPresent(st, ns, d1) && !DirPresent(st, ns, d2)
    ensures ValidateActionResult(st, ns, ar) ==
            Run(Fail(NotFound), [CallContainsMulti(ns, []),
                                 CallGet(Key(ns, ar.outputDirectories[0].treeDigest)),
                                 CallContainsMulti(ns, DirDigests(root.files)),
                                 CallContainsMulti(ns, DirDigests(d1.files)),
                                 CallContainsMulti(ns, DirDigests(d2.files))])
  {
    var ods := ar.outputDirectories;
    var k := Key(ns, ods[0].treeDigest);
    var tree := CheckTree(st, ns, Tree(root, [d1, d2]));
    StoredTreeCheck(st, ns, ods[0], Tree(root, [d1, d2]));
    SecondChildMissingTree(st, ns, root, d1, d2);
    var dir := CheckOutputDirectory(st, ns, ods[0]);
    assert dir == tree.After([CallGet(k)]) && dir.out == Fail(NotFound);
    assert ods[1..] == [];
    assert CheckOutputDirectories(st, ns, ods) == dir;
    var files := CheckFilesExist(st, ns, OutputFileDigests(ar.outputFiles));
    assert OutputFileDigests(ar.outputFiles) == [];
    CheckFilesExistComplete(st, ns, []);
    CheckFilesExistOneBatchedCall(st, ns, []);
    assert files == Run(Pass, [CallContainsMulti(ns, [])]);
    assert ValidateActionResult(st, ns, ar) == dir.After(files.calls);
  }

  /** The validation looks only at the output files and directories: the exit code, the
      stdout/stderr digests and the execution metadata are never looked up. */
  lemma ValidateIgnoresOtherFields(st: StoreState, ns: Namespace, ar: ActionResult, ar': ActionResult)
    requires ar'.outputFiles == ar.outputFiles && ar'.outputDirectories == ar.outputDirectories
    ensures ValidateActionResult(st, ns, ar') == ValidateActionResult(st, ns, ar)
  {
  }

  // ---------------------------------------------------------------------------------------------
  // GetActionResult

  /** A nil or invalid action digest is rejected before the store is touched. */
  lemma GetRejectsBeforeStore(st: StoreState, validate: Digest -> Outcome<Error>, ns: Namespace, actionDigest: Option<Digest>)
    ensures actionDigest.None? ==> GetActionResult(st, validate, ns, actionDigest) == Run(Failure(InvalidArgument), [])
    ensures actionDigest.Some? && validate(actionDigest.value).Fail? ==>
              GetActionResult(st, validate, ns, actionDigest) == Run(Failure(validate(actionDigest.value).error), [])
  {
  }

  /** After the argument checks, the first store call reads the action's entry; a failed read is
      NotFound, a failed decode is the decode error, and any failed validation, Internal included,
      is NotFound. */
  lemma GetOutcomes(st: StoreState, validate: Digest -> Outcome<Error>, ns: Namespace, d: Digest)
    requires validate(d) == Pass
    ensures var r := GetActionResult(st, validate, ns, Some(d));
            var k := Key(ns, d);
            && r.calls[0] == CallGet(k)
            && (StoreGet(st, k).Failure? ==> r.out == Failure(NotFound))
            && (StoreGet(st, k).Success? && DecodeActionResult(st.blobs[k]).Failure? ==>
                  r.out == Failure(DecodeError))
            && (StoreGet(st, k).Success? && DecodeActionResult(st.blobs[k]).Success? ==>
                  var ar := DecodeActionResult(st.blobs[k]).value;
                  && r.calls == [CallGet(k)] + ValidateActionResult(st, ns, ar).calls
                  && r.out == if ValidateActionResult(st, ns, ar).out.Fail? then Failure(NotFound) else Success(ar))
  {
  }

  /** The read path's errors: InvalidArgument, NotFound, a decode error, or the validator's own
      error. In particular a store error or an Internal validation error never reaches the caller
      unless digest validation itself produced it. */
  lemma GetErrorKinds(st: StoreState, validate: Digest -> Outcome<Error>, ns: Namespace, actionDigest: Option<Digest>)
    requires GetActionResult(st, validate, ns, actionDigest).out.Failure?
    ensures var e := GetActionResult(st, validate, ns, actionDigest).out.error;
            || e == InvalidArgument || e == NotFound || e == DecodeError
            || (actionDigest.Some? && validate(actionDigest.value) == Fail(e))
  {
  }

  /** A result is returned only if it is exactly what is stored under the action digest and every
      blob the existence check covers is stored. */
  lemma GetSuccessIsValidated(st: StoreState, validate: Digest -> Outcome<Error>, ns: Namespace, d: Digest, ar: ActionResult)
    requires GetActionResult(st, validate, ns, Some(d)).out == Success(ar)
    ensures validate(d) == Pass
    ensures Key(ns, d) in st.blobs && st.blobs[Key(ns, d)] == EncodeActionResult(ar)
    ensures OutputsPresent(st, ns, ar)
  {
    ValidateSound(st, ns, ar);
  }

  /** On an honest store, a stored result is returned as soon as every blob the existence check
      covers is stored, whatever its other blobs: the converse of GetSuccessIsValidated. */
  lemma GetReturnsCheckedResult(st: StoreState, validate: Digest -> Outcome<Error>, ns: Namespace, d: Digest, ar: ActionResult)
    requires validate(d) == Pass && ReadsFaithful(st.faults)
    requires Key(ns, d) in st.blobs && st.blobs[Key(ns, d)] == EncodeActionResult(ar)
    requires OutputsPresent(st, ns, ar)
    ensures GetActionResult(st, validate, ns, Some(d)) ==
            Run(Success(ar), [CallGet(Key(ns, d))] + ValidateActionResult(st, ns, ar).calls)
  {
    ValidateComplete(st, ns, ar);
  }

  /** A stored result with a blob the existence check covers missing is reported NotFound,
      although its own entry is present. */
  lemma GetMissingOutputIsNotFound(st: StoreState, validate: Digest -> Outcome<Error>, ns: Namespace, d: Digest, ar: ActionResult)
    requires validate(d) == Pass
    requires Key(ns, d) in st.blobs && st.blobs[Key(ns, d)] == EncodeActionResult(ar)
    requires !OutputsPresent(st, ns, ar)
    ensures GetActionResult(st, validate, ns, Some(d)).out == Failure(NotFound)
  {
    if ValidateActionResult(st, ns, ar).out == Pass {
      ValidateSound(st, ns, ar);
    }
  }

  // ---------------------------------------------------------------------------------------------
  // UpdateActionResult

  /** Stamping replaces the whole execution metadata by one naming only the worker, whatever the
      client sent, and keeps every other field. */
  lemma SetWorkerMetadataOverrides(ar: ActionResult, clientMetadata: Option<ExecutedActionMetadata>, worker: string)
    ensures var stamped := SetWorkerMetadata(ar.(executionMetadata := clientMetadata), worker);
            && stamped == SetWorkerMetadata(ar, worker)
            && stamped.executionMetadata == Some(ExecutedActionMetadata(worker, map[]))
            && stamped.outputFiles == ar.outputFiles
            && stamped.outputDirectories == ar.outputDirectories
            && stamped.exitCode == ar.exitCode
            && stamped.stdoutDigest == ar.stdoutDigest
            && stamped.stderrDigest == ar.stderrDigest
  {
  }

  /** A nil digest is rejected first, then a nil result, both before digest validation; neither
      touches the store. */
  lemma UpdateArgumentChecks(st: StoreState, validate: Digest -> Outcome<Error>, worker: string, ns: Namespace,
                             actionDigest: Option<Digest>, actionResult: Option<ActionResult>)
    ensures var w := UpdateActionResult(st, validate, worker, ns, actionDigest, actionResult);
            && (actionDigest.None? || actionResult.None? ==> w == Write(Failure(InvalidArgument), [], st))
            && (actionDigest.Some? && actionResult.Some? && validate(actionDigest.value).Fail? ==>
                  w == Write(Failure(validate(actionDigest.value).error), [], st))
  {
  }

  /** With valid arguments the write stores the stamped result under the action's key with a
      single Set call: nothing is looked up first, whatever the store holds. */
  lemma UpdateWritesWithoutChecking(st: StoreState, validate: Digest -> Outcome<Error>, worker: string, ns: Namespace,
                                    d: Digest, ar: ActionResult)
    requires validate(d) == Pass
    ensures var w := UpdateActionResult(st, validate, worker, ns, Some(d), Some(ar));
            var stamped := SetWorkerMetadata(ar, worker);
            && w.calls == [CallSet(Key(ns, d), EncodeActionResult(stamped))]
            && (st.faults.setError.None? ==>
                  w.out == Success(stamped) && w.store == StoreState(st.blobs[Key(ns, d) := EncodeActionResult(stamped)], st.faults))
            && (st.faults.setError.Some? ==> w.out == Failure(st.faults.setError.value) && w.store == st)
  {
  }

  /** A write changes the action's own key and nothing else: other actions, other scopes and
      other cache prefixes keep their blobs. */
  lemma UpdateChangesOnlyItsKey(st: StoreState, validate: Digest -> Outcome<Error>, worker: string, ns: Namespace,
                                actionDigest: Option<Digest>, actionResult: Option<ActionResult>, k: Key)
    requires actionDigest.None? || k != Key(ns, actionDigest.value)
    ensures var w := UpdateActionResult(st, validate, worker, ns, actionDigest, actionResult);
            && w.store.faults == st.faults
            && (k in w.store.blobs <==> k in st.blobs)
            && (k in st.blobs ==> w.store.blobs[k] == st.blobs[k])
  {
  }

  /** The round trip: once a write succeeded, a read of the same action digest in the same scope
      returns the stamped result, with the written output files and directories unchanged, as
      long as the store answers honestly and every blob the existence check covers is stored. */
  lemma UpdateThenGet(st: StoreState, validate: Digest -> Outcome<Error>, worker: string, ns: Namespace,
                      d: Digest, ar: ActionResult)
    requires UpdateActionResult(st, validate, worker, ns, Some(d), Some(ar)).out.Success?
    requires ReadsFaithful(st.faults)
    requires OutputsPresent(UpdateActionResult(st, validate, worker, ns, Some(d), Some(ar)).store, ns, ar)
    ensures var st' := UpdateActionResult(st, validate, worker, ns, Some(d), Some(ar)).store;
            var got := GetActionResult(st', validate, ns, Some(d)).out;
            && got == Success(SetWorkerMetadata(ar, worker))
            && got.value.outputFiles == ar.outputFiles
            && got.value.outputDirectories == ar.outputDirectories
            && got.value.executionMetadata == Some(ExecutedActionMetadata(worker, map[]))
  {
    var stamped := SetWorkerMetadata(ar, worker);
    var st' := UpdateActionResult(st, validate, worker, ns, Some(d), Some(ar)).store;
    assert st'.blobs[Key(ns, d)] == EncodeActionResult(stamped);
    assert OutputsPresent(st', ns, stamped);
    ValidateComplete(st', ns, stamped);
  }

  /** The other half of the round trip: after a successful write whose result has a blob the
      existence check covers missing, a read of the same action digest is NotFound. */
  lemma UpdateThenGetMissingOutput(st: StoreState, validate: Digest -> Outcome<Error>, worker: string, ns: Namespace,
                                   d: Digest, ar: ActionResult)
    requires UpdateActionResult(st, validate, worker, ns, Some(d), Some(ar)).out.Success?
    requires !OutputsPresent(UpdateActionResult(st, validate, worker, ns, Some(d), Some(ar)).store, ns, ar)
    ensures GetActionResult(UpdateActionResult(st, validate, worker, ns, Some(d), Some(ar)).store, validate, ns, Some(d)).out
            == Failure(NotFound)
  {
    var stamped := SetWorkerMetadata(ar, worker);
    var st' := UpdateActionResult(st, validate, worker, ns, Some(d), Some(ar)).store;
    assert !OutputsPresent(st', ns, stamped);
    GetMissingOutputIsNotFound(st', validate, ns, d, stamped);
  }
}
