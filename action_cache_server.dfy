/** The action cache server: the RPC handlers and their existence validation, as methods of a
    server object over the shared store. Each method is proved to behave as the function of the
    same name in ActionCacheSpec, store calls included. */
module ActionCacheServer {
  import opened Wrappers
  import opened Status
  import opened RemoteExecution
  import opened DigestCache
  import Spec = ActionCacheSpec

  /** The argument of GetActionResult. */
  datatype GetActionResultRequest = GetActionResultRequest(actionDigest: Option<Digest>)

  /** The argument of UpdateActionResult; the handler stamps its result in place. */
  class UpdateActionResultRequest {
    var actionDigest: Option<Digest>
    var actionResult: Option<ActionResult>

    constructor (actionDigest: Option<Digest>, actionResult: Option<ActionResult>)
      ensures this.actionDigest == actionDigest && this.actionResult == actionResult
    {
      this.actionDigest := actionDigest;
      this.actionResult := actionResult;
    }
  }

  class ActionCacheServer {
    /** The shared store. */
    const cache: Cache
    /** The prefix of this server's view of the store. */
    const prefix: string
    /** The server's worker identifier, stamped on every result it stores. */
    const workerId: string
    /** Digest validation. */
    const validate: Digest -> Outcome<Error>

    /** The server, reading and writing `cache` through its "ac-" view. */
    constructor (cache: Cache, workerId: string, validate: Digest -> Outcome<Error>)
      ensures this.cache == cache && this.workerId == workerId && this.validate == validate
      ensures prefix == Spec.AcCachePrefix
    {
      this.cache := cache;
      this.prefix := Spec.AcCachePrefix;
      this.workerId := workerId;
      this.validate := validate;
    }

    /** The view of the store a caller in `scope` works in. */
    function Ns(scope: Scope): Namespace {
      Namespace(scope, prefix)
    }

    /** checkFilesExist: one batched ContainsMulti, then the scan of its answer in request order. */
    method CheckFilesExist(scope: Scope, digests: seq<Digest>) returns (r: Outcome<Error>)
      modifies cache`log
      ensures cache.State() == old(cache.State())
      ensures r == Spec.CheckFilesExist(cache.State(), Ns(scope), digests).out
      ensures cache.log == old(cache.log) + Spec.CheckFilesExist(cache.State(), Ns(scope), digests).calls
    {
      var answer := cache.ContainsMulti(Ns(scope), digests);
      if answer.Failure? {
        return Fail(answer.error);
      }
      var found := answer.value;
      var i := 0;
      while i < |digests|
        invariant 0 <= i <= |digests|
        invariant Spec.FilesVerdict(digests, found) == Spec.FilesVerdict(digests[i..], found)
        invariant cache.log == old(cache.log) + [CallContainsMulti(Ns(scope), digests)]
      {
        var d := digests[i];
        if d !in found {
          return Fail(Internal);
        }
        if !found[d] {
          return Fail(NotFound);
        }
        assert digests[i..][1..] == digests[i + 1..];
        i := i + 1;
      }
      r := Pass;
    }

    /** checkDirExists: collect the digests of the files that have one, then check them. */
    method CheckDirExists(scope: Scope, dir: Directory) returns (r: Outcome<Error>)
      modifies cache`log
      ensures cache.State() == old(cache.State())
      ensures r == Spec.CheckDirExists(cache.State(), Ns(scope), dir).out
      ensures cache.log == old(cache.log) + Spec.CheckDirExists(cache.State(), Ns(scope), dir).calls
    {
      var digests: seq<Digest> := [];
      var i := 0;
      while i < |dir.files|
        invariant 0 <= i <= |dir.files|
        invariant digests == Spec.DirDigests(dir.files[..i])
        invariant cache.log == old(cache.log)
      {
        var f := dir.files[i];
        DirDigestsSnoc(dir.files[..i], f);
        assert dir.files[..i + 1] == dir.files[..i] + [f];
        if f.digest.Some? {
          digests := digests + [f.digest.value];
        }
        i := i + 1;
      }
      assert dir.files[..i] == dir.files;
      r := CheckFilesExist(scope, digests);
    }

    /** validateActionResult: the output files that must be present, then each output directory. */
    method ValidateActionResult(scope: Scope, ar: ActionResult) returns (r: Outcome<Error>)
      modifies cache`log
      ensures cache.State() == old(cache.State())
      ensures r == Spec.ValidateActionResult(cache.State(), Ns(scope), ar).out
      ensures cache.log == old(cache.log) + Spec.ValidateActionResult(cache.State(), Ns(scope), ar).calls
    {
      ghost var st := cache.State();
      ghost var log0 := cache.log;
      var ns := Ns(scope);
      var outputFileDigests := CollectOutputFileDigests(ar.outputFiles);
      r := CheckFilesExist(scope, outputFileDigests);
      if r.Fail? {
        return;
      }
      ghost var calls := Spec.CheckFilesExist(st, ns, outputFileDigests).calls;

      var ods := ar.outputDirectories;
      var j := 0;
      while j < |ods|
        invariant 0 <= j <= |ods|
        invariant cache.State() == st && cache.log == log0 + calls
        invariant Spec.ValidateActionResult(st, ns, ar) == Spec.CheckOutputDirectories(st, ns, ods[j..]).After(calls)
      {
        assert ods[j..][1..] == ods[j + 1..];
        Spec.ThenAfter(Spec.CheckOutputDirectory(st, ns, ods[j]), Spec.CheckOutputDirectories(st, ns, ods[j + 1..]), calls);
        var dirCheck := CheckOutputDirectory(scope, ods[j]);
        LogStep(log0, calls, Spec.CheckOutputDirectory(st, ns, ods[j]).calls);
        calls := calls + Spec.CheckOutputDirectory(st, ns, ods[j]).calls;
        if dirCheck.Fail? {
          return dirCheck;
        }
        j := j + 1;
      }
      assert ods[j..] == [];
      r := Pass;
    }

    /** The first loop of validateActionResult: the digests of the output files whose blobs must
        be present, in output order. */
    method CollectOutputFileDigests(files: seq<OutputFile>) returns (digests: seq<Digest>)
      ensures digests == Spec.OutputFileDigests(files)
    {
      digests := [];
      var i := 0;
      while i < |files|
        invariant 0 <= i <= |files|
        invariant digests == Spec.OutputFileDigests(files[..i])
      {
        var f := files[i];
        OutputFileDigestsSnoc(files[..i], f);
        assert files[..i + 1] == files[..i] + [f];
        if |f.contents| > 0 && SizeBytes(f.digest) > 0 {
          digests := digests + [f.digest.value];
        }
        i := i + 1;
      }
      assert files[..i] == files;
    }

    /** The body of the loop over the output directories in validateActionResult: fetch and
        decode the Tree, check its root, then each child in order. */
    method CheckOutputDirectory(scope: Scope, od: OutputDirectory) returns (r: Outcome<Error>)
      modifies cache`log
      ensures cache.State() == old(cache.State())
      ensures r == Spec.CheckOutputDirectory(cache.State(), Ns(scope), od).out
      ensures cache.log == old(cache.log) + Spec.CheckOutputDirectory(cache.State(), Ns(scope), od).calls
    {
      ghost var st := cache.State();
      ghost var log0 := cache.log;
      var ns := Ns(scope);
      var blob := cache.Get(Key(ns, od.treeDigest));
      ghost var calls := [CallGet(Key(ns, od.treeDigest))];
      if blob.Failure? {
        return Fail(blob.error);
      }
      var tree := DecodeTree(blob.value);
      if tree.Failure? {
        return Fail(tree.error);
      }
      var t := tree.value;
      ghost var whole := Spec.CheckTree(st, ns, t).After(calls);
      assert whole == Spec.CheckOutputDirectory(st, ns, od);
      Spec.ThenAfter(Spec.CheckDirExists(st, ns, t.root), Spec.CheckDirsExist(st, ns, t.children), calls);
      var rootCheck := CheckDirExists(scope, t.root);
      LogStep(log0, calls, Spec.CheckDirExists(st, ns, t.root).calls);
      calls := calls + Spec.CheckDirExists(st, ns, t.root).calls;
      if rootCheck.Fail? {
        return rootCheck;
      }
      var children := t.children;
      var c := 0;
      while c < |children|
        invariant 0 <= c <= |children|
        invariant cache.State() == st && cache.log == log0 + calls
        invariant whole == Spec.CheckDirsExist(st, ns, children[c..]).After(calls)
      {
        assert children[c..][1..] == children[c + 1..];
        Spec.ThenAfter(Spec.CheckDirExists(st, ns, children[c]), Spec.CheckDirsExist(st, ns, children[c + 1..]), calls);
        var childCheck := CheckDirExists(scope, children[c]);
        LogStep(log0, calls, Spec.CheckDirExists(st, ns, children[c]).calls);
        calls := calls + Spec.CheckDirExists(st, ns, children[c]).calls;
        if childCheck.Fail? {
          return childCheck;
        }
        c := c + 1;
      }
      assert children[c..] == [];
      r := Pass;
    }

    /** The read RPC. */
    method GetActionResult(scope: Scope, req: GetActionResultRequest) returns (r: Result<ActionResult, Error>)
      modifies cache`log
      ensures cache.State() == old(cache.State())
      ensures r == Spec.GetActionResult(cache.State(), validate, Ns(scope), req.actionDigest).out
      ensures cache.log == old(cache.log) + Spec.GetActionResult(cache.State(), validate, Ns(scope), req.actionDigest).calls
    {
      if req.actionDigest.None? {
        return Failure(InvalidArgument);
      }
      var d := req.actionDigest.value;
      var valid := validate(d);
      if valid.Fail? {
        return Failure(valid.error);
      }
      var blob := cache.Get(Key(Ns(scope), d));
      if blob.Failure? {
        return Failure(NotFound);
      }
      var decoded := DecodeActionResult(blob.value);
      if decoded.Failure? {
        return Failure(decoded.error);
      }
      var check := ValidateActionResult(scope, decoded.value);
      LogStep(old(cache.log), [CallGet(Key(Ns(scope), d))],
              Spec.ValidateActionResult(cache.State(), Ns(scope), decoded.value).calls);
      if check.Fail? {
        return Failure(NotFound);
      }
      r := Success(decoded.value);
    }

    /** The write RPC: the request's result is stamped in place, then stored. */
    method UpdateActionResult(scope: Scope, req: UpdateActionResultRequest) returns (r: Result<ActionResult, Error>)
      modifies cache, req
      ensures var w := Spec.UpdateActionResult(old(cache.State()), validate, workerId, Ns(scope),
                                               old(req.actionDigest), old(req.actionResult));
              && r == w.out
              && cache.State() == w.store
              && cache.log == old(cache.log) + w.calls
      ensures req.actionDigest == old(req.actionDigest)
      ensures req.actionResult ==
                if old(req.actionDigest).Some? && old(req.actionResult).Some? && validate(old(req.actionDigest).value).Pass?
                then Some(Spec.SetWorkerMetadata(old(req.actionResult).value, workerId))
                else old(req.actionResult)
    {
      if req.actionDigest.None? {
        return Failure(InvalidArgument);
      }
      if req.actionResult.None? {
        return Failure(InvalidArgument);
      }
      var d := req.actionDigest.value;
      var valid := validate(d);
      if valid.Fail? {
        return Failure(valid.error);
      }
      req.actionResult := Some(Spec.SetWorkerMetadata(req.actionResult.value, workerId));
      var blob := EncodeActionResult(req.actionResult.value);
      var err := cache.Set(Key(Ns(scope), d), blob);
      if err.Some? {
        return Failure(err.value);
      }
      r := Success(req.actionResult.value);
    }
  }

  /** The store's log after a further step of a request. */
  lemma LogStep(log0: seq<Call>, calls: seq<Call>, more: seq<Call>)
    ensures log0 + calls + more == log0 + (calls + more)
  {
  }

  /** Appending a file appends its digest, if it has one. */
  lemma {:induction false} DirDigestsSnoc(files: seq<FileNode>, f: FileNode)
    ensures Spec.DirDigests(files + [f]) == Spec.DirDigests(files) + (if f.digest.Some? then [f.digest.value] else [])
  {
    if files != [] {
      assert (files + [f])[1..] == files[1..] + [f];
      DirDigestsSnoc(files[1..], f);
    }
  }

  /** Appending an output file appends its digest, if it must be present. */
  lemma {:induction false} OutputFileDigestsSnoc(files: seq<OutputFile>, f: OutputFile)
    ensures Spec.OutputFileDigests(files + [f]) ==
            Spec.OutputFileDigests(files) + (if Spec.MustExist(f) then [f.digest.value] else [])
  {
    if files != [] {
      assert (files + [f])[1..] == files[1..] + [f];
      OutputFileDigestsSnoc(files[1..], f);
    }
  }
}
