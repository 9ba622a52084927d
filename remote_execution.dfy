/** The messages of the remote execution protocol (build.bazel.remote.execution.v2) that the
    action cache reads and writes, and their encoding as blobs of the store. Only the fields
    the action cache looks at, or must leave untouched, are kept. */
module RemoteExecution {
  import opened Wrappers
  import opened Status

  /** A content address: the hash of a blob and its size in bytes (an int64 in the protocol). */
  datatype Digest = Digest(hash: string, sizeBytes: int)

  /** The size of a possibly-nil digest; a nil digest reads as size 0, as the protocol's getters do. */
  function SizeBytes(d: Option<Digest>): (size: int)
    ensures d.None? ==> size == 0
    ensures d.Some? ==> size == d.value.sizeBytes
  {
    match d
    case None => 0
    case Some(digest) => digest.sizeBytes
  }

  /** A file output of an action; `contents` holds the bytes when the server inlined them. */
  datatype OutputFile = OutputFile(path: string, digest: Option<Digest>, isExecutable: bool, contents: seq<bv8>)

  /** A directory output of an action, stored as a serialized Tree under `treeDigest`. */
  datatype OutputDirectory = OutputDirectory(path: string, treeDigest: Digest)

  /** An entry of a Directory naming a file by its digest (nil for a placeholder entry). */
  datatype FileNode = FileNode(name: string, digest: Option<Digest>, isExecutable: bool)

  /** An entry of a Directory naming a subdirectory by the digest of its own Directory message. */
  datatype DirectoryNode = DirectoryNode(name: string, digest: Option<Digest>)

  /** One directory level: its files and its subdirectories. A nil Directory message is the empty one. */
  datatype Directory = Directory(files: seq<FileNode>, directories: seq<DirectoryNode>)

  /** A directory hierarchy flattened to its root and every directory below it. */
  datatype Tree = Tree(root: Directory, children: seq<Directory>)

  /** Where and when an action ran; the stage timestamps are kept by stage name. */
  datatype ExecutedActionMetadata = ExecutedActionMetadata(worker: string, timestamps: map<string, int>)

  /** The cached outcome of running an action. */
  datatype ActionResult = ActionResult(
    outputFiles: seq<OutputFile>,
    outputDirectories: seq<OutputDirectory>,
    exitCode: int,
    stdoutDigest: Option<Digest>,
    stderrDigest: Option<Digest>,
    executionMetadata: Option<ExecutedActionMetadata>)

  /** The bytes held by the store, seen through what they encode. `OtherBlob` is anything that is
      the encoding of neither message (file contents, corrupt data). */
  datatype Blob = ActionResultBlob(result: ActionResult) | TreeBlob(tree: Tree) | OtherBlob(bytes: seq<bv8>)

  /** Decoding an ActionResult: succeeds exactly on the encoding of one. */
  function DecodeActionResult(b: Blob): (r: Result<ActionResult, Error>)
    ensures r.Success? <==> b.ActionResultBlob?
    ensures r.Failure? ==> r.error == DecodeError
  {
    match b
    case ActionResultBlob(ar) => Success(ar)
    case _ => Failure(DecodeError)
  }

  /** Decoding a Tree: succeeds exactly on the encoding of one. */
  function DecodeTree(b: Blob): (r: Result<Tree, Error>)
    ensures r.Success? <==> b.TreeBlob?
    ensures r.Failure? ==> r.error == DecodeError
  {
    match b
    case TreeBlob(t) => Success(t)
    case _ => Failure(DecodeError)
  }

  /** Encoding an ActionResult; decoding gives it back, and it does not decode as a Tree. */
  function EncodeActionResult(ar: ActionResult): (b: Blob)
    ensures DecodeActionResult(b) == Success(ar)
    ensures DecodeTree(b).Failure?
  {
    ActionResultBlob(ar)
  }

  /** Encoding a Tree; decoding gives it back, and it does not decode as an ActionResult. */
  function EncodeTree(t: Tree): (b: Blob)
    ensures DecodeTree(b) == Success(t)
    ensures DecodeActionResult(b).Failure?
  {
    TreeBlob(t)
  }
}
