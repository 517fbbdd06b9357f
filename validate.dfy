/** Checking a `local:` destination before the bot writes into it: the path
    must be absolute, and either name a writable directory or not exist yet
    under a writable parent directory. The filesystem and the path helpers
    are parameters, so the model states which answers lead to which result. */
module LocalPathValidation {
  import opened Text

  /** The three read-only filesystem queries: `os.path.exists`,
      `os.path.isdir` and `os.access(_, W_OK)`. */
  datatype FileSystem = FileSystem(
    pathExists: string -> bool,
    isDir: string -> bool,
    writable: string -> bool)

  /** `os.path.normpath`, `os.path.abspath` and `os.path.dirname`. */
  datatype PathOps = PathOps(
    normpath: string -> string,
    abspath: string -> string,
    dirname: string -> string)

  /** `posixpath.isabs`: the path starts with a slash. */
  predicate IsAbs(p: string) { StartsWith(p, "/") }

  /** Why a path was refused, with the path the message names. */
  datatype Failure =
    | EmptyPath
    | RelativePath(path: string)
    | ParentMissing(parent: string)
    | ParentNotDirectory(parent: string)
    | ParentNotWritable(parent: string)
    | NotDirectory(path: string)
    | NotWritable(path: string)

  datatype Outcome = Valid | Invalid(failure: Failure)

  /** The error message the bot shows for each failure. */
  function Message(f: Failure): (msg: string)
    ensures |msg| > 0
  {
    match f
    case EmptyPath => "Empty path provided"
    case RelativePath(p) => "Path must be absolute, got relative path: " + p
    case ParentMissing(d) => "Parent directory does not exist: " + d
    case ParentNotDirectory(d) => "Parent path is not a directory: " + d
    case ParentNotWritable(d) => "Parent directory is not writable: " + d
    case NotDirectory(a) => "Path exists but is not a directory: " + a
    case NotWritable(a) => "Directory is not writable: " + a
  }

  /** `abspath(normpath(path))` */
  function Normalised(ops: PathOps, path: string): string {
    ops.abspath(ops.normpath(path))
  }

  /** `d` is an existing directory the bot may write into. */
  predicate WritableDirectory(fs: FileSystem, d: string) {
    fs.pathExists(d) && fs.isDir(d) && fs.writable(d)
  }

  /** The cascade of early returns, in the order the checks are made. */
  function Check(fs: FileSystem, ops: PathOps, path: string): (r: Outcome)
    ensures r.Valid? ==> IsAbs(path)
  {
    if path == [] then Invalid(EmptyPath)
    else if !IsAbs(path) then Invalid(RelativePath(path))
    else
      var a := Normalised(ops, path);
      if !fs.pathExists(a) then
        var d := ops.dirname(a);
        if !fs.pathExists(d) then Invalid(ParentMissing(d))
        else if !fs.isDir(d) then Invalid(ParentNotDirectory(d))
        else if !fs.writable(d) then Invalid(ParentNotWritable(d))
        else Valid
      else if !fs.isDir(a) then Invalid(NotDirectory(a))
      else if !fs.writable(a) then Invalid(NotWritable(a))
      else Valid
  }

  /** `validate_local_path`: `(True, "")` or `(False, message)`. */
  function ValidateLocalPath(fs: FileSystem, ops: PathOps, path: string): (r: (bool, string))
    ensures r.0 <==> r.1 == []
    ensures path == [] ==> r == (false, "Empty path provided")
  {
    match Check(fs, ops, path)
    case Valid => (true, [])
    case Invalid(f) => (false, Message(f))
  }

  /** Empty and relative paths are refused before any filesystem query or
      path helper is consulted: the answer is the same on every filesystem. */
  lemma RefusedBeforeFilesystem(fs1: FileSystem, ops1: PathOps, fs2: FileSystem, ops2: PathOps, path: string)
    requires !IsAbs(path)
    ensures ValidateLocalPath(fs1, ops1, path) == ValidateLocalPath(fs2, ops2, path)
    ensures !ValidateLocalPath(fs1, ops1, path).0
    ensures path != [] ==>
      ValidateLocalPath(fs1, ops1, path).1 == "Path must be absolute, got relative path: " + path
  {
  }

  /** Only the answers about the normalised path and its parent matter. */
  lemma OnlyPathAndParentQueried(fs1: FileSystem, fs2: FileSystem, ops: PathOps, path: string)
    requires
      var a := Normalised(ops, path);
      var d := ops.dirname(a);
      && fs1.pathExists(a) == fs2.pathExists(a) && fs1.isDir(a) == fs2.isDir(a)
      && fs1.writable(a) == fs2.writable(a)
      && fs1.pathExists(d) == fs2.pathExists(d) && fs1.isDir(d) == fs2.isDir(d)
      && fs1.writable(d) == fs2.writable(d)
    ensures ValidateLocalPath(fs1, ops, path) == ValidateLocalPath(fs2, ops, path)
  {
  }

  /** A path is accepted exactly when it is absolute and its normalised form
      is a writable directory, or does not exist yet inside one. */
  lemma ValidExactly(fs: FileSystem, ops: PathOps, path: string)
    ensures ValidateLocalPath(fs, ops, path) == (true, []) <==>
      var a := Normalised(ops, path);
      && IsAbs(path)
      && (WritableDirectory(fs, a) || (!fs.pathExists(a) && WritableDirectory(fs, ops.dirname(a))))
  {
  }

  /** Which failure is reported, and so the order of the checks: the
      parent is examined only when the path does not exist, and each check
      is reached only when the ones before it passed. */
  lemma FailureOrder(fs: FileSystem, ops: PathOps, path: string)
    ensures
      var a := Normalised(ops, path);
      var d := ops.dirname(a);
      var r := Check(fs, ops, path);
      && (r == Invalid(EmptyPath) <==> path == [])
      && (r == Invalid(RelativePath(path)) <==> path != [] && !IsAbs(path))
      && (r == Invalid(ParentMissing(d)) <==>
            IsAbs(path) && !fs.pathExists(a) && !fs.pathExists(d))
      && (r == Invalid(ParentNotDirectory(d)) <==>
            IsAbs(path) && !fs.pathExists(a) && fs.pathExists(d) && !fs.isDir(d))
      && (r == Invalid(ParentNotWritable(d)) <==>
            IsAbs(path) && !fs.pathExists(a) && fs.pathExists(d) && fs.isDir(d) && !fs.writable(d))
      && (r == Invalid(NotDirectory(a)) <==>
            IsAbs(path) && fs.pathExists(a) && !fs.isDir(a))
      && (r == Invalid(NotWritable(a)) <==>
            IsAbs(path) && fs.pathExists(a) && fs.isDir(a) && !fs.writable(a))
  {
  }
}
