/**
 * Parts shared by both copies of ChecksumUploadNecessityCheckStrategy: the database
 * the checksum UDF runs in, seen as the outcomes of its statements, and the trace of
 * the statements the strategy issues.
 */
module ChecksumDatabase {

  import opened Wrappers
  import opened BucketErrors

  /** What installChecksumUdf meets: success, an SQLException, or no UDF script on the class path. */
  datatype InstallOutcome = Installed | InstallSqlFailure | ScriptResourceMissing

  /** What the SELECT of the UDF meets: the column value (null is possible) or an SQLException. */
  datatype QueryOutcome = Answer(checksum: Option<string>) | QuerySqlFailure

  datatype Database = Database(install: InstallOutcome, query: QueryOutcome, uninstallFails: bool)

  /** The statements the strategy sends, in order. */
  datatype SqlStep = InstallUdf | SelectChecksum(argument: string) | UninstallUdf

  datatype UdfRun = UdfRun(result: Result<Option<string>, Throwable>, trace: seq<SqlStep>)
}

/** com.exasol.bucketfs.uploadnecessity.ChecksumUploadNecessityCheckStrategy */
module ChecksumUploadNecessityCheckStrategy {

  import opened Wrappers
  import opened Bytes
  import opened JavaString
  import opened BucketErrors
  import opened Sha512
  import opened FileIo
  import opened ChecksumDatabase
  import Hex
  import ByteArrayToHexConverter

  const ONE_MEGABYTE := 1000000
  const UDF_SCHEMA := "BUCKET_FS_JAVA_HELPER"
  const UDF_NAME := "BUCKET_FS_CHECKSUM"
  const BUFFER_SIZE: nat := 1000

  /** getDirectory(parts): all but the last part joined with "/", one leading "/" removed. */
  function GetDirectory(parts: seq<string>): (d: string)
    requires |parts| >= 1
    ensures var joined := Join(parts[..|parts| - 1], PATH_SEPARATOR);
      if StartsWith(joined, "/") then d == joined[1..] else d == joined
  {
    var directory := Join(parts[..|parts| - 1], PATH_SEPARATOR);
    if StartsWith(directory, "/") then directory[1..] else directory
  }

  /**
   * For a name that does not end in "/", the directory that is listed and the file name that
   * is looked up in the listing put the name back together (up to the dropped leading "/").
   */
  lemma DirectoryAndFileNameReassemble(name: string)
    requires name != "" && name[|name| - 1] != PATH_SEPARATOR
    ensures var parts := SplitOnSlash(name);
      parts != [] && PATH_SEPARATOR !in parts[|parts| - 1]
      && (|parts| == 1 ==> GetDirectory(parts) == "" && name == parts[0])
      && (|parts| >= 2 ==> (name == GetDirectory(parts) + "/" + parts[|parts| - 1]
                            || name == "/" + GetDirectory(parts) + "/" + parts[|parts| - 1]))
  {
    SplitOnSlashJoin(name);
    SplitOnSlashFree(name);
    var parts := SplitOnSlash(name);
    if |parts| >= 2 {
      JoinSnoc(parts, PATH_SEPARATOR);
      var joined := Join(parts[..|parts| - 1], PATH_SEPARATOR);
      if StartsWith(joined, "/") {
        assert joined == "/" + joined[1..];
      }
    }
  }

  /** The local checksum the strategy compares: %02x of MessageDigest's signed digest bytes. */
  function LocalChecksumOf(hash: HashFunction, content: seq<uint8>): string {
    Hex.HexOf(SignedBytes(hash(content)))
  }

  /** What localSha512Checksum yields for a path: the checksum, or the IOException. */
  function LocalChecksum(fs: FileSystem, localPath: string, hash: HashFunction): Result<string, Throwable> {
    if localPath !in fs then Err(NO_SUCH_FILE)
    else if fs[localPath].Damaged() then Err(READ_FAILED)
    else Ok(LocalChecksumOf(hash, fs[localPath].content))
  }

  /**
   * localSha512Checksum: stream the file through a DigestInputStream with a 1000-byte
   * buffer, then render the digest. A missing or damaged file raises an IOException.
   */
  method LocalSha512Checksum(fs: FileSystem, localPath: string, hash: HashFunction)
    returns (r: Result<string, Throwable>)
    ensures r == LocalChecksum(fs, localPath, hash)
  {
    if localPath !in fs {
      return Err(NO_SUCH_FILE);
    }
    var inputStream := new InputFile(fs[localPath]);
    var checksumBuilder := new Accumulator(hash);
    var failure := FeedChunks(inputStream, checksumBuilder, BUFFER_SIZE);
    inputStream.Close();
    if failure.Some? {
      return Err(failure.value);
    }
    var hex := ByteArrayToHexConverter.ToHex(SignedBytes(checksumBuilder.Digest()));
    return Ok(hex);
  }

  function Failure(code: string, cause: Throwable): Throwable {
    BucketAccess(WithCause(Coded(code, []), cause))
  }

  const SQL_FAILURE: Throwable := SqlException

  /**
   * getSha512Checksum: install the UDF, run it on pathInUdf, and uninstall it in a
   * `finally` block once the install has succeeded. An exception from the uninstall
   * replaces whatever the query produced.
   */
  function GetSha512Checksum(db: Database, fileInBucketFs: string, pathInUdf: string): (run: UdfRun)
    ensures |run.trace| >= 1 && run.trace[0] == InstallUdf
    ensures UninstallUdf in run.trace <==> db.install.Installed?
    ensures db.install.Installed? ==> run.trace == [InstallUdf, SelectChecksum(pathInUdf), UninstallUdf]
    ensures run.result.Ok? <==> db.install.Installed? && db.query.Answer? && !db.uninstallFails
    ensures run.result.Ok? ==> run.result.value == db.query.checksum
    ensures db.install.InstallSqlFailure? ==> run.result == Err(Failure("E-BFSJ-14", SQL_FAILURE))
    ensures db.install.ScriptResourceMissing? ==>
      run.result == Err(IllegalStateException(Coded("F-BFSJ-13", [])))
    ensures db.install.Installed? && db.uninstallFails ==> run.result == Err(Failure("E-BFSJ-16", SQL_FAILURE))
    ensures db.install.Installed? && !db.uninstallFails && db.query.QuerySqlFailure? ==>
      run.result == Err(BucketAccess(WithCause(Coded("F-BFSJ-15", [fileInBucketFs]), SQL_FAILURE)))
  {
    match db.install
    case InstallSqlFailure => UdfRun(Err(Failure("E-BFSJ-14", SQL_FAILURE)), [InstallUdf])
    case ScriptResourceMissing => UdfRun(Err(IllegalStateException(Coded("F-BFSJ-13", []))), [InstallUdf])
    case Installed =>
      var body: Result<Option<string>, Throwable> :=
        match db.query
        case Answer(v) => Ok(v)
        case QuerySqlFailure =>
          Err(BucketAccess(WithCause(Coded("F-BFSJ-15", [fileInBucketFs]), SQL_FAILURE)));
      var result := if db.uninstallFails then Err(Failure("E-BFSJ-16", SQL_FAILURE)) else body;
      UdfRun(result, [InstallUdf, SelectChecksum(pathInUdf), UninstallUdf])
  }

  /** The E-BFSJ-17 wrapper of the catch clause around the whole check. */
  function CheckFailure(fullFileNameInBucketFs: string, cause: Throwable): Throwable {
    BucketAccess(WithCause(Coded("E-BFSJ-17", [fullFileNameInBucketFs]), cause))
  }

  /** The exceptions the catch clause wraps: BucketAccessException, NoSuchAlgorithmException, IOException. */
  predicate Caught(e: Throwable) {
    e.BucketAccess? || e.NoSuchAlgorithmException? || e.IoException?
  }

  /** The outcome of one check and the SQL statements it issued. */
  datatype Check = Check(result: Result<bool, Throwable>, trace: seq<SqlStep>)

  /** The world one check runs against. The bucket enters as the listing it returns per directory. */
  datatype Environment = Environment(
    fs: FileSystem,
    listContents: string -> Result<seq<string>, BucketAccessException>,
    db: Database,
    hash: HashFunction)

  /**
   * The decision rule: split the BucketFS name on "/", list the directory, and upload
   * unless the local file is over 1 MB, its name is listed, and the UDF's checksum equals
   * the local one. An empty split fails on parts[-1]; checked exceptions become E-BFSJ-17.
   */
  function Decision(env: Environment, file: string, fullFileNameInBucketFs: string, pathInUdf: string): Check {
    var parts := SplitOnSlash(fullFileNameInBucketFs);
    if parts == [] then Check(Err(ArrayIndexOutOfBounds(-1)), [])
    else
      var fileName := parts[|parts| - 1];
      var listing := env.listContents(GetDirectory(parts));
      if listing.Err? then Check(Err(CheckFailure(fullFileNameInBucketFs, BucketAccess(listing.error))), [])
      else if file !in env.fs then Check(Err(CheckFailure(fullFileNameInBucketFs, NO_SUCH_FILE)), [])
      else if !(env.fs[file].Size() > ONE_MEGABYTE && fileName in listing.value) then Check(Ok(true), [])
      else
        var local := LocalChecksum(env.fs, file, env.hash);
        if local.Err? then Check(Err(CheckFailure(fullFileNameInBucketFs, local.error)), [])
        else
          var remote := GetSha512Checksum(env.db, fullFileNameInBucketFs, pathInUdf);
          match remote.result
          case Err(e) =>
            Check(if Caught(e) then Err(CheckFailure(fullFileNameInBucketFs, e)) else Err(e), remote.trace)
          case Ok(checksum) => Check(Ok(checksum != Some(local.value)), remote.trace)
  }

  /**
   * isUploadNecessary(file, fullFileNameInBucketFs, bucket). getPathInUdf is not part of
   * this model, so its answer enters as pathInUdf.
   */
  method IsUploadNecessary(env: Environment, file: string, fullFileNameInBucketFs: string, pathInUdf: string)
    returns (r: Result<bool, Throwable>, trace: seq<SqlStep>)
    ensures Check(r, trace) == Decision(env, file, fullFileNameInBucketFs, pathInUdf)
  {
    trace := [];
    var parts := SplitOnSlash(fullFileNameInBucketFs);
    if parts == [] {
      return Err(ArrayIndexOutOfBounds(-1)), [];
    }
    var fileName := parts[|parts| - 1];
    var filesInBucketDirectory := env.listContents(GetDirectory(parts));
    if filesInBucketDirectory.Err? {
      return Err(CheckFailure(fullFileNameInBucketFs, BucketAccess(filesInBucketDirectory.error))), [];
    }
    if file !in env.fs {
      return Err(CheckFailure(fullFileNameInBucketFs, NO_SUCH_FILE)), [];
    }
    if env.fs[file].Size() > ONE_MEGABYTE && fileName in filesInBucketDirectory.value {
      var local := LocalSha512Checksum(env.fs, file, env.hash);
      if local.Err? {
        return Err(CheckFailure(fullFileNameInBucketFs, local.error)), [];
      }
      var remote := GetSha512Checksum(env.db, fullFileNameInBucketFs, pathInUdf);
      trace := remote.trace;
      match remote.result {
        case Err(e) =>
          r := if Caught(e) then Err(CheckFailure(fullFileNameInBucketFs, e)) else Err(e);
        case Ok(checksum) =>
          r := Ok(checksum != Some(local.value));
      }
    } else {
      r := Ok(true);
    }
  }

  /** A local file of at most 1 000 000 bytes is always uploaded, without touching the database. */
  lemma SmallFileAlwaysUploads(env: Environment, file: string, name: string, pathInUdf: string)
    requires SplitOnSlash(name) != []
    requires env.listContents(GetDirectory(SplitOnSlash(name))).Ok?
    requires file in env.fs && env.fs[file].Size() <= ONE_MEGABYTE
    ensures Decision(env, file, name, pathInUdf) == Check(Ok(true), [])
  {
  }

  /** A file whose name is missing from its directory listing is always uploaded. */
  lemma UnlistedFileUploads(env: Environment, file: string, name: string, pathInUdf: string)
    requires var parts := SplitOnSlash(name);
      parts != [] && env.listContents(GetDirectory(parts)).Ok?
      && parts[|parts| - 1] !in env.listContents(GetDirectory(parts)).value
    requires file in env.fs
    ensures Decision(env, file, name, pathInUdf) == Check(Ok(true), [])
  {
  }

  /**
   * The upload is skipped exactly when the file is over 1 MB, listed, readable, and the
   * UDF returns the same checksum as the local computation.
   */
  lemma SkipIffChecksumsMatch(env: Environment, file: string, name: string, pathInUdf: string)
    ensures Decision(env, file, name, pathInUdf).result == Ok(false) <==>
      var parts := SplitOnSlash(name);
      parts != [] && env.listContents(GetDirectory(parts)).Ok?
      && parts[|parts| - 1] in env.listContents(GetDirectory(parts)).value
      && file in env.fs && env.fs[file].Size() > ONE_MEGABYTE && !env.fs[file].Damaged()
      && GetSha512Checksum(env.db, name, pathInUdf).result
         == Ok(Some(LocalChecksumOf(env.hash, env.fs[file].content)))
  {
  }

  /**
   * Every checked failure surfaces as E-BFSJ-17 with the original exception as cause;
   * only the out-of-bounds access and the missing UDF resource escape unwrapped.
   */
  lemma FailuresAreWrapped(env: Environment, file: string, name: string, pathInUdf: string)
    ensures var r := Decision(env, file, name, pathInUdf).result;
      r.Err? ==>
        (r.error.BucketAccess? && CodeOf(r.error.e) == "E-BFSJ-17" && r.error.e.cause.Some?
         && Caught(r.error.e.cause.value))
        || r.error == ArrayIndexOutOfBounds(-1)
        || r.error == IllegalStateException(Coded("F-BFSJ-13", []))
  {
  }

  /** Once the UDF is installed it is uninstalled again, whichever way the query ends. */
  lemma UninstallFollowsInstall(env: Environment, file: string, name: string, pathInUdf: string)
    ensures var t := Decision(env, file, name, pathInUdf).trace;
      (UninstallUdf in t <==> InstallUdf in t && env.db.install.Installed?)
      && (InstallUdf in t ==> t[0] == InstallUdf)
  {
  }

  /**
   * The Java rendering of the local digest is the checksum UDF's hexdigest of the same
   * bytes, although one reads 1000 bytes at a time and the other 8192.
   */
  lemma LocalChecksumMatchesUdf(hash: HashFunction, content: seq<uint8>)
    ensures LocalChecksumOf(hash, content) == Hex.HexDigest(hash(content))
  {
    Hex.SignedHexIsHexDigest(hash(content));
  }

  /**
   * A large file that was uploaded unchanged needs no new upload: when the UDF hashes
   * the same bytes as the local file, the check answers false.
   */
  lemma UnchangedFileNeedsNoUpload(env: Environment, file: string, name: string, pathInUdf: string)
    requires var parts := SplitOnSlash(name);
      parts != [] && env.listContents(GetDirectory(parts)).Ok?
      && parts[|parts| - 1] in env.listContents(GetDirectory(parts)).value
    requires file in env.fs && env.fs[file].Size() > ONE_MEGABYTE && !env.fs[file].Damaged()
    requires env.db.install.Installed? && !env.db.uninstallFails
    requires env.db.query == Answer(Some(Hex.HexDigest(env.hash(env.fs[file].content))))
    ensures Decision(env, file, name, pathInUdf).result == Ok(false)
  {
    LocalChecksumMatchesUdf(env.hash, env.fs[file].content);
  }

  /** A name that splits to nothing, like "/", fails before anything is listed. */
  lemma SlashOnlyNameFails(env: Environment, file: string, pathInUdf: string)
    ensures Decision(env, file, "/", pathInUdf).result == Err(ArrayIndexOutOfBounds(-1))
  {
    assert RawPieces("/", Slash) == ["", ""];
  }
}

/** com.exasol.bucketfs.uploadnecassity.ChecksumUploadNecessityCheckStrategy, the older copy. */
module LegacyChecksumUploadNecessityCheckStrategy {

  import opened Wrappers
  import opened Bytes
  import opened JavaString
  import opened BucketErrors
  import opened Sha512
  import opened FileIo
  import opened ChecksumDatabase
  import Current = ChecksumUploadNecessityCheckStrategy
  import LegacyByteArrayToHexConverter

  const UDF_SCHEMA := "BUCKET_FS_JAVA_HELPER"
  const UDF_NAME := "bucketfs_checksum"

  /** The argument of the UDF call: the file's path as the database sees BucketFS. */
  function UdfPath(bucketFsName: string, bucketName: string, fileInBucketFs: string): string {
    "/buckets/" + bucketFsName + "/" + bucketName + "/" + fileInBucketFs
  }

  /**
   * localSha512Checksum of the older copy: the same 1000-byte read loop, rendered by this
   * package's own hex converter.
   */
  method LocalSha512Checksum(fs: FileSystem, localPath: string, hash: HashFunction)
    returns (r: Result<string, Throwable>)
    ensures r == Current.LocalChecksum(fs, localPath, hash)
  {
    if localPath !in fs {
      return Err(NO_SUCH_FILE);
    }
    var inputStream := new InputFile(fs[localPath]);
    var checksumBuilder := new Accumulator(hash);
    var failure := FeedChunks(inputStream, checksumBuilder, Current.BUFFER_SIZE);
    inputStream.Close();
    if failure.Some? {
      return Err(failure.value);
    }
    var hex := LegacyByteArrayToHexConverter.ToHex(SignedBytes(checksumBuilder.Digest()));
    return Ok(hex);
  }

  /**
   * isUploadNecessary of the older copy: the same rule, with the UDF argument built from
   * the bucket's names instead of asked from the bucket.
   */
  method IsUploadNecessary(env: Current.Environment, file: string, fullFileNameInBucketFs: string,
                           bucketFsName: string, bucketName: string)
    returns (r: Result<bool, Throwable>, trace: seq<SqlStep>)
    ensures Current.Check(r, trace)
         == Current.Decision(env, file, fullFileNameInBucketFs, UdfPath(bucketFsName, bucketName, fullFileNameInBucketFs))
  {
    trace := [];
    var parts := SplitOnSlash(fullFileNameInBucketFs);
    if parts == [] {
      return Err(ArrayIndexOutOfBounds(-1)), [];
    }
    var fileName := parts[|parts| - 1];
    var filesInBucketDirectory := env.listContents(Current.GetDirectory(parts));
    if filesInBucketDirectory.Err? {
      return Err(Current.CheckFailure(fullFileNameInBucketFs, BucketAccess(filesInBucketDirectory.error))), [];
    }
    if file !in env.fs {
      return Err(Current.CheckFailure(fullFileNameInBucketFs, NO_SUCH_FILE)), [];
    }
    if env.fs[file].Size() > Current.ONE_MEGABYTE && fileName in filesInBucketDirectory.value {
      var local := LocalSha512Checksum(env.fs, file, env.hash);
      if local.Err? {
        return Err(Current.CheckFailure(fullFileNameInBucketFs, local.error)), [];
      }
      var remote := Current.GetSha512Checksum(env.db, fullFileNameInBucketFs,
                                              UdfPath(bucketFsName, bucketName, fullFileNameInBucketFs));
      trace := remote.trace;
      match remote.result {
        case Err(e) =>
          r := if Current.Caught(e) then Err(Current.CheckFailure(fullFileNameInBucketFs, e)) else Err(e);
        case Ok(checksum) =>
          r := Ok(checksum != Some(local.value));
      }
    } else {
      r := Ok(true);
    }
  }

  /** When the UDF is queried, it is queried with exactly the /buckets/… path. */
  lemma QueriesUdfPath(env: Current.Environment, file: string, name: string, bucketFsName: string, bucketName: string)
    ensures var t := Current.Decision(env, file, name, UdfPath(bucketFsName, bucketName, name)).trace;
      forall k :: 0 <= k < |t| && t[k].SelectChecksum? ==>
        t[k].argument == "/buckets/" + bucketFsName + "/" + bucketName + "/" + name
  {
  }
}
