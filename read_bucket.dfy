/**
 * com.exasol.bucketfs.ReadEnabledBucket: a bucket that lists and downloads. Its fields
 * are final, so the bucket is a value; HTTP exchanges are inputs.
 */
module ReadEnabledBucket {

  import opened Wrappers
  import opened JavaString
  import opened Bytes
  import opened BucketErrors
  import opened BucketPaths
  import opened BasicAuth
  import opened HttpExchange
  import opened FileIo

  const BUCKET_ROOT := ""

  /** The values the builder hands to the constructor. */
  datatype BucketConfig = BucketConfig(
    bucketFsName: string,
    bucketName: string,
    ipAddress: string,
    port: int,
    readPassword: string)

  /** "bucketfs/bucket": the two names around one separator. */
  function GetFullyQualifiedBucketName(config: BucketConfig): (name: string)
    ensures StartsWith(name, config.bucketFsName)
    ensures name[|config.bucketFsName|..] == [PATH_SEPARATOR] + config.bucketName
  {
    var name := config.bucketFsName + [PATH_SEPARATOR] + config.bucketName;
    assert name[..|config.bucketFsName|] == config.bucketFsName;
    name
  }

  /** Names without separators can be read back out of the qualified name. */
  lemma FullyQualifiedNameSplits(config: BucketConfig)
    requires config.bucketFsName != "" && config.bucketName != ""
    requires PATH_SEPARATOR !in config.bucketFsName && PATH_SEPARATOR !in config.bucketName
    ensures SplitOnSlash(GetFullyQualifiedBucketName(config)) == [config.bucketFsName, config.bucketName]
  {
    var a, b := config.bucketFsName, config.bucketName;
    RawPiecesNoSeparator(b);
    RawPiecesAfterName(a, [PATH_SEPARATOR] + b);
    assert ([PATH_SEPARATOR] + b)[1..] == b;
    assert a + [PATH_SEPARATOR] + b == a + ([PATH_SEPARATOR] + b);
  }

  lemma {:induction false} RawPiecesNoSeparator(s: string)
    requires s != "" && PATH_SEPARATOR !in s
    ensures RawPieces(s, Slash) == [s]
    decreases |s|
  {
    assert s[0] in s && !Slash.Matches(s[0]);
    if |s| > 1 {
      assert forall c :: c in s[1..] ==> c in s;
      RawPiecesNoSeparator(s[1..]);
      assert s == [s[0]] + s[1..];
    } else {
      assert s[1..] == [] && s == [s[0]];
      var rest := RawPieces(s[1..], Slash);
      assert rest == [""];
      assert [s[0]] + rest[0] == s && rest[1..] == [];
    }
  }

  /** A separator-free name followed by "/" and a rest is one piece, then the pieces of the rest. */
  lemma {:induction false} RawPiecesAfterName(a: string, rest: string)
    requires a != "" && PATH_SEPARATOR !in a && rest != [] && rest[0] == PATH_SEPARATOR
    ensures RawPieces(a + rest, Slash) == [a] + RawPieces(rest[1..], Slash)
    decreases |a|
  {
    assert (a + rest)[0] == a[0];
    assert (a + rest)[1..] == a[1..] + rest;
    assert a[0] in a && !Slash.Matches(a[0]);
    if |a| > 1 {
      assert forall c :: c in a[1..] ==> c in a;
      RawPiecesAfterName(a[1..], rest);
      var r := RawPieces(a[1..] + rest, Slash);
      assert r[0] == a[1..] && r[1..] == RawPieces(rest[1..], Slash);
      assert [a[0]] + a[1..] == a;
    } else {
      assert a[1..] + rest == rest && a == [a[0]];
      assert Slash.Matches(rest[0]);
      var r := RawPieces(rest, Slash);
      assert r == [""] + RawPieces(rest[1..], Slash);
      assert [a[0]] + r[0] == a && r[1..] == RawPieces(rest[1..], Slash);
    }
  }

  /** "http://" + ip + ":" + port + "/" + bucket + "/" + path without its leading "/". */
  function CreatePublicReadUri(config: BucketConfig, pathInBucket: string): (uri: string)
    ensures uri == BucketRootUri(config) + RemoveLeadingSeparator(pathInBucket)
  {
    "http://" + config.ipAddress + ":" + IntToString(config.port) + "/" + config.bucketName + "/"
      + RemoveLeadingSeparator(pathInBucket)
  }

  /** The URI of the bucket itself; the listing is always fetched from here. */
  function BucketRootUri(config: BucketConfig): string {
    "http://" + config.ipAddress + ":" + IntToString(config.port) + "/" + config.bucketName + "/"
  }

  /** A path with or without its leading "/" addresses the same object. */
  lemma PublicReadUriIgnoresLeadingSlash(config: BucketConfig, path: string)
    requires !StartsWith(path, "/")
    ensures CreatePublicReadUri(config, "/" + path) == CreatePublicReadUri(config, path)
    ensures CreatePublicReadUri(config, BUCKET_ROOT) == BucketRootUri(config)
  {
    assert StartsWith("/" + path, "/");
    assert ("/" + path)[1..] == path;
  }

  /** The first path component: everything before the first "/", without it. */
  function ExtractFirstPathComponent(path: string): (c: string)
    ensures PATH_SEPARATOR !in c
    ensures |c| <= |path| && c == path[..|c|]
    ensures PATH_SEPARATOR !in path ==> c == path
    ensures PATH_SEPARATOR in path ==> path[|c|] == PATH_SEPARATOR
  {
    if PATH_SEPARATOR in path then path[..IndexOf(path, PATH_SEPARATOR)] else path
  }

  /** One listing entry per item whose slash-stripped form starts with path, in item order. */
  function ContentEntries(items: seq<string>, path: string): (r: seq<string>)
    ensures |r| <= |items|
    ensures forall k :: 0 <= k < |r| ==> PATH_SEPARATOR !in r[k]
  {
    if items == [] then []
    else
      var init := ContentEntries(items[..|items| - 1], path);
      var relativeItem := RemoveLeadingSeparator(items[|items| - 1]);
      if StartsWith(relativeItem, path) then init + [ExtractFirstPathComponent(relativeItem[|path|..])]
      else init
  }

  /** The entry an item contributes, if it lies under path. */
  predicate Contributes(item: string, path: string, entry: string) {
    var relativeItem := RemoveLeadingSeparator(item);
    StartsWith(relativeItem, path) && entry == ExtractFirstPathComponent(relativeItem[|path|..])
  }

  /** The last item adds its entry, if any, after those of the items before it. */
  lemma ContentEntriesLast(items: seq<string>, path: string, entry: string)
    requires items != []
    ensures entry in ContentEntries(items, path)
        <==> entry in ContentEntries(items[..|items| - 1], path) || Contributes(items[|items| - 1], path, entry)
  {
  }

  /** Every listed entry comes from some item under path. */
  lemma {:induction false} ContentEntriesSound(items: seq<string>, path: string, entry: string)
    requires entry in ContentEntries(items, path)
    ensures exists i :: 0 <= i < |items| && Contributes(items[i], path, entry)
  {
    var init := items[..|items| - 1];
    ContentEntriesLast(items, path, entry);
    if entry in ContentEntries(init, path) {
      ContentEntriesSound(init, path, entry);
      var i :| 0 <= i < |init| && Contributes(init[i], path, entry);
      assert items[i] == init[i];
    } else {
      assert Contributes(items[|items| - 1], path, entry);
    }
  }

  /** Every item under path has its entry listed. */
  lemma {:induction false} ContentEntriesComplete(items: seq<string>, path: string, entry: string, i: nat)
    requires i < |items| && Contributes(items[i], path, entry)
    ensures entry in ContentEntries(items, path)
  {
    var init := items[..|items| - 1];
    ContentEntriesLast(items, path, entry);
    if i < |items| - 1 {
      assert init[i] == items[i];
      ContentEntriesComplete(init, path, entry, i);
    }
  }

  /** An entry is listed exactly when some item under path contributes it. */
  lemma ContentEntriesMembership(items: seq<string>, path: string, entry: string)
    ensures entry in ContentEntries(items, path) <==> exists i :: 0 <= i < |items| && Contributes(items[i], path, entry)
  {
    if entry in ContentEntries(items, path) {
      ContentEntriesSound(items, path, entry);
    }
    if exists i :: 0 <= i < |items| && Contributes(items[i], path, entry) {
      var i :| 0 <= i < |items| && Contributes(items[i], path, entry);
      ContentEntriesComplete(items, path, entry, i);
    }
  }

  /** Each item under path yields its own entry, so duplicates are kept and order follows the items. */
  lemma {:induction false} ContentEntriesAppend(items: seq<string>, more: seq<string>, path: string)
    ensures ContentEntries(items + more, path) == ContentEntries(items, path) + ContentEntries(more, path)
    decreases |more|
  {
    if more == [] {
      assert items + more == items;
    } else {
      var m0 := more[..|more| - 1];
      assert (items + more)[..|items + more| - 1] == items + m0;
      ContentEntriesAppend(items, m0, path);
    }
  }

  /** An item equal to the path itself yields the empty entry. */
  lemma ItemEqualToPathGivesEmptyEntry(path: string)
    requires !StartsWith(path, "/")
    ensures ContentEntries([path], path) == [""]
  {
    assert [path][..0] == [];
    assert path[..|path|] == path;
  }

  /** parseContentListResponseBody: split on whitespace runs, keep and cut the items under path. */
  method ParseContentListResponseBody(body: string, path: string) returns (contents: seq<string>)
    ensures contents == ContentEntries(SplitOnWhitespace(body), path)
  {
    var items := SplitOnWhitespace(body);
    contents := [];
    for i := 0 to |items|
      invariant contents == ContentEntries(items[..i], path)
    {
      assert items[..i + 1][..i] == items[..i];
      var relativeItem := RemoveLeadingSeparator(items[i]);
      if StartsWith(relativeItem, path) {
        contents := contents + [ExtractFirstPathComponent(relativeItem[|path|..])];
      }
    }
    assert items[..|items|] == items;
  }

  /** What listContents(path) yields for one exchange with the bucket root URI. */
  function Listing(config: BucketConfig, path: string, exchange: Exchange): Result<seq<string>, Throwable> {
    var uri := CreatePublicReadUri(config, BUCKET_ROOT);
    match exchange
    case Response(statusCode, body) =>
      if statusCode == 200 then Ok(ContentEntries(SplitOnWhitespace(body), RemoveLeadingSeparator(path)))
      else Err(BucketAccess(WithStatus("Unable to list contents of bucket.", statusCode, uri)))
    case IoError(detail) =>
      Err(BucketAccess(WithUriAndCause("Unable to list contents of bucket.", uri, IoException(detail))))
    case Interrupted => Err(InterruptedException)
  }

  /** The listing request: the bucket root, whatever path is asked for, and no credentials. */
  function ListingRequest(config: BucketConfig): (request: Request)
    ensures request.uri == BucketRootUri(config) && request.headers == []
  {
    PublicReadUriIgnoresLeadingSlash(config, "");
    Request("GET", CreatePublicReadUri(config, BUCKET_ROOT), [])
  }

  /** listContents(path) */
  method ListContents(config: BucketConfig, path: string, exchange: Exchange)
    returns (r: Result<seq<string>, Throwable>, request: Request)
    ensures request == ListingRequest(config)
    ensures r == Listing(config, path, exchange)
  {
    var uri := CreatePublicReadUri(config, BUCKET_ROOT);
    request := ListingRequest(config);
    match exchange {
      case Response(statusCode, body) =>
        if statusCode == 200 {
          var contents := ParseContentListResponseBody(body, RemoveLeadingSeparator(path));
          r := Ok(contents);
        } else {
          r := Err(BucketAccess(WithStatus("Unable to list contents of bucket.", statusCode, uri)));
        }
      case IoError(detail) =>
        r := Err(BucketAccess(WithUriAndCause("Unable to list contents of bucket.", uri, IoException(detail))));
      case Interrupted =>
        r := Err(InterruptedException);
    }
  }

  /** listContents() lists the bucket root. */
  method ListRootContents(config: BucketConfig, exchange: Exchange)
    returns (r: Result<seq<string>, Throwable>, request: Request)
    ensures request == ListingRequest(config)
    ensures r == Listing(config, BUCKET_ROOT, exchange)
  {
    r, request := ListContents(config, BUCKET_ROOT, exchange);
  }

  /** The listing fails exactly when the service does not answer 200, and says so. */
  lemma ListingFailures(config: BucketConfig, path: string, exchange: Exchange)
    ensures Listing(config, path, exchange).Ok? <==> exchange.Response? && exchange.statusCode == 200
    ensures exchange.Response? && exchange.statusCode != 200 ==>
      var e := Listing(config, path, exchange).error;
      e.BucketAccess? && e.e.GetStatusCode() == exchange.statusCode && e.e.GetUri() == Some(BucketRootUri(config))
  {
    PublicReadUriIgnoresLeadingSlash(config, "");
  }

  /**
   * A directory target (ending in "/") gets the local path's file name appended, rendered
   * as Java concatenation renders it ("null" when the path has none); a file target is kept.
   */
  function ExtendPathInBucketDownToFilename(localPath: string, pathInBucket: string): (p: string)
    ensures StartsWith(p, pathInBucket)
    ensures EndsWith(pathInBucket, "/") ==> p[|pathInBucket|..] == Show(FileName(localPath))
    ensures !EndsWith(pathInBucket, "/") ==> p == pathInBucket
  {
    var p := if EndsWith(pathInBucket, "/") then pathInBucket + Show(FileName(localPath)) else pathInBucket;
    assert p[..|pathInBucket|] == pathInBucket;
    p
  }

  /** A local file "dir/name" uploaded to the directory target "d/" lands at "d/name". */
  lemma ExtendedPathOfLocalFile(dir: string, name: string, pathInBucket: string)
    requires name != [] && '/' !in name
    requires EndsWith(pathInBucket, "/")
    ensures ExtendPathInBucketDownToFilename(dir + "/" + name, pathInBucket) == pathInBucket + name
  {
    FileNameOfJoin(dir, name);
  }

  /** With a non-empty local path the target is always a file path, never a directory. */
  lemma ExtendedPathIsFilePath(localPath: string, pathInBucket: string)
    requires localPath != ""
    requires pathInBucket != ""
    ensures !EndsWith(ExtendPathInBucketDownToFilename(localPath, pathInBucket), "/")
  {
    var p := ExtendPathInBucketDownToFilename(localPath, pathInBucket);
    if EndsWith(pathInBucket, "/") {
      var name := Show(FileName(localPath));
      assert p == pathInBucket + name;
      assert name != [] && name[|name| - 1] != '/';
      assert p[|p| - 1] == name[|name| - 1];
    }
  }

  /** checkHttpStatusCode: anything but 200 is an IOException E-BFSJ-1 carrying the status. */
  function CheckHttpStatusCode(statusCode: int): (r: Outcome<Throwable>)
    ensures r.Pass? <==> statusCode == 200
    ensures r.Fail? ==> r.error == IoException(Coded("E-BFSJ-1", [IntToString(statusCode)]))
  {
    if statusCode != 200 then Fail(IoException(Coded("E-BFSJ-1", [IntToString(statusCode)]))) else Pass
  }

  /** encodeBasicAuthForReading: Basic credentials of the read user "r". */
  function EncodeBasicAuthForReading(config: BucketConfig): (h: string)
    ensures |h| >= |BASIC_PREFIX| && h[..|BASIC_PREFIX|] == BASIC_PREFIX
    ensures Credentials(h[|BASIC_PREFIX|..]) == Some("r:" + config.readPassword)
  {
    assert "r" + ":" + config.readPassword == "r:" + config.readPassword;
    HeaderValue("r", config.readPassword)
  }

  /** The download request: GET of the object's URI with the read credentials. */
  function DownloadRequest(config: BucketConfig, pathInBucket: string): (request: Request)
    ensures request.verb == "GET" && request.uri == CreatePublicReadUri(config, pathInBucket)
    ensures request.headers == [Header(AUTHORIZATION, EncodeBasicAuthForReading(config))]
  {
    Request("GET", CreatePublicReadUri(config, pathInBucket), [Header(AUTHORIZATION, EncodeBasicAuthForReading(config))])
  }

  /** httpGet: the body of a 200 response; otherwise the IOException of the status check or of the call. */
  function HttpGet(exchange: Exchange): Result<string, Throwable> {
    match exchange
    case Response(statusCode, body) =>
      var check := CheckHttpStatusCode(statusCode);
      if check.Fail? then Err(check.error) else Ok(body)
    case IoError(detail) => Err(IoException(detail))
    case Interrupted => Err(InterruptedException)
  }

  /** downloadFileAsString: an IOException is wrapped with the object's URI; an interrupt passes through. */
  function DownloadFileAsString(config: BucketConfig, pathInBucket: string, exchange: Exchange): (r: Result<string, Throwable>)
    ensures r.Ok? <==> exchange.Response? && exchange.statusCode == 200
    ensures r.Ok? ==> r.value == exchange.body
    ensures exchange.Response? && exchange.statusCode != 200 ==>
      r == Err(BucketAccess(WithUriAndCause("Unable to download file from BucketFS as string.",
        CreatePublicReadUri(config, pathInBucket), IoException(Coded("E-BFSJ-1", [IntToString(exchange.statusCode)])))))
    ensures exchange.IoError? ==>
      r == Err(BucketAccess(WithUriAndCause("Unable to download file from BucketFS as string.",
        CreatePublicReadUri(config, pathInBucket), IoException(exchange.detail))))
    ensures exchange.Interrupted? ==> r == Err(InterruptedException)
  {
    match HttpGet(exchange)
    case Ok(content) => Ok(content)
    case Err(e) =>
      if e.IoException? then
        Err(BucketAccess(WithUriAndCause("Unable to download file from BucketFS as string.",
          CreatePublicReadUri(config, pathInBucket), e)))
      else Err(e)
  }

  /**
   * downloadFile: the body's bytes are written to the local path. `localWrite` is what
   * Files.write does with that path (a failure carries the IOException's detail). Every
   * IOException, from the request or from the write, is wrapped with the object's URI.
   */
  function DownloadFile(config: BucketConfig, pathInBucket: string, localPath: string, fs: FileSystem,
                        exchange: Exchange, localWrite: Outcome<Message>): (r: Result<FileSystem, Throwable>)
    ensures r.Ok? <==> exchange.Response? && exchange.statusCode == 200 && localWrite.Pass?
    ensures r.Ok? ==> localPath in r.value && r.value[localPath] == RegularFile(Utf8Encode(exchange.body), None)
    ensures r.Ok? ==> forall p :: p in fs && p != localPath ==> p in r.value && r.value[p] == fs[p]
    ensures r.Ok? ==> forall p :: p in r.value ==> p in fs || p == localPath
    ensures exchange.Response? && exchange.statusCode == 200 && localWrite.Fail? ==>
      r == Err(BucketAccess(WithUriAndCause("Unable to download file \"" + localPath + "\" from ",
        CreatePublicReadUri(config, pathInBucket), IoException(localWrite.error))))
    ensures exchange.Response? && exchange.statusCode != 200 ==>
      r == Err(BucketAccess(WithUriAndCause("Unable to download file \"" + localPath + "\" from ",
        CreatePublicReadUri(config, pathInBucket), IoException(Coded("E-BFSJ-1", [IntToString(exchange.statusCode)])))))
    ensures exchange.IoError? ==>
      r == Err(BucketAccess(WithUriAndCause("Unable to download file \"" + localPath + "\" from ",
        CreatePublicReadUri(config, pathInBucket), IoException(exchange.detail))))
    ensures exchange.Interrupted? ==> r == Err(InterruptedException)
  {
    var uri := CreatePublicReadUri(config, pathInBucket);
    var written := match HttpGet(exchange)
      case Ok(content) =>
        if localWrite.Pass? then Ok(fs[localPath := RegularFile(Utf8Encode(content), None)])
        else Err(IoException(localWrite.error))
      case Err(e) => Err(e);
    match written
    case Ok(files) => Ok(files)
    case Err(e) =>
      if e.IoException? then
        Err(BucketAccess(WithUriAndCause("Unable to download file \"" + localPath + "\" from ", uri, e)))
      else Err(e)
  }

}
