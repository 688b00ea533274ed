/**
 * com.exasol.bucketfs.ListingProvider: lists the whole entries of a bucket (or of the
 * service when no bucket is named) that start with a path, sorted.
 */
module ListingProvider {

  import opened Wrappers
  import opened JavaString
  import opened Streams
  import opened BucketErrors
  import opened BucketOperation
  import opened BucketPaths
  import opened HttpExchange
  import HttpRequestStatus

  const BUCKET_ROOT := ""
  const DEFAULT_PROTOCOL := "http"

  datatype Provider = Provider(protocol: string, host: Option<string>, port: int, bucketName: Option<string>)

  /** The service root, followed by the bucket name and "/" when a bucket is named. */
  function CreatePublicReadUri(provider: Provider): (uri: string)
    ensures StartsWith(uri, provider.protocol + "://" + Show(provider.host) + ":" + IntToString(provider.port) + "/")
    ensures provider.bucketName.None? ==>
      uri == provider.protocol + "://" + Show(provider.host) + ":" + IntToString(provider.port) + "/"
    ensures provider.bucketName.Some? ==> EndsWith(uri, "/" + provider.bucketName.value + "/")
  {
    var root := provider.protocol + "://" + Show(provider.host) + ":" + IntToString(provider.port) + "/";
    var suffix := if provider.bucketName.Some? then provider.bucketName.value + "/" else "";
    var uri := root + suffix;
    assert uri[..|root|] == root;
    assert provider.bucketName.Some? ==> uri[|uri| - |"/" + provider.bucketName.value + "/"|..] == "/" + suffix;
    uri
  }

  /** filter(listing, path): the whitespace tokens that start with the prefix, whole and sorted. */
  function FilterListing(listing: string, path: string): (r: seq<string>)
    ensures Sorted(r)
    ensures multiset(r) == multiset(Filter(SplitOnWhitespace(listing), e => StartsWith(e, RemoveLeadingSeparator(path))))
    ensures forall e :: e in r <==> e in SplitOnWhitespace(listing) && StartsWith(e, RemoveLeadingSeparator(path))
  {
    var prefix := RemoveLeadingSeparator(path);
    var kept := Filter(SplitOnWhitespace(listing), e => StartsWith(e, prefix));
    SortSorted(kept);
    var r := Sort(kept);
    assert forall e :: e in r <==> e in kept by {
      forall e ensures e in r <==> e in kept {
        assert e in r <==> e in multiset(r);
      }
    }
    r
  }

  function PathToBeListedNotFound(path: string): (e: BucketAccessException)
    ensures CodeOf(e) == "E-BFSJ-11" && e.cause.None? && e.GetUri().None?
  {
    Plain(Coded("E-BFSJ-11", [path]))
  }

  /** The unauthenticated GET to the read URI. */
  function ListingRequest(provider: Provider): (request: Request)
    ensures request.verb == "GET" && request.uri == CreatePublicReadUri(provider) && request.headers == []
  {
    Request("GET", CreatePublicReadUri(provider), [])
  }

  /**
   * listContents(path): the status is judged by HttpRequestStatus, transport failures
   * become E-BFSJ-5 and E-BFSJ-4, and an empty filtered listing is E-BFSJ-11. Without a
   * bucket name the path is ignored.
   */
  function ListContents(provider: Provider, path: string, exchange: Exchange): (r: Result<seq<string>, BucketAccessException>)
    ensures r.Ok? ==> r.value != [] && Sorted(r.value)
    ensures r.Ok? ==> exchange.Response? && exchange.statusCode == 200
    ensures var prefix := if provider.bucketName.None? then "" else RemoveLeadingSeparator(path);
      r.Ok? ==> forall e :: e in r.value <==> e in SplitOnWhitespace(exchange.body) && StartsWith(e, prefix)
    ensures var prefix := if provider.bucketName.None? then "" else RemoveLeadingSeparator(path);
      r.Ok? ==> multiset(r.value) == multiset(Filter(SplitOnWhitespace(exchange.body), e => StartsWith(e, prefix)))
    ensures exchange.Response? && exchange.statusCode != 200 ==>
      r == Err(HttpRequestStatus.Evaluate(CreatePublicReadUri(provider), List, exchange.statusCode).error)
    ensures exchange.IoError? ==>
      r == Err(DownloadIo(CreatePublicReadUri(provider), List.ToString(), IoException(exchange.detail)))
    ensures exchange.Interrupted? ==> r == Err(DownloadInterrupted(CreatePublicReadUri(provider), List.ToString()))
    ensures exchange.Response? && exchange.statusCode == 200 && r.Err? ==> r.error == PathToBeListedNotFound(path)
  {
    var uri := CreatePublicReadUri(provider);
    match exchange
    case Response(statusCode, body) =>
      var status := HttpRequestStatus.Evaluate(uri, List, statusCode);
      if status.Fail? then Err(status.error)
      else
        var list := FilterListing(body, if provider.bucketName.None? then "" else path);
        if list == [] then Err(PathToBeListedNotFound(path)) else Ok(list)
    case IoError(detail) => Err(DownloadIo(uri, List.ToString(), IoException(detail)))
    case Interrupted => Err(DownloadInterrupted(uri, List.ToString()))
  }

  /** listContents() lists the root: for a 200 answer, every token of the body, sorted. */
  lemma ListRootContents(provider: Provider, exchange: Exchange)
    requires exchange.Response? && exchange.statusCode == 200
    ensures var r := ListContents(provider, BUCKET_ROOT, exchange);
      var tokens := SplitOnWhitespace(exchange.body);
      (r.Ok? <==> tokens != []) && (r.Ok? ==> r.value == Sort(tokens))
  {
    var tokens := SplitOnWhitespace(exchange.body);
    var kept := Filter(tokens, e => StartsWith(e, RemoveLeadingSeparator(BUCKET_ROOT)));
    FilterAll(tokens, e => StartsWith(e, RemoveLeadingSeparator(BUCKET_ROOT)));
    assert kept == tokens;
    var list := FilterListing(exchange.body, BUCKET_ROOT);
    assert (if provider.bucketName.None? then "" else BUCKET_ROOT) == BUCKET_ROOT;
    SortSorted(tokens);
    SortedUnique(list, Sort(tokens));
  }

  /** Without a bucket name every path gives the same listing as the root. */
  lemma NoBucketIgnoresPath(provider: Provider, path: string, exchange: Exchange)
    requires provider.bucketName.None?
    ensures ListContents(provider, path, exchange).Ok? ==> ListContents(provider, path, exchange) == ListContents(provider, BUCKET_ROOT, exchange)
  {
  }

  /** ListingProvider.Builder: the protocol defaults to "http"; every other field starts unset. */
  class Builder {
    var protocol: string
    var host: Option<string>
    var port: int
    var bucketName: Option<string>

    constructor ()
      ensures protocol == DEFAULT_PROTOCOL && host == None && port == 0 && bucketName == None
    {
      protocol := DEFAULT_PROTOCOL;
      host := None;
      port := 0;
      bucketName := None;
    }

    method Protocol(protocol: string)
      modifies this
      ensures this.protocol == protocol
      ensures host == old(host) && port == old(port) && bucketName == old(bucketName)
    {
      this.protocol := protocol;
    }

    method BucketName(bucketName: string)
      modifies this
      ensures this.bucketName == Some(bucketName)
      ensures protocol == old(protocol) && host == old(host) && port == old(port)
    {
      this.bucketName := Some(bucketName);
    }

    method Host(host: string)
      modifies this
      ensures this.host == Some(host)
      ensures protocol == old(protocol) && port == old(port) && bucketName == old(bucketName)
    {
      this.host := Some(host);
    }

    method Port(port: int)
      modifies this
      ensures this.port == port
      ensures protocol == old(protocol) && host == old(host) && bucketName == old(bucketName)
    {
      this.port := port;
    }

    method Build() returns (provider: Provider)
      ensures provider == Provider(protocol, host, port, bucketName)
    {
      provider := Provider(protocol, host, port, bucketName);
    }
  }
}

/**
 * com.exasol.bucketfs.list.ListingRetriever: fetches a listing with read credentials and
 * returns its whitespace-separated tokens sorted.
 */
module ListingRetriever {

  import opened Wrappers
  import opened JavaString
  import opened Streams
  import opened BucketErrors
  import opened BucketOperation
  import opened BasicAuth
  import opened HttpExchange
  import HttpResponseEvaluator

  /** publicReadUri(protocol, host, port, suffix) */
  function PublicReadUri(protocol: string, host: string, port: int, suffix: string): (uri: string)
    ensures StartsWith(uri, protocol + "://" + host + ":")
    ensures EndsWith(uri, ":" + IntToString(port) + "/" + suffix)
  {
    var head := protocol + "://" + host;
    var tail := ":" + IntToString(port) + "/" + suffix;
    var uri := head + tail;
    assert uri[..|head| + 1] == head + ":";
    assert uri[|uri| - |tail|..] == tail;
    uri
  }

  /** "Basic " + Base64("r:" + readPassword) */
  function EncodeBasicAuth(readPassword: string): (h: string)
    ensures |h| >= |BASIC_PREFIX| && h[..|BASIC_PREFIX|] == BASIC_PREFIX
    ensures Credentials(h[|BASIC_PREFIX|..]) == Some("r:" + readPassword)
  {
    assert "r" + ":" + readPassword == "r:" + readPassword;
    HeaderValue("r", readPassword)
  }

  function ListingRequest(uri: string, readPassword: string): (request: Request)
    ensures request.verb == "GET" && request.uri == uri
    ensures request.headers == [Header(AUTHORIZATION, EncodeBasicAuth(readPassword))]
  {
    Request("GET", uri, [Header(AUTHORIZATION, EncodeBasicAuth(readPassword))])
  }

  /**
   * retrieve(uri, readPassword): for a 200 answer the sorted tokens of the body; other
   * statuses fail through HttpResponseEvaluator, transport failures as E-BFSJ-5 and E-BFSJ-4.
   */
  function Retrieve(uri: string, exchange: Exchange): (r: Result<seq<string>, BucketAccessException>)
    ensures r.Ok? <==> exchange.Response? && exchange.statusCode == 200
    ensures r.Ok? ==> Sorted(r.value) && multiset(r.value) == multiset(SplitOnWhitespace(exchange.body))
    ensures exchange.Response? && exchange.statusCode != 200 ==>
      r == Err(HttpResponseEvaluator.Evaluate(uri, List, exchange.statusCode).error)
    ensures exchange.IoError? ==> r == Err(DownloadIo(uri, List.ToString(), IoException(exchange.detail)))
    ensures exchange.Interrupted? ==> r == Err(DownloadInterrupted(uri, List.ToString()))
  {
    match exchange
    case Response(statusCode, body) =>
      var status := HttpResponseEvaluator.Evaluate(uri, List, statusCode);
      if status.Fail? then Err(status.error)
      else
        SortSorted(SplitOnWhitespace(body));
        Ok(Sort(SplitOnWhitespace(body)))
    case IoError(detail) => Err(DownloadIo(uri, List.ToString(), IoException(detail)))
    case Interrupted => Err(DownloadInterrupted(uri, List.ToString()))
  }

  /** The tokens are returned as a set: the order in the body does not matter. */
  lemma RetrieveIgnoresBodyOrder(uri: string, body1: string, body2: string)
    requires multiset(SplitOnWhitespace(body1)) == multiset(SplitOnWhitespace(body2))
    ensures Retrieve(uri, Response(200, body1)) == Retrieve(uri, Response(200, body2))
  {
    var r1, r2 := Retrieve(uri, Response(200, body1)), Retrieve(uri, Response(200, body2));
    SortedUnique(r1.value, r2.value);
  }
}

/**
 * com.exasol.bucketfs.list.BucketContentLister: the entries directly below (or, when
 * recursive, anywhere below) a path in a bucket, relative to that path.
 */
module BucketContentLister {

  import opened Wrappers
  import opened JavaString
  import opened Streams
  import opened BucketErrors
  import opened BucketPaths
  import opened HttpExchange
  import ListingRetriever

  /** extractFirstPathComponent: everything up to and including the first "/". */
  function ExtractFirstPathComponent(path: string): (c: string)
    ensures StartsWith(path, c)
    ensures PATH_SEPARATOR !in path ==> c == path
    ensures PATH_SEPARATOR in path ==>
      c != "" && c[|c| - 1] == PATH_SEPARATOR && PATH_SEPARATOR !in c[..|c| - 1]
  {
    var i := IndexOf(path, PATH_SEPARATOR);
    if i < 0 then path else path[..i + 1]
  }

  /** The part of an entry after the prefix, without one leading "/". */
  function Rest(prefix: string, entry: string): string
    requires StartsWith(entry, prefix)
  {
    RemoveLeadingSeparator(entry[|prefix|..])
  }

  function Shape(recursive: bool, rest: string): string {
    if recursive then rest else ExtractFirstPathComponent(rest)
  }

  /**
   * The stream before distinct(): keep the entries that start with the prefix, cut it
   * off, then shape each rest, in listing order.
   */
  function Trimmed(entries: seq<string>, prefix: string, recursive: bool): seq<string> {
    if entries == [] then []
    else
      (if StartsWith(entries[0], prefix) then [Shape(recursive, Rest(prefix, entries[0]))] else [])
      + Trimmed(entries[1..], prefix, recursive)
  }

  lemma {:induction false} TrimmedMembership(entries: seq<string>, prefix: string, recursive: bool, x: string)
    ensures x in Trimmed(entries, prefix, recursive)
      <==> exists e :: e in entries && StartsWith(e, prefix) && x == Shape(recursive, Rest(prefix, e))
  {
    if entries != [] {
      TrimmedMembership(entries[1..], prefix, recursive, x);
      assert forall e :: e in entries <==> e == entries[0] || e in entries[1..];
    }
  }

  /** The collected stream: distinct, in first-occurrence order. */
  function Contents(entries: seq<string>, path: string, recursive: bool): (r: seq<string>)
    ensures NoDuplicates(r)
    ensures forall x :: x in r <==> x in Trimmed(entries, RemoveLeadingSeparator(path), recursive)
  {
    Distinct(Trimmed(entries, RemoveLeadingSeparator(path), recursive))
  }

  /** A result is exactly the shaped rest of some entry that starts with the prefix. */
  lemma ContentsMembership(entries: seq<string>, path: string, recursive: bool, x: string)
    ensures var prefix := RemoveLeadingSeparator(path);
      x in Contents(entries, path, recursive)
      <==> exists e :: e in entries && StartsWith(e, prefix) && x == Shape(recursive, Rest(prefix, e))
  {
    TrimmedMembership(entries, RemoveLeadingSeparator(path), recursive, x);
  }

  /** In non-recursive mode a result has no "/" except possibly as its last character. */
  lemma NonRecursiveShape(entries: seq<string>, path: string, x: string)
    requires x in Contents(entries, path, false)
    ensures PATH_SEPARATOR !in x || (x[|x| - 1] == PATH_SEPARATOR && PATH_SEPARATOR !in x[..|x| - 1])
  {
    var prefix := RemoveLeadingSeparator(path);
    ContentsMembership(entries, path, false, x);
    var e :| e in entries && StartsWith(e, prefix) && x == Shape(false, Rest(prefix, e));
    var c := ExtractFirstPathComponent(Rest(prefix, e));
    assert x == c;
  }

  /** In recursive mode the results are the cut entries themselves. */
  lemma RecursiveKeepsRests(entries: seq<string>, path: string, e: string)
    requires e in entries && StartsWith(e, RemoveLeadingSeparator(path))
    ensures Rest(RemoveLeadingSeparator(path), e) in Contents(entries, path, true)
  {
    ContentsMembership(entries, path, true, Rest(RemoveLeadingSeparator(path), e));
  }

  /** A leading "/" on the path changes nothing. */
  lemma LeadingSlashIgnored(entries: seq<string>, path: string, recursive: bool)
    requires !StartsWith(path, "/")
    ensures Contents(entries, "/" + path, recursive) == Contents(entries, path, recursive)
  {
    assert RemoveLeadingSeparator("/" + path) == path;
  }

  /** distinct() keeps the order in which results first appear in the sorted listing. */
  lemma ContentsOrder(entries: seq<string>, path: string, recursive: bool, i: nat, j: nat)
    requires i < j < |Contents(entries, path, recursive)|
    ensures var t, c := Trimmed(entries, RemoveLeadingSeparator(path), recursive), Contents(entries, path, recursive);
      FirstIndex(t, c[i]) < FirstIndex(t, c[j])
  {
    DistinctOrder(Trimmed(entries, RemoveLeadingSeparator(path), recursive), i, j);
  }

  function PathToBeListedNotFound(path: string, bucketUri: string): (e: BucketAccessException)
    ensures CodeOf(e) == "E-BFSJ-11" && e.cause.None? && e.GetUri().None?
  {
    Plain(Coded("E-BFSJ-11", [path, bucketUri]))
  }

  /** Some entry of the listing lies under the path exactly when there is something to return. */
  lemma ContentsEmpty(entries: seq<string>, path: string, recursive: bool)
    ensures Contents(entries, path, recursive) != []
      <==> exists e :: e in entries && StartsWith(e, RemoveLeadingSeparator(path))
  {
    var prefix := RemoveLeadingSeparator(path);
    var list := Contents(entries, path, recursive);
    if exists e :: e in entries && StartsWith(e, prefix) {
      var e :| e in entries && StartsWith(e, prefix);
      ContentsMembership(entries, path, recursive, Shape(recursive, Rest(prefix, e)));
    }
    if list != [] {
      ContentsMembership(entries, path, recursive, list[0]);
    }
  }

  /**
   * retrieve(path, recursive): the retriever's failure, or the contents, which must not
   * be empty (E-BFSJ-11).
   */
  function Retrieve(bucketUri: string, path: string, recursive: bool, exchange: Exchange)
    : (r: Result<seq<string>, BucketAccessException>)
    ensures ListingRetriever.Retrieve(bucketUri, exchange).Err? ==> r == Err(ListingRetriever.Retrieve(bucketUri, exchange).error)
    ensures r.Ok? ==> r.value != [] && NoDuplicates(r.value)
    ensures ListingRetriever.Retrieve(bucketUri, exchange).Ok? ==>
      var entries := ListingRetriever.Retrieve(bucketUri, exchange).value;
      (r.Ok? <==> exists e :: e in entries && StartsWith(e, RemoveLeadingSeparator(path)))
      && (r.Err? ==> r.error == PathToBeListedNotFound(path, bucketUri))
    ensures r.Ok? ==>
      ListingRetriever.Retrieve(bucketUri, exchange).Ok?
      && r.value == Contents(ListingRetriever.Retrieve(bucketUri, exchange).value, path, recursive)
  {
    match ListingRetriever.Retrieve(bucketUri, exchange)
    case Err(e) => Err(e)
    case Ok(entries) =>
      var list := Contents(entries, path, recursive);
      ContentsEmpty(entries, path, recursive);
      if list == [] then Err(PathToBeListedNotFound(path, bucketUri)) else Ok(list)
  }

  /** The first component of "dir/name" is "dir/". */
  lemma ComponentOfNested(dir: string, name: string)
    requires PATH_SEPARATOR !in dir
    ensures ExtractFirstPathComponent(dir + "/" + name) == dir + "/"
  {
    var s := dir + "/" + name;
    assert s[|dir|] == PATH_SEPARATOR;
    assert s[..|dir|] == dir;
    assert s[..|dir| + 1] == dir + "/";
  }

  /** A name without "/" does not start with one. */
  lemma NoLeadingSeparator(name: string)
    requires PATH_SEPARATOR !in name
    ensures !StartsWith(name, "/")
  {
    if |name| > 0 {
      assert name[0] in name;
    }
  }

  /** One step of the stream: the head entry, then the rest of the listing. */
  lemma TrimmedCons(e: string, rest: seq<string>, prefix: string, recursive: bool)
    ensures Trimmed([e] + rest, prefix, recursive)
         == (if StartsWith(e, prefix) then [Shape(recursive, Rest(prefix, e))] else []) + Trimmed(rest, prefix, recursive)
  {
    assert ([e] + rest)[1..] == rest;
  }

  /** A nested entry under a non-empty directory name does not start with "/". */
  lemma NestedNoLeadingSeparator(dir: string, name: string)
    requires PATH_SEPARATOR !in dir && dir != ""
    ensures !StartsWith(dir + "/" + name, "/")
  {
    assert (dir + "/" + name)[0] == dir[0];
  }

  /** At the root a file entry is shown as it is. */
  lemma ShapeRootFile(name: string)
    requires PATH_SEPARATOR !in name
    ensures StartsWith(name, "") && Shape(false, Rest("", name)) == name
  {
    NoLeadingSeparator(name);
    assert name[0..] == name;
  }

  /** At the root a nested entry is shown as its directory, with the "/". */
  lemma ShapeRootNested(dir: string, name: string)
    requires PATH_SEPARATOR !in dir && dir != ""
    ensures StartsWith(dir + "/" + name, "") && Shape(false, Rest("", dir + "/" + name)) == dir + "/"
  {
    ComponentOfNested(dir, name);
    NestedNoLeadingSeparator(dir, name);
    assert (dir + "/" + name)[0..] == dir + "/" + name;
  }

  /** Two entries of one directory both show as that directory. */
  lemma TrimmedNestedPair(dir: string, f1: string, f2: string)
    requires PATH_SEPARATOR !in dir && dir != ""
    ensures Trimmed([dir + "/" + f1, dir + "/" + f2], "", false) == [dir + "/", dir + "/"]
  {
    var x3, x4 := dir + "/" + f1, dir + "/" + f2;
    ShapeRootNested(dir, f1);
    ShapeRootNested(dir, f2);
    TrimmedCons(x4, [], "", false);
    TrimmedCons(x3, [x4], "", false);
    assert [x4] == [x4] + [] && [x3, x4] == [x3] + [x4];
  }

  /** The stream works entry by entry, so it distributes over concatenated listings. */
  lemma {:induction false} TrimmedAppend(s: seq<string>, t: seq<string>, prefix: string, recursive: bool)
    ensures Trimmed(s + t, prefix, recursive) == Trimmed(s, prefix, recursive) + Trimmed(t, prefix, recursive)
  {
    if s != [] {
      TrimmedAppend(s[1..], t, prefix, recursive);
      assert (s + t)[1..] == s[1..] + t;
    } else {
      assert s + t == t;
    }
  }

  /** Two files in the root both show as themselves. */
  lemma TrimmedFilePair(a: string, b: string)
    requires PATH_SEPARATOR !in a && PATH_SEPARATOR !in b
    ensures Trimmed([a, b], "", false) == [a, b]
  {
    ShapeRootFile(a);
    ShapeRootFile(b);
    TrimmedCons(b, [], "", false);
    TrimmedCons(a, [b], "", false);
    assert [b] == [b] + [] && [a, b] == [a] + [b];
  }

  /** The stream before distinct() for the root of the bucket tests' listing. */
  lemma TrimmedAtRoot(a: string, b: string, dir: string, f1: string, f2: string)
    requires PATH_SEPARATOR !in a && PATH_SEPARATOR !in b && PATH_SEPARATOR !in dir && dir != ""
    ensures Trimmed([a, b, dir + "/" + f1, dir + "/" + f2], "", false) == [a, b, dir + "/", dir + "/"]
  {
    TrimmedNestedPair(dir, f1, f2);
    TrimmedFilePair(a, b);
    TrimmedAppend([a, b], [dir + "/" + f1, dir + "/" + f2], "", false);
    assert [a, b] + [dir + "/" + f1, dir + "/" + f2] == [a, b, dir + "/" + f1, dir + "/" + f2];
    assert [a, b] + [dir + "/", dir + "/"] == [a, b, dir + "/", dir + "/"];
  }

  /**
   * The bucket tests' listing, two files and a directory of two files, sorted: at the
   * root it shows the files and the directory once, with its "/".
   */
  lemma FilesAndDirectoryAtRoot(a: string, b: string, dir: string, f1: string, f2: string)
    requires PATH_SEPARATOR !in a && PATH_SEPARATOR !in b && PATH_SEPARATOR !in dir && dir != ""
    requires a != b
    ensures Contents([a, b, dir + "/" + f1, dir + "/" + f2], "", false) == [a, b, dir + "/"]
  {
    TrimmedAtRoot(a, b, dir, f1, f2);
    assert a != dir + "/" && b != dir + "/" by {
      assert (dir + "/")[|dir|] == PATH_SEPARATOR;
    }
    DistinctRepeat([a, b, dir + "/"], dir + "/");
    assert [a, b, dir + "/"] + [dir + "/"] == [a, b, dir + "/", dir + "/"];
  }

  /** Inside the directory it shows the two file names, without the directory. */
  lemma FilesInDirectory(a: string, b: string, dir: string, f1: string, f2: string)
    requires PATH_SEPARATOR !in a && PATH_SEPARATOR !in b && PATH_SEPARATOR !in dir && dir != ""
    requires PATH_SEPARATOR !in f1 && PATH_SEPARATOR !in f2 && f1 != f2
    ensures Contents([a, b, dir + "/" + f1, dir + "/" + f2], dir + "/", false) == [f1, f2]
  {
    var entries := [a, b, dir + "/" + f1, dir + "/" + f2];
    var prefix := dir + "/";
    NestedNoLeadingSeparator(dir, "");
    assert dir + "/" + "" == prefix;
    assert RemoveLeadingSeparator(prefix) == prefix;
    assert !StartsWith(a, prefix) && !StartsWith(b, prefix) by {
      assert prefix[|dir|] == PATH_SEPARATOR;
      if |a| > |dir| { assert a[|dir|] in a; }
      if |b| > |dir| { assert b[|dir|] in b; }
    }
    assert (dir + "/" + f1)[..|prefix|] == prefix && (dir + "/" + f2)[..|prefix|] == prefix;
    assert (dir + "/" + f1)[|prefix|..] == f1 && (dir + "/" + f2)[|prefix|..] == f2;
    NoLeadingSeparator(f1);
    NoLeadingSeparator(f2);
    assert Rest(prefix, dir + "/" + f1) == f1 && Rest(prefix, dir + "/" + f2) == f2;
    assert ExtractFirstPathComponent(f1) == f1 && ExtractFirstPathComponent(f2) == f2;
    assert Trimmed(entries, prefix, false) == [f1, f2] by {
      var x3, x4 := dir + "/" + f1, dir + "/" + f2;
      TrimmedCons(x4, [], prefix, false);
      TrimmedCons(x3, [x4], prefix, false);
      TrimmedCons(b, [x3, x4], prefix, false);
      TrimmedCons(a, [b, x3, x4], prefix, false);
      assert [x4] == [x4] + [] && [x3, x4] == [x3] + [x4] && [b, x3, x4] == [b] + [x3, x4];
      assert entries == [a] + [b, x3, x4];
    }
    DistinctOfNoDuplicates([f1, f2]);
  }

  lemma TrimmedSameName(name: string, child: string)
    requires PATH_SEPARATOR !in name && name != ""
    ensures Trimmed([name, name + "/" + child], "", false) == [name, name + "/"]
  {
    var x2 := name + "/" + child;
    ShapeRootFile(name);
    ShapeRootNested(name, child);
    TrimmedCons(x2, [], "", false);
    TrimmedCons(name, [x2], "", false);
    assert [x2] == [x2] + [] && [name, x2] == [name] + [x2];
  }

  /** A file and a directory of the same name both appear, the directory with its "/". */
  lemma FileAndDirectoryOfSameName(name: string, child: string)
    requires PATH_SEPARATOR !in name && name != ""
    ensures Contents([name, name + "/" + child], "", false) == [name, name + "/"]
  {
    TrimmedSameName(name, child);
    assert |name| != |name + "/"|;
    DistinctOfNoDuplicates([name, name + "/"]);
  }

  /** The concrete listing of the bucket tests, at the root. */
  lemma SampleListingAtRoot()
    ensures Contents(["a.txt", "b.txt", "dir/a1.txt", "dir/b1.txt"], "", false) == ["a.txt", "b.txt", "dir/"]
  {
    assert PATH_SEPARATOR !in "a.txt" && PATH_SEPARATOR !in "b.txt" && PATH_SEPARATOR !in "dir";
    assert "dir/a1.txt" == "dir" + "/" + "a1.txt" && "dir/b1.txt" == "dir" + "/" + "b1.txt";
    assert "dir/" == "dir" + "/";
    FilesAndDirectoryAtRoot("a.txt", "b.txt", "dir", "a1.txt", "b1.txt");
  }

  /** The concrete listing of the bucket tests, inside "dir/". */
  lemma SampleListingInDirectory()
    ensures Contents(["a.txt", "b.txt", "dir/a1.txt", "dir/b1.txt"], "dir/", false) == ["a1.txt", "b1.txt"]
  {
    assert PATH_SEPARATOR !in "a.txt" && PATH_SEPARATOR !in "b.txt" && PATH_SEPARATOR !in "dir";
    assert PATH_SEPARATOR !in "a1.txt" && PATH_SEPARATOR !in "b1.txt";
    assert "dir/a1.txt" == "dir" + "/" + "a1.txt" && "dir/b1.txt" == "dir" + "/" + "b1.txt";
    assert "dir/" == "dir" + "/";
    FilesInDirectory("a.txt", "b.txt", "dir", "a1.txt", "b1.txt");
  }
}

/**
 * com.exasol.bucketfs.list.ListingProvider. As written the class is declared
 * AbstractListingProvider while its constructor is named ListingProvider, so it
 * does not compile; the model follows the evident intent, an abstract base class that
 * BucketContentListing and BucketListing extend.
 */
module AbstractListingProvider {

  import opened Wrappers
  import opened JavaString
  import opened Streams
  import opened BucketErrors
  import opened BucketOperation
  import opened BasicAuth
  import opened HttpExchange
  import HttpResponseEvaluator
  import ListingRetriever

  datatype Service = Service(protocol: string, host: string, port: int)

  /** createPublicReadURI(suffix) */
  function CreatePublicReadUri(service: Service, suffix: string): (uri: string)
    ensures StartsWith(uri, service.protocol + "://" + service.host + ":")
    ensures EndsWith(uri, ":" + IntToString(service.port) + "/" + suffix)
  {
    var head := service.protocol + "://" + service.host;
    var tail := ":" + IntToString(service.port) + "/" + suffix;
    var uri := head + tail;
    assert uri[..|head| + 1] == head + ":";
    assert uri[|uri| - |tail|..] == tail;
    uri
  }

  function EncodeBasicAuth(readPassword: string): (h: string)
    ensures |h| >= |BASIC_PREFIX| && h[..|BASIC_PREFIX|] == BASIC_PREFIX
    ensures Credentials(h[|BASIC_PREFIX|..]) == Some("r:" + readPassword)
  {
    assert "r" + ":" + readPassword == "r:" + readPassword;
    HeaderValue("r", readPassword)
  }

  function ListingRequest(uri: string, readPassword: string): (request: Request)
    ensures request.verb == "GET" && request.uri == uri
    ensures request.headers == [Header(AUTHORIZATION, EncodeBasicAuth(readPassword))]
  {
    Request("GET", uri, [Header(AUTHORIZATION, EncodeBasicAuth(readPassword))])
  }

  /** listingStream(uri, readPassword): the sorted tokens of a 200 answer. */
  function ListingStream(uri: string, exchange: Exchange): (r: Result<seq<string>, BucketAccessException>)
    ensures r.Ok? <==> exchange.Response? && exchange.statusCode == 200
    ensures r.Ok? ==> Sorted(r.value) && multiset(r.value) == multiset(SplitOnWhitespace(exchange.body))
    ensures exchange.Response? && exchange.statusCode != 200 ==>
      r == Err(HttpResponseEvaluator.Evaluate(uri, List, exchange.statusCode).error)
    ensures exchange.IoError? ==> r == Err(DownloadIo(uri, List.ToString(), IoException(exchange.detail)))
    ensures exchange.Interrupted? ==> r == Err(DownloadInterrupted(uri, List.ToString()))
  {
    match exchange
    case Response(statusCode, body) =>
      var status := HttpResponseEvaluator.Evaluate(uri, List, statusCode);
      if status.Fail? then Err(status.error)
      else
        SortSorted(SplitOnWhitespace(body));
        Ok(Sort(SplitOnWhitespace(body)))
    case IoError(detail) => Err(DownloadIo(uri, List.ToString(), IoException(detail)))
    case Interrupted => Err(DownloadInterrupted(uri, List.ToString()))
  }

  /** The parallel copies agree: same URI text, same credentials, same outcome. */
  lemma SameAsListingRetriever(service: Service, suffix: string, readPassword: string, exchange: Exchange)
    ensures CreatePublicReadUri(service, suffix) == ListingRetriever.PublicReadUri(service.protocol, service.host, service.port, suffix)
    ensures EncodeBasicAuth(readPassword) == ListingRetriever.EncodeBasicAuth(readPassword)
    ensures ListingStream(CreatePublicReadUri(service, suffix), exchange)
         == ListingRetriever.Retrieve(CreatePublicReadUri(service, suffix), exchange)
  {
    var uri := CreatePublicReadUri(service, suffix);
    var a, b := ListingStream(uri, exchange), ListingRetriever.Retrieve(uri, exchange);
    if a.Ok? {
      SortedUnique(a.value, b.value);
    }
  }
}

/** com.exasol.bucketfs.list.BucketContentListing: the lister on the abstract provider. */
module BucketContentListing {

  import opened Wrappers
  import opened JavaString
  import opened Streams
  import opened BucketErrors
  import opened BucketPaths
  import opened HttpExchange
  import opened AbstractListingProvider
  import BucketContentLister

  datatype Listing = Listing(service: Service, bucketName: string, readPassword: string)

  /** The bucket's URI: the provider's URI with suffix bucketName + "/". */
  function BucketUri(listing: Listing): (uri: string)
    ensures EndsWith(uri, "/" + listing.bucketName + "/")
  {
    var uri := CreatePublicReadUri(listing.service, listing.bucketName + "/");
    assert EndsWith(uri, "/" + listing.bucketName + "/") by {
      var tail := ":" + IntToString(listing.service.port) + "/" + (listing.bucketName + "/");
      assert EndsWith(uri, tail);
      assert tail[|tail| - |"/" + listing.bucketName + "/"|..] == "/" + listing.bucketName + "/";
    }
    uri
  }

  function Request(listing: Listing): HttpExchange.Request {
    ListingRequest(BucketUri(listing), listing.readPassword)
  }

  /** retrieve(path, recursive): the same pipeline as BucketContentLister over the provider's stream. */
  function Retrieve(listing: Listing, path: string, recursive: bool, exchange: Exchange)
    : (r: Result<seq<string>, BucketAccessException>)
    ensures ListingStream(BucketUri(listing), exchange).Err? ==> r == Err(ListingStream(BucketUri(listing), exchange).error)
    ensures r.Ok? ==> r.value != [] && NoDuplicates(r.value)
    ensures ListingStream(BucketUri(listing), exchange).Ok? ==>
      var entries := ListingStream(BucketUri(listing), exchange).value;
      (r.Ok? <==> exists e :: e in entries && StartsWith(e, RemoveLeadingSeparator(path)))
      && (r.Err? ==> CodeOf(r.error) == "E-BFSJ-11" && r.error.message.args == [path, BucketUri(listing)])
    ensures r.Ok? ==>
      ListingStream(BucketUri(listing), exchange).Ok?
      && r.value == BucketContentLister.Contents(ListingStream(BucketUri(listing), exchange).value, path, recursive)
  {
    var uri := BucketUri(listing);
    match ListingStream(uri, exchange)
    case Err(e) => Err(e)
    case Ok(entries) =>
      var list := BucketContentLister.Contents(entries, path, recursive);
      BucketContentLister.ContentsEmpty(entries, path, recursive);
      if list == [] then Err(Plain(Coded("E-BFSJ-11", [path, uri]))) else Ok(list)
  }

  /** Both listers answer alike for the same bucket URI and exchange. */
  lemma SameAsBucketContentLister(listing: Listing, path: string, recursive: bool, exchange: Exchange)
    ensures Retrieve(listing, path, recursive, exchange) == BucketContentLister.Retrieve(BucketUri(listing), path, recursive, exchange)
  {
    SameAsListingRetriever(listing.service, listing.bucketName + "/", listing.readPassword, exchange);
  }
}

/** com.exasol.bucketfs.list.BucketService: the buckets of a service, through ListingRetriever. */
module BucketService {

  import opened Wrappers
  import opened JavaString
  import opened Streams
  import opened BucketErrors
  import opened HttpExchange
  import ListingRetriever

  /** The service is always asked with the empty read password. */
  function ServiceRequest(bucketServiceUri: string): HttpExchange.Request {
    ListingRetriever.ListingRequest(bucketServiceUri, "")
  }

  function NoBuckets(bucketServiceUri: string): (e: BucketAccessException)
    ensures CodeOf(e) == "E-BFSJ-30" && e.cause.None? && e.GetUri().None?
  {
    Plain(Coded("E-BFSJ-30", [bucketServiceUri]))
  }

  /** retrieve(): the retrieved list unchanged, unless it is empty (E-BFSJ-30). */
  function Retrieve(bucketServiceUri: string, exchange: Exchange): (r: Result<seq<string>, BucketAccessException>)
    ensures ListingRetriever.Retrieve(bucketServiceUri, exchange).Err? ==>
      r == Err(ListingRetriever.Retrieve(bucketServiceUri, exchange).error)
    ensures ListingRetriever.Retrieve(bucketServiceUri, exchange).Ok? ==>
      var list := ListingRetriever.Retrieve(bucketServiceUri, exchange).value;
      (list == [] ==> r == Err(NoBuckets(bucketServiceUri))) && (list != [] ==> r == Ok(list))
    ensures r.Ok? ==> (r.value != [] && Sorted(r.value) && multiset(r.value) == multiset(SplitOnWhitespace(exchange.body)))
  {
    match ListingRetriever.Retrieve(bucketServiceUri, exchange)
    case Err(e) => Err(e)
    case Ok(list) => if list == [] then Err(NoBuckets(bucketServiceUri)) else Ok(list)
  }

  /** An empty body is not an empty listing: Java's split gives one empty name. */
  lemma EmptyBodyGivesOneEmptyName(bucketServiceUri: string)
    ensures Retrieve(bucketServiceUri, Response(200, "")) == Ok([""])
  {
    var r := ListingRetriever.Retrieve(bucketServiceUri, Response(200, ""));
    assert |r.value| == 1 by {
      assert multiset(r.value) == multiset([""]);
    }
    assert r.value[0] in multiset(r.value);
  }

  /** A body of only whitespace splits into nothing, so the service reports E-BFSJ-30. */
  lemma BlankBodyHasNoBuckets(bucketServiceUri: string, c: char)
    requires IsRegexWhitespace(c)
    ensures Retrieve(bucketServiceUri, Response(200, [c])) == Err(NoBuckets(bucketServiceUri))
  {
    var raw := RawPieces([c], WhitespaceRun);
    assert raw == ["", ""] by {
      assert [c][1..] == [];
      assert RawPieces([], WhitespaceRun) == [""];
      assert WhitespaceRun.Matches(c);
    }
    assert NonEmpty(raw[1..]) == [] by {
      assert raw[1..] == [""];
      assert NonEmpty([""]) == [] + NonEmpty([]);
    }
    assert [raw[0]] + NonEmpty(raw[1..]) == [""];
    assert DropTrailingEmpty([""]) == DropTrailingEmpty([""][..0]);
    assert SplitOnWhitespace([c]) == [];
    var r := ListingRetriever.Retrieve(bucketServiceUri, Response(200, [c]));
    assert |r.value| == |multiset(r.value)|;
  }
}

/** com.exasol.bucketfs.list.BucketListing: the buckets of a service, on the abstract provider. */
module BucketListing {

  import opened Wrappers
  import opened JavaString
  import opened Streams
  import opened BucketErrors
  import opened HttpExchange
  import opened AbstractListingProvider

  /** The service root: the provider's URI with an empty suffix. */
  function ServiceUri(service: Service): (uri: string)
    ensures EndsWith(uri, ":" + IntToString(service.port) + "/")
  {
    var uri := CreatePublicReadUri(service, "");
    assert ":" + IntToString(service.port) + "/" + "" == ":" + IntToString(service.port) + "/";
    uri
  }

  function ServiceRequest(service: Service): HttpExchange.Request {
    ListingRequest(ServiceUri(service), "")
  }

  /** retrieve(): the sorted tokens unchanged, unless there are none (E-BFSJ-30). */
  function Retrieve(service: Service, exchange: Exchange): (r: Result<seq<string>, BucketAccessException>)
    ensures ListingStream(ServiceUri(service), exchange).Err? ==> r == Err(ListingStream(ServiceUri(service), exchange).error)
    ensures ListingStream(ServiceUri(service), exchange).Ok? ==>
      var list := ListingStream(ServiceUri(service), exchange).value;
      (list == [] ==> r.Err? && CodeOf(r.error) == "E-BFSJ-30" && r.error.message.args == [ServiceUri(service)])
      && (list != [] ==> r == Ok(list))
    ensures r.Ok? ==> (r.value != [] && Sorted(r.value) && multiset(r.value) == multiset(SplitOnWhitespace(exchange.body)))
  {
    var uri := ServiceUri(service);
    match ListingStream(uri, exchange)
    case Err(e) => Err(e)
    case Ok(list) => if list == [] then Err(Plain(Coded("E-BFSJ-30", [uri]))) else Ok(list)
  }
}
