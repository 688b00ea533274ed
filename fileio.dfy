/**
 * Local files as the checksum code reads them: a path either names a regular file or
 * does not exist. A file may be damaged at one byte, so that any read covering that byte
 * raises an I/O error (the device failing mid-file).
 */
module FileIo {

  import opened Wrappers
  import opened Bytes
  import opened BucketErrors
  import opened Sha512

  datatype FileEntry = RegularFile(content: seq<uint8>, failsAt: Option<nat>) {
    /** Files.size */
    function Size(): nat { |content| }

    /** Whether some read of the file raises before its end is reached. */
    predicate Damaged() { failsAt.Some? && failsAt.value < |content| }
  }

  type FileSystem = map<string, FileEntry>

  /** The path without its trailing separators, as a Unix java.nio path keeps it. */
  function StripTrailingSeparators(path: string): (s: string)
    ensures |s| <= |path| && s == path[..|s|]
    ensures s == [] || s[|s| - 1] != '/'
    ensures forall i :: |s| <= i < |path| ==> path[i] == '/'
    decreases |path|
  {
    if path != [] && path[|path| - 1] == '/' then
      var shorter := path[..|path| - 1];
      var s := StripTrailingSeparators(shorter);
      assert shorter[..|s|] == path[..|s|];
      s
    else path
  }

  /** The characters after the last separator. */
  function LastName(s: string): (n: string)
    ensures '/' !in n
    ensures |n| <= |s| && n == s[|s| - |n|..]
    ensures |n| < |s| ==> s[|s| - |n| - 1] == '/'
    decreases |s|
  {
    if s == [] || s[|s| - 1] == '/' then []
    else
      var shorter := s[..|s| - 1];
      var n := LastName(shorter);
      assert shorter[|shorter| - |n|..] + [s[|s| - 1]] == s[|s| - |n| - 1..];
      n + [s[|s| - 1]]
  }

  /**
   * Path.getFileName(): the last name of the path, which is null for a path made of
   * separators only (the root). The empty path is its own file name.
   */
  function FileName(path: string): (n: Option<string>)
    ensures n.None? <==> path != [] && forall i :: 0 <= i < |path| ==> path[i] == '/'
    ensures n.Some? ==> '/' !in n.value
    ensures n.Some? && path != [] ==> n.value != []
  {
    var s := StripTrailingSeparators(path);
    assert s != [] ==> s[|s| - 1] == path[|s| - 1];
    if path != [] && s == [] then None
    else Some(LastName(s))
  }

  /** A name without separators is the file name of itself, of "dir/name" and of "dir/name/". */
  lemma FileNameOfJoin(dir: string, name: string)
    requires name != [] && '/' !in name
    ensures FileName(name) == Some(name)
    ensures FileName(dir + "/" + name) == Some(name)
    ensures FileName(dir + "/" + name + "/") == Some(name)
  {
    LastNameAfterSeparator([], name);
    assert [] + name == name;
    var p := dir + "/" + name;
    assert p == (dir + "/") + name;
    LastNameAfterSeparator(dir + "/", name);
    var q := p + "/";
    assert q[..|q| - 1] == p;
    assert StripTrailingSeparators(q) == StripTrailingSeparators(p);
  }

  /** A character other than a separator extends the last name. */
  lemma LastNameOfSnoc(s: string, c: char)
    requires c != '/'
    ensures LastName(s + [c]) == LastName(s) + [c]
  {
    assert (s + [c])[..|s|] == s;
  }

  /** After a separator (or at the start), the last name is everything that follows it. */
  lemma {:induction false} LastNameAfterSeparator(prefix: string, name: string)
    requires '/' !in name
    requires prefix == [] || prefix[|prefix| - 1] == '/'
    ensures LastName(prefix + name) == name
    decreases |name|
  {
    if name == [] {
      assert prefix + name == prefix;
    } else {
      var front := name[..|name| - 1];
      var last := name[|name| - 1];
      assert prefix + name == (prefix + front) + [last] by {
        assert name == front + [last];
      }
      assert last != '/' by {
        assert last in name;
      }
      LastNameAfterSeparator(prefix, front);
      LastNameOfSnoc(prefix + front, last);
      assert front + [name[|name| - 1]] == name;
    }
  }


  /** The exception opening a path that does not exist raises. */
  const NO_SUCH_FILE: Throwable := IoException(Text("no such file"))

  /** The exception a read raises on the damaged byte. */
  const READ_FAILED: Throwable := IoException(Text("read failed"))

  function Min(a: int, b: int): int { if a <= b then a else b }

  /** The successive reads of a read loop with an n-byte buffer over content. */
  function Chunks(content: seq<uint8>, n: nat): (r: seq<seq<uint8>>)
    requires n > 0
    decreases |content|
  {
    if content == [] then []
    else [content[..Min(n, |content|)]] + Chunks(content[Min(n, |content|)..], n)
  }

  /** The chunks, concatenated in order, are the content: no gap, overlap or reordering. */
  lemma {:induction false} ChunksFlatten(content: seq<uint8>, n: nat)
    requires n > 0
    ensures Flatten(Chunks(content, n)) == content
    decreases |content|
  {
    if content != [] {
      var k := Min(n, |content|);
      ChunksFlatten(content[k..], n);
      assert content == content[..k] + content[k..];
    }
  }

  /** Every chunk is non-empty and at most the buffer size. */
  lemma {:induction false} ChunksBounded(content: seq<uint8>, n: nat)
    requires n > 0
    ensures forall i :: 0 <= i < |Chunks(content, n)| ==> 0 < |Chunks(content, n)[i]| <= n
    decreases |content|
  {
    if content != [] {
      ChunksBounded(content[Min(n, |content|)..], n);
    }
  }

  /** An empty file makes no update call at all. */
  lemma ChunksOfEmpty(n: nat)
    requires n > 0
    ensures Chunks([], n) == []
  {
  }

  /** The bytes hashed do not depend on the buffer size, so neither does the digest. */
  lemma ChunkingInvariant(content: seq<uint8>, n: nat, m: nat, hash: HashFunction)
    requires n > 0 && m > 0
    ensures hash(Flatten(Chunks(content, n))) == hash(Flatten(Chunks(content, m)))
  {
    ChunksFlatten(content, n);
    ChunksFlatten(content, m);
  }

  /** A file opened for binary reading, with its read position. */
  class InputFile {
    const content: seq<uint8>
    const failsAt: Option<nat>
    var pos: nat
    var closed: bool

    ghost predicate Valid()
      reads this
    {
      pos <= |content|
    }

    constructor (entry: FileEntry)
      ensures content == entry.content && failsAt == entry.failsAt
      ensures pos == 0 && !closed && Valid()
    {
      content := entry.content;
      failsAt := entry.failsAt;
      pos := 0;
      closed := false;
    }

    /** Whether reading the bytes from..to-1 touches the damaged byte. */
    predicate Faults(from: int, to: int) {
      failsAt.Some? && from <= failsAt.value < to
    }

    /**
     * read(n): the next min(n, remaining) bytes, so [] exactly at end of file; an
     * IOException when those bytes include the damaged one.
     */
    method Read(n: nat) returns (r: Result<seq<uint8>, Throwable>)
      requires Valid() && !closed && n > 0
      modifies this
      ensures Valid() && !closed
      ensures var end := Min(old(pos) + n, |content|);
        if Faults(old(pos), end) then r == Err(READ_FAILED) && pos == old(pos)
        else r == Ok(content[old(pos)..end]) && pos == end
    {
      var end := Min(pos + n, |content|);
      if Faults(pos, end) {
        r := Err(READ_FAILED);
      } else {
        r := Ok(content[pos..end]);
        pos := end;
      }
    }

    method Close()
      modifies this
      ensures closed && pos == old(pos)
    {
      closed := true;
    }
  }

  /** A read loop that is at offset start has fed exactly the chunks before start. */
  lemma ChunksStep(c: seq<uint8>, start: nat, n: nat)
    requires n > 0 && start < |c|
    ensures Chunks(c[start..], n)
         == [c[start..Min(start + n, |c|)]] + Chunks(c[Min(start + n, |c|)..], n)
  {
    var rest := c[start..];
    var k := Min(n, |rest|);
    assert rest[..k] == c[start..start + k];
    assert rest[k..] == c[start + k..];
  }

  lemma ChunksAdvance(done: seq<seq<uint8>>, c: seq<uint8>, start: nat, n: nat)
    requires n > 0 && start < |c|
    requires done + Chunks(c[start..], n) == Chunks(c, n)
    ensures (done + [c[start..Min(start + n, |c|)]]) + Chunks(c[Min(start + n, |c|)..], n) == Chunks(c, n)
  {
    ChunksStep(c, start, n);
    var k := Min(start + n, |c|);
    assert done + ([c[start..k]] + Chunks(c[k..], n)) == (done + [c[start..k]]) + Chunks(c[k..], n);
  }

  /**
   * A read loop that feeds a running hash: read n bytes, feed them, and repeat until a
   * read is empty. Python's `while chunk:` loop and Java's DigestInputStream loop both
   * have this shape. Returns the exception of a failed read.
   */
  method FeedChunks(file: InputFile, fileHash: Accumulator, n: nat) returns (failure: Option<Throwable>)
    requires file.Valid() && !file.closed && file.pos == 0 && n > 0
    requires fileHash.Valid() && fileHash.fed == [] && fileHash.updates == []
    modifies file, fileHash
    ensures file.Valid() && !file.closed && fileHash.Valid()
    ensures failure.None? <==> !(file.failsAt.Some? && file.failsAt.value < |file.content|)
    ensures failure.Some? ==> failure.value == READ_FAILED
    ensures failure.None? ==>
      fileHash.fed == file.content && fileHash.updates == Chunks(file.content, n)
  {
    ghost var c := file.content;
    var chunk := file.Read(n);
    if chunk.Err? {
      return Some(chunk.error);
    }
    ghost var start: nat := 0;
    assert c[0..] == c;
    while chunk.value != []
      invariant file.Valid() && !file.closed && fileHash.Valid()
      invariant chunk.Ok? && start <= file.pos
      invariant fileHash.fed == c[..start] && chunk.value == c[start..file.pos]
      invariant file.pos == Min(start + n, |c|)
      invariant fileHash.updates + Chunks(c[start..], n) == Chunks(c, n)
      invariant !(file.failsAt.Some? && file.failsAt.value < file.pos)
      decreases |c| - start
    {
      ChunksAdvance(fileHash.updates, c, start, n);
      assert c[..start] + c[start..file.pos] == c[..file.pos];
      fileHash.Update(chunk.value);
      start := file.pos;
      chunk := file.Read(n);
      if chunk.Err? {
        return Some(chunk.error);
      }
    }
    assert c[start..] == [] && c[..start] == c;
    return None;
  }
}
