/**
 * checksumUdf.py: the Python UDF the upload check installs in the database. It hashes a
 * BucketFS file by feeding it 8192 bytes at a time into SHA-512 and returns hexdigest().
 */
module ChecksumUdf {

  import opened Wrappers
  import opened Bytes
  import opened BucketErrors
  import opened Sha512
  import opened FileIo
  import Hex

  const BLOCK_SIZE: nat := 8192

  /** The UDF context; the script reads only the my_path column. */
  datatype Context = Context(myPath: string)

  /**
   * run(ctx): open my_path in binary mode, read BLOCK_SIZE bytes at a time until a read
   * comes back empty and feed each chunk to the hash, then return the hex digest. The
   * `with` block closes the file on every exit; an exception from open or read leaves
   * the function without a digest.
   */
  method Run(fs: FileSystem, context: Context, hash: HashFunction)
    returns (r: Result<string, Throwable>, ghost updates: seq<seq<uint8>>, ghost f: InputFile?)
    ensures context.myPath !in fs ==> r == Err(NO_SUCH_FILE) && f == null
    ensures r.Ok? <==> context.myPath in fs && !fs[context.myPath].Damaged()
    ensures context.myPath in fs && fs[context.myPath].Damaged() ==> r == Err(READ_FAILED)
    ensures r.Ok? ==>
      var content := fs[context.myPath].content;
      r.value == Hex.HexDigest(hash(content)) && updates == Chunks(content, BLOCK_SIZE)
    ensures f != null ==> f.closed
  {
    updates := [];
    if context.myPath !in fs {
      r, f := Err(NO_SUCH_FILE), null;
      return;
    }
    var entry := fs[context.myPath];
    var file := new InputFile(entry);
    f := file;
    var fileHash := new Accumulator(hash);
    var failure := FeedChunks(file, fileHash, BLOCK_SIZE);
    file.Close();
    if failure.Some? {
      r := Err(failure.value);
    } else {
      updates := fileHash.updates;
      r := Ok(fileHash.HexDigest());
    }
  }

  /** The UDF's answer is a SHA-512 hex digest: 128 characters from [0-9a-f]. */
  lemma RunResultShape(hash: HashFunction, content: seq<uint8>)
    ensures |Hex.HexDigest(hash(content))| == 128
    ensures forall k :: 0 <= k < 128 ==> Hex.IsHexChar(Hex.HexDigest(hash(content))[k])
  {
    Hex.SignedHexIsHexDigest(hash(content));
  }
}
