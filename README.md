# BucketFS Java client, modelled in Dafny

This project models the decision logic of the Exasol BucketFS Java client (bucketfs-java) and the
Python checksum UDF it installs in the database, and proves properties of that model. BucketFS is
the file system of an Exasol cluster. The client lists, downloads and uploads files in buckets over
HTTP. It keeps an upload history and throttles repeated uploads to the same path. It waits for
the cluster to synchronise. It holds a cache of buckets per cluster configuration. It sends
JSON-RPC commands to the administration service and configures TLS trust for self-signed
certificates with extra subject alternative names.

All transport becomes input:
- an HTTP exchange is a value (`HttpExchange.Exchange`): a response with status code and body, an
  `IOException`, or an interrupt;
- a local file system is a map from paths to byte sequences (`FileIo`), with an optional damaged byte
  that makes reads fail;
- the database that runs the checksum UDF is the outcome of its three statements (`ChecksumDatabase`);
- the clock is an integer nanosecond reading, and the BucketFS monitor is an oracle of answers per poll;
- SHA-512 (FIPS 180-4, section 6.4) is a function parameter from octet strings to 64-octet digests;
- certificates and trust managers are opaque values.

Messages that the client renders with the ExaError library are kept as their error code plus their
placeholder values (`BucketErrors.Message.Coded`). Messages built by plain concatenation are kept as
their full text (`BucketErrors.Message.Text`).

One module models each source class or file; copies of a class in two packages get two modules.
Each copy is proved equal to the other, or both are proved against the same specification
function. Where the class mutates state (the upload history, the bucket cache, the builders, a
read loop, the array copy of a certificate chain) the model is a Dafny `class` or a `method` with
a loop. Each such method is proved against a specification function. Everything else is a
function with lemmas.

The files are:
- `wrappers.dfy`, `bytes.dfy`, `javastring.dfy`: Option/Result types, bytes and UTF-8, and Java's `String.split` and joining;
- `base64.dfy`, `hex.dfy`, `sha512.dfy`, `fileio.dfy`: the encodings and the streaming hash;
- `checksum_udf.dfy`, `upload_necessity.dfy`: the checksum UDF and both upload-necessity strategies;
- `errors.dfy`, `paths.dfy`, `exchange.dfy`, `auth.dfy`: exceptions, status classifiers, paths, HTTP exchanges and Basic authentication;
- `read_bucket.dfy`, `write_bucket.dfy`: the read-enabled, write-enabled and sync-aware buckets;
- `listing.dfy`, `streams.dfy`: the listing pipelines and the stream operations they use;
- `timestamp.dfy`, `cluster_factory.dfy`, `tls.dfy`, `jsonrpc.dfy`: the monitor state, the bucket factory, TLS, and JSON-RPC.

## Model

| member | source | states |
|---|---|---|
| ChecksumUdf.Run | src/main/resources/checksumUdf.py:6-13 | A missing path fails with the open error and no file. The run succeeds iff the file exists and no read fails. On success the result is the hex SHA-512 of the whole content, and the update calls are exactly the 8192-byte chunks of the content. A read error gives that error. The file opened is closed on every exit. |
| ChecksumUdf.RunResultShape | src/main/resources/checksumUdf.py:13 | hexdigest of a 64-byte digest is exactly 128 characters from [0-9a-f]. |
| FileIo.ChunksFlatten | src/main/resources/checksumUdf.py:9-12 | The chunks a read loop feeds, concatenated in order, are the file content: no gap, duplicate or reordering. |
| FileIo.ChunksBounded | src/main/resources/checksumUdf.py:9-11 | Every chunk fed to update is non-empty and at most the buffer size. |
| FileIo.ChunksOfEmpty | src/main/resources/checksumUdf.py:9-10 | An empty file makes no update call. |
| FileIo.ChunkingInvariant | src/main/resources/checksumUdf.py:8-13 | The digest of the fed bytes is the same for any two buffer sizes, such as 8192 and 1000. |
| FileIo.InputFile.Read | src/main/resources/checksumUdf.py:9 | A read returns the next min(n, remaining) bytes and advances by that many, so it is empty exactly at end of file. When those bytes include the damaged byte it raises and does not advance. |
| FileIo.InputFile.Close | src/main/resources/checksumUdf.py:7 | Leaving the `with` block closes the file. The position is kept. |
| FileIo.FeedChunks | src/main/resources/checksumUdf.py:9-12 | The loop `read; while chunk: update; read` succeeds iff the file is not damaged. On success the accumulator holds exactly the content, and the update calls are exactly Chunks(content, n). On failure it returns the read error. |
| FileIo.FileName | src/main/java/com/exasol/bucketfs/ReadEnabledBucket.java:115 | Path.getFileName: none exactly for a non-empty path made only of separators. Otherwise a name without separators, non-empty unless the path is empty. |
| FileIo.FileNameOfJoin | src/main/java/com/exasol/bucketfs/ReadEnabledBucket.java:115 | The file name of "name", "dir/name" and "dir/name/" is "name". |
| Sha512.Accumulator.Update | src/main/resources/checksumUdf.py:11 | update(chunk) appends the chunk to the bytes fed so far and records one more call. |
| Sha512.Accumulator.HexDigest | src/main/resources/checksumUdf.py:13 | hexdigest() is 128 lowercase hex characters. |
| Sha512.FlattenAppend | src/main/resources/checksumUdf.py:10-12 | What two runs of update calls feed, one after the other, is the concatenation of what each feeds. |
| Hex.HexOf | src/main/java/com/exasol/bucketfs/uploadnecessity/ByteArrayToHexConverter.java:17-23 | The rendering of n bytes is 2n characters, all from [0-9a-f]. |
| Hex.HexOfAt | src/main/java/com/exasol/bucketfs/uploadnecessity/ByteArrayToHexConverter.java:20 | Characters 2i and 2i+1 are the two digits of byte i read as unsigned, so a negative Java byte b renders as b + 256. |
| Hex.HexOfAppend | src/main/java/com/exasol/bucketfs/uploadnecessity/ByteArrayToHexConverter.java:19-21 | toHex(a + b) == toHex(a) + toHex(b), so byte order is kept. |
| Hex.HexRoundTrip | src/main/java/com/exasol/bucketfs/uploadnecessity/ByteArrayToHexConverter.java:19-21 | Reading the digit pairs back recovers the bytes exactly. |
| Hex.SignedHexIsHexDigest | src/test/java/com/exasol/bucketfs/uploadnecessity/ChecksumUploadNecessityCheckStrategyTest.java:59-69 | Java's "%02x" rendering of the signed digest bytes equals Python's hexdigest of the same octets. The test compares exactly these two. |
| Hex.DigitValue | src/main/java/com/exasol/bucketfs/uploadnecessity/ByteArrayToHexConverter.java:20 | Reading a digit back is the inverse of writing it, and succeeds on every lowercase hex character. |
| ByteArrayToHexConverter.ToHex | src/main/java/com/exasol/bucketfs/uploadnecessity/ByteArrayToHexConverter.java:17-23 | The for-loop over the array leaves in the builder the concatenated "%02x" of every byte in order (HexOf), of length 2n. An empty array gives "". |
| LegacyByteArrayToHexConverter.ToHex | src/main/java/com/exasol/bucketfs/uploadnecassity/ByteArrayToHexConverter.java:17-23 | The older copy computes the same HexOf for every input, so the two copies agree. |
| ChecksumUploadNecessityCheckStrategy.GetDirectory | src/main/java/com/exasol/bucketfs/uploadnecessity/ChecksumUploadNecessityCheckStrategy.java:67-75 | The directory is all parts but the last joined with "/", with exactly one leading "/" removed if there is one. |
| ChecksumUploadNecessityCheckStrategy.DirectoryAndFileNameReassemble | src/main/java/com/exasol/bucketfs/uploadnecessity/ChecksumUploadNecessityCheckStrategy.java:52-54 | For a name not ending in "/", the file name is the last component and contains no "/". The directory, "/" and the file name put the name back together, up to the one dropped leading "/". |
| ChecksumUploadNecessityCheckStrategy.LocalSha512Checksum | src/main/java/com/exasol/bucketfs/uploadnecessity/ChecksumUploadNecessityCheckStrategy.java:77-87 | The 1000-byte read loop yields the "%02x" hex of SHA-512 over the whole file. A missing or damaged file yields its IOException. |
| ChecksumUploadNecessityCheckStrategy.LocalChecksumMatchesUdf | src/test/java/com/exasol/bucketfs/uploadnecessity/ChecksumUploadNecessityCheckStrategyTest.java:86-95 | The local checksum (1000-byte reads, Java rendering) equals the UDF's hexdigest of the same bytes (8192-byte reads). |
| ChecksumUploadNecessityCheckStrategy.GetSha512Checksum | src/main/java/com/exasol/bucketfs/uploadnecessity/ChecksumUploadNecessityCheckStrategy.java:97-136 | The statements always start with the install. The uninstall is issued iff the install succeeded, and then the trace is install, select with pathInUdf, uninstall. The result is the column value iff all three succeed. A failed install gives E-BFSJ-14 and a missing script gives F-BFSJ-13. A failed query gives F-BFSJ-15 naming the file. A failed uninstall gives E-BFSJ-16 and replaces the query's outcome. |
| ChecksumUploadNecessityCheckStrategy.IsUploadNecessary | src/main/java/com/exasol/bucketfs/uploadnecessity/ChecksumUploadNecessityCheckStrategy.java:49-65 | The method's result and SQL trace are those of the decision rule Decision for the same world. |
| ChecksumUploadNecessityCheckStrategy.SmallFileAlwaysUploads | src/main/java/com/exasol/bucketfs/uploadnecessity/ChecksumUploadNecessityCheckStrategy.java:55-58 | A local file of at most 1 000 000 bytes is always uploaded, without any SQL. |
| ChecksumUploadNecessityCheckStrategy.UnlistedFileUploads | src/main/java/com/exasol/bucketfs/uploadnecessity/ChecksumUploadNecessityCheckStrategy.java:54-58 | A file whose name is missing from its directory listing is always uploaded. |
| ChecksumUploadNecessityCheckStrategy.SkipIffChecksumsMatch | src/main/java/com/exasol/bucketfs/uploadnecessity/ChecksumUploadNecessityCheckStrategy.java:55-56 | The answer is "no upload" iff the file is over 1 MB, is listed and readable, and the UDF returns exactly the local checksum. |
| ChecksumUploadNecessityCheckStrategy.UnchangedFileNeedsNoUpload | src/test/java/com/exasol/bucketfs/uploadnecessity/ChecksumUploadNecessityCheckStrategyTest.java:86-95 | A large listed file whose remote copy hashes to the same bytes needs no upload. |
| ChecksumUploadNecessityCheckStrategy.FailuresAreWrapped | src/main/java/com/exasol/bucketfs/uploadnecessity/ChecksumUploadNecessityCheckStrategy.java:60-64 | Every failure is E-BFSJ-17 with a BucketAccessException, NoSuchAlgorithmException or IOException as cause. The only exceptions are the index error of an empty split and the unchecked F-BFSJ-13. |
| ChecksumUploadNecessityCheckStrategy.UninstallFollowsInstall | src/main/java/com/exasol/bucketfs/uploadnecessity/ChecksumUploadNecessityCheckStrategy.java:99-114 | The UDF is uninstalled iff it was installed, and the install is always the first statement. |
| ChecksumUploadNecessityCheckStrategy.SlashOnlyNameFails | src/main/java/com/exasol/bucketfs/uploadnecessity/ChecksumUploadNecessityCheckStrategy.java:52-53 | "/" splits to no parts, so parts[parts.length - 1] fails before anything is listed. |
| LegacyChecksumUploadNecessityCheckStrategy.LocalSha512Checksum | src/main/java/com/exasol/bucketfs/uploadnecassity/ChecksumUploadNecessityCheckStrategy.java:69-79 | The older copy's 1000-byte read loop, rendered by its own package's hex converter, yields the same checksum or IOException as the current strategy. |
| LegacyChecksumUploadNecessityCheckStrategy.IsUploadNecessary | src/main/java/com/exasol/bucketfs/uploadnecassity/ChecksumUploadNecessityCheckStrategy.java:41-57 | The older copy, run through its own checksum method, reaches exactly the result and SQL trace of the shared decision rule, with the UDF argument built from the bucket's names. |
| LegacyChecksumUploadNecessityCheckStrategy.QueriesUdfPath | src/main/java/com/exasol/bucketfs/uploadnecassity/ChecksumUploadNecessityCheckStrategy.java:94-95 | Whenever the UDF is queried, its argument is exactly "/buckets/" + bucketFsName + "/" + bucketName + "/" + fileInBucketFs. |
| BucketPaths.RemoveLeadingSeparator | src/main/java/com/exasol/bucketfs/ReadEnabledBucket.java:81-87 | The path is the result with at most one "/" in front of it: one "/" when the path starts with one, none otherwise. |
| BucketPaths.RemovesAtMostOne | src/main/java/com/exasol/bucketfs/list/ListingRetriever.java:37-39 | Exactly one leading "/" goes ("//a" becomes "/a"), and a path without one is returned unchanged. |
| ReadEnabledBucket.GetFullyQualifiedBucketName | src/main/java/com/exasol/bucketfs/ReadEnabledBucket.java:49-51 | The qualified name is the BucketFS name, then "/", then the bucket name. |
| ReadEnabledBucket.FullyQualifiedNameSplits | src/main/java/com/exasol/bucketfs/ReadEnabledBucket.java:49-51 | For non-empty names without "/", splitting the qualified name on "/" gives back the two names. |
| ReadEnabledBucket.CreatePublicReadUri | src/main/java/com/exasol/bucketfs/ReadEnabledBucket.java:89-92 | The URI is the bucket root "http://ip:port/bucket/" followed by the path without its leading "/". |
| ReadEnabledBucket.PublicReadUriIgnoresLeadingSlash | src/main/java/com/exasol/bucketfs/ReadEnabledBucket.java:89-92 | "/p" and "p" address the same URI, and the bucket root path gives the bucket root URI. |
| ReadEnabledBucket.ExtractFirstPathComponent | src/main/java/com/exasol/bucketfs/ReadEnabledBucket.java:106-112 | The component is a prefix of the path without "/". It is the whole path when there is no "/", and otherwise it ends just before the first "/". |
| ReadEnabledBucket.ContentEntries | src/main/java/com/exasol/bucketfs/ReadEnabledBucket.java:94-104 | There are at most as many entries as items, and no entry contains "/". |
| ReadEnabledBucket.ContentEntriesLast | src/main/java/com/exasol/bucketfs/ReadEnabledBucket.java:97-101 | The last item adds its entry, if it lies under the path, to the entries of the items before it. |
| ReadEnabledBucket.ContentEntriesSound | src/main/java/com/exasol/bucketfs/ReadEnabledBucket.java:97-101 | Every listed entry is contributed by some item under the path. |
| ReadEnabledBucket.ContentEntriesComplete | src/main/java/com/exasol/bucketfs/ReadEnabledBucket.java:97-101 | Every item under the path has its entry listed. |
| ReadEnabledBucket.ContentEntriesMembership | src/main/java/com/exasol/bucketfs/ReadEnabledBucket.java:97-101 | An entry is listed iff some item starts with the path once its leading "/" is removed, and the first component of that item's remainder is the entry. |
| ReadEnabledBucket.ContentEntriesAppend | src/main/java/com/exasol/bucketfs/ReadEnabledBucket.java:97-101 | The entries of two item lists are the entries of each, in order. Order is kept and duplicates are not removed. |
| ReadEnabledBucket.ItemEqualToPathGivesEmptyEntry | src/main/java/com/exasol/bucketfs/ReadEnabledBucket.java:100 | An item equal to the path yields the empty entry "". |
| ReadEnabledBucket.ParseContentListResponseBody | src/main/java/com/exasol/bucketfs/ReadEnabledBucket.java:94-104 | The loop over the whitespace-split body builds exactly ContentEntries of the items. |
| ReadEnabledBucket.ListingRequest | src/main/java/com/exasol/bucketfs/ReadEnabledBucket.java:66-69 | The listing is always requested from the bucket root, whatever path is asked for, and without credentials. |
| ReadEnabledBucket.ListContents | src/main/java/com/exasol/bucketfs/ReadEnabledBucket.java:65-79 | The method sends ListingRequest and returns Listing for the exchange: the parsed entries on 200 with the path's leading "/" removed. Another status gives a BucketAccessException with the status and the URI. An IOException is wrapped with the URI. An interrupt passes through. |
| ReadEnabledBucket.ListRootContents | src/main/java/com/exasol/bucketfs/ReadEnabledBucket.java:60-62 | listContents() is listContents(""). |
| ReadEnabledBucket.ListingFailures | src/main/java/com/exasol/bucketfs/ReadEnabledBucket.java:71-75 | The listing succeeds iff the response is 200. A non-200 response raises a BucketAccessException carrying that status and the bucket root URI. |
| ReadEnabledBucket.ExtendPathInBucketDownToFilename | src/main/java/com/exasol/bucketfs/ReadEnabledBucket.java:114-117 | A bucket path ending in "/" gets the local path's file name appended, or "null" when the path has none. Any other path is unchanged. |
| ReadEnabledBucket.ExtendedPathOfLocalFile | src/main/java/com/exasol/bucketfs/ReadEnabledBucket.java:114-117 | The local file "dir/name" sent to the directory target "d/" lands at "d/name". |
| ReadEnabledBucket.ExtendedPathIsFilePath | src/main/java/com/exasol/bucketfs/ReadEnabledBucket.java:114-117 | For a non-empty local path and bucket path, the upload target never ends in "/". |
| ReadEnabledBucket.CheckHttpStatusCode | src/main/java/com/exasol/bucketfs/ReadEnabledBucket.java:160-164 | The check passes iff the status is 200. Otherwise it raises an IOException E-BFSJ-1 carrying the status. |
| ReadEnabledBucket.EncodeBasicAuthForReading | src/main/java/com/exasol/bucketfs/ReadEnabledBucket.java:166-168 | The header starts with "Basic ", and the Base64 text after it decodes to "r:" + readPassword. |
| ReadEnabledBucket.DownloadRequest | src/main/java/com/exasol/bucketfs/ReadEnabledBucket.java:150-154 | A download is a GET of the object's URI with exactly one header, the read Authorization header. |
| ReadEnabledBucket.DownloadFileAsString | src/main/java/com/exasol/bucketfs/ReadEnabledBucket.java:137-148 | The result is the body iff the status is 200. Another status raises E-BFSJ-1, wrapped in a BucketAccessException with the object's URI. A transport IOException is wrapped the same way, with the message "Unable to download file from BucketFS as string.", the URI and that IOException as cause. An interrupt passes through. |
| ReadEnabledBucket.DownloadFile | src/main/java/com/exasol/bucketfs/ReadEnabledBucket.java:121-133 | The download succeeds iff the status is 200 and the local write succeeds. Then the local path holds the body's UTF-8 bytes, and every other local file is unchanged. A non-200 status (E-BFSJ-1), a transport IOException or a failed write is wrapped in a BucketAccessException with the object's URI and that IOException as cause. Its text is `Unable to download file "<localPath>" from  URI: <uri>`, with the double space the source produces. An interrupt passes through. |
| WriteEnabledBucket.Recorded | src/main/java/com/exasol/bucketfs/WriteEnabledBucket.java:67-71 | After the put, the path maps to the time of the upload. The set of recorded paths grows by exactly that path, and every other entry keeps its time. |
| WriteEnabledBucket.UploadOutcome | src/main/java/com/exasol/bucketfs/WriteEnabledBucket.java:47-62 | An upload succeeds iff the service answers 200. Another status gives a BucketAccessException with that status and the write URI. An IOException is wrapped with the URI as its cause. An interrupt passes through. |
| WriteEnabledBucket.Excerpt | src/main/java/com/exasol/bucketfs/WriteEnabledBucket.java:99 | Content of at most 20 UTF-16 units is kept as is. Longer content becomes its longest prefix of at most 20 units, followed by "...". |
| WriteEnabledBucket.ExcerptOfBmpText | src/main/java/com/exasol/bucketfs/WriteEnabledBucket.java:99 | For text without supplementary characters, the excerpt is the first 20 characters followed by "...", or the whole text when it is that short. |
| WriteEnabledBucket.ExcerptOfEmoji | src/main/java/com/exasol/bucketfs/WriteEnabledBucket.java:99 | Eleven emoji (22 UTF-16 units) keep ten emoji before "...". |
| WriteEnabledBucket.WriteEnabledBucket.EncodeBasicAuth | src/main/java/com/exasol/bucketfs/WriteEnabledBucket.java:91-94 | The header starts with "Basic ", and the Base64 text after it decodes to "w:" + writePassword for writing or to "r:" + readPassword for reading. |
| WriteEnabledBucket.WriteEnabledBucket.PutRequest | src/main/java/com/exasol/bucketfs/WriteEnabledBucket.java:82-89 | A PUT of the write URI "http://ip:port/bucket/path" with exactly one header, the write Authorization header. |
| WriteEnabledBucket.WriteEnabledBucket.RecordUploadInHistory | src/main/java/com/exasol/bucketfs/WriteEnabledBucket.java:67-71 | The new history is Recorded applied to the old one. |
| WriteEnabledBucket.WriteEnabledBucket.UploadContentNonBlocking | src/main/java/com/exasol/bucketfs/WriteEnabledBucket.java:47-65 | The method sends PutRequest and its outcome is UploadOutcome. The history is updated only on success, and only for that path. |
| WriteEnabledBucket.WriteEnabledBucket.UploadFileNonBlocking | src/main/java/com/exasol/bucketfs/WriteEnabledBucket.java:34-45 | A local file that cannot be opened fails with "I/O failed to open file …" before any request, and the history is unchanged. Otherwise the file goes to the extended path, described as "file " + that path. |
| WriteEnabledBucket.WriteEnabledBucket.UploadStringContentNonBlocking | src/main/java/com/exasol/bucketfs/WriteEnabledBucket.java:96-102 | The upload goes to the given path, described as "text " + Excerpt(content). |
| WriteEnabledBucket.WriteEnabledBucket.UploadInputStream | src/main/java/com/exasol/bucketfs/WriteEnabledBucket.java:112-116 | The blocking flag is ignored. The upload is one non-blocking PUT described as "input stream". |
| WriteEnabledBucket.HistoryOnlyGrowsOnSuccess | src/main/java/com/exasol/bucketfs/WriteEnabledBucket.java:53-64 | A path newly enters the history only through a 200 response, and a 200 always records the path with the current time. |
| SyncAwareBucket.ThrottleDelay | src/main/java/com/exasol/bucketfs/SyncAwareBucket.java:57-71 | A known path is delayed iff "now" is not after its last upload time, rounded down to the second, plus one second. The delay of 1..1000 ms reaches the next whole second. An unknown path is never delayed. |
| SyncAwareBucket.ThrottleSeparatesSeconds | src/main/java/com/exasol/bucketfs/SyncAwareBucket.java:54-66 | The purpose of the throttle: an upload that starts after the delay falls in a later whole second than the previous upload to that path. |
| SyncAwareBucket.WaitFrom | src/main/java/com/exasol/bucketfs/SyncAwareBucket.java:117-131 | Every poll before the last is made before the deadline and is answered "not yet". The last poll either reaches the deadline, is answered "synchronized" (success) or throws (that exception). A deadline gives a TimeoutException for the object, the fully qualified bucket name and the instant before the upload. |
| SyncAwareBucket.TimeoutMeansNeverSynchronized | src/main/java/com/exasol/bucketfs/SyncAwareBucket.java:121-130 | A timeout is reported only after the clock reaches the deadline, with every earlier poll answered "not yet". |
| SyncAwareBucket.SyncAwareBucket.DelayRepeatedUploadToSamePath | src/main/java/com/exasol/bucketfs/SyncAwareBucket.java:57-71 | The delay the method would sleep for is ThrottleDelay of the upload history. |
| SyncAwareBucket.SyncAwareBucket.WaitForFileToBeSynchronized | src/main/java/com/exasol/bucketfs/SyncAwareBucket.java:117-131 | The polling loop ends with exactly the outcome and poll count of WaitFrom, with the deadline at 60000 ms after the time taken before the upload. |
| SyncAwareBucket.SyncAwareBucket.UploadContent | src/main/java/com/exasol/bucketfs/SyncAwareBucket.java:73-84 | A blocking upload throttles, uploads and, only on success, waits from the time taken before the upload. A non-blocking upload only uploads. The history changes as for a non-blocking upload. |
| SyncAwareBucket.SyncAwareBucket.UploadFileWithBlocking | src/main/java/com/exasol/bucketfs/SyncAwareBucket.java:42-52 | A file that cannot be opened fails before any throttle or request. Otherwise the file is uploaded to the extended path, described as "file " + that path. |
| SyncAwareBucket.SyncAwareBucket.UploadFile | src/main/java/com/exasol/bucketfs/SyncAwareBucket.java:35-38 | The two-argument upload is the blocking upload. A file that cannot be opened fails before any throttle or request. Otherwise it throttles, the history records a successful upload, a failed upload is the result with no poll, and a successful one ends as WaitFrom does. |
| SyncAwareBucket.SyncAwareBucket.UploadStringContentWithBlocking | src/main/java/com/exasol/bucketfs/SyncAwareBucket.java:94-99 | The text upload is described by its excerpt and throttles only when blocking. A failed or non-blocking upload is the result with no poll. A successful blocking upload ends as WaitFrom does. |
| SyncAwareBucket.SyncAwareBucket.UploadStringContent | src/main/java/com/exasol/bucketfs/SyncAwareBucket.java:86-91 | The two-argument text upload is blocking. It throttles, records a successful upload, returns a failed upload with no poll, and otherwise ends as WaitFrom does. |
| SyncAwareBucket.SyncAwareBucket.UploadInputStream | src/main/java/com/exasol/bucketfs/SyncAwareBucket.java:110-113 | A stream upload never throttles and never waits, even when blocking is requested. |
| ListingProvider.CreatePublicReadUri | src/main/java/com/exasol/bucketfs/ListingProvider.java:51-54 | The URI is the service root "protocol://host:port/". When a bucket is named, the bucket name and "/" follow it. |
| ListingProvider.FilterListing | src/main/java/com/exasol/bucketfs/ListingProvider.java:74-80 | The result is sorted and is a permutation of the whitespace tokens that start with the path without its leading "/". A token is in the result iff it is such a token. |
| ListingProvider.PathToBeListedNotFound | src/main/java/com/exasol/bucketfs/ListingProvider.java:82-87 | The error is E-BFSJ-11 naming the path, without cause or URI. |
| ListingProvider.ListingRequest | src/main/java/com/exasol/bucketfs/ListingProvider.java:60-63 | The listing is an unauthenticated GET of the public read URI. |
| ListingProvider.ListContents | src/main/java/com/exasol/bucketfs/ListingProvider.java:40-72 | A result is never empty and comes only from a 200 answer. It is sorted and is a permutation of the tokens that start with the prefix, duplicates included; without a bucket name the prefix is "". On 200, an empty filtered listing is E-BFSJ-11. Any other status fails as HttpRequestStatus decides. An I/O failure is E-BFSJ-5 and an interrupt is E-BFSJ-4. |
| ListingProvider.ListRootContents | src/main/java/com/exasol/bucketfs/ListingProvider.java:36-38 | For a 200 answer, the root listing succeeds iff the body has a token, and it is then all tokens, sorted. |
| ListingProvider.NoBucketIgnoresPath | src/main/java/com/exasol/bucketfs/ListingProvider.java:43 | Without a bucket name every path lists the same as the root. |
| ListingProvider.Builder.constructor | src/main/java/com/exasol/bucketfs/ListingProvider.java:104-115 | A new builder has protocol "http", and host, port and bucket name unset. |
| ListingProvider.Builder.Protocol | src/main/java/com/exasol/bucketfs/ListingProvider.java:128-131 | The method sets the protocol and nothing else. |
| ListingProvider.Builder.BucketName | src/main/java/com/exasol/bucketfs/ListingProvider.java:139-142 | The method sets the bucket name and nothing else. |
| ListingProvider.Builder.Host | src/main/java/com/exasol/bucketfs/ListingProvider.java:150-153 | The method sets the host and nothing else. |
| ListingProvider.Builder.Port | src/main/java/com/exasol/bucketfs/ListingProvider.java:161-164 | The method sets the port and nothing else. |
| ListingProvider.Builder.Build | src/main/java/com/exasol/bucketfs/ListingProvider.java:166-168 | The provider holds exactly the builder's settings. |
| ListingRetriever.PublicReadUri | src/main/java/com/exasol/bucketfs/list/ListingRetriever.java:29-31 | The URI starts with "protocol://host:" and ends with ":port/" + suffix. |
| ListingRetriever.EncodeBasicAuth | src/main/java/com/exasol/bucketfs/list/ListingRetriever.java:82-84 | The header starts with "Basic ", and the Base64 text after it decodes to "r:" + readPassword. |
| ListingRetriever.ListingRequest | src/main/java/com/exasol/bucketfs/list/ListingRetriever.java:65-70 | The listing is a GET of the URI with exactly the read Authorization header. |
| ListingRetriever.Retrieve | src/main/java/com/exasol/bucketfs/list/ListingRetriever.java:61-80 | Retrieval succeeds iff the answer is 200, and a result is a sorted permutation of the body's whitespace tokens. Any other status fails as HttpResponseEvaluator decides. An I/O failure is E-BFSJ-5 and an interrupt is E-BFSJ-4. |
| ListingRetriever.RetrieveIgnoresBodyOrder | src/main/java/com/exasol/bucketfs/list/ListingRetriever.java:62 | Two bodies with the same tokens in any order give the same result. |
| BucketContentLister.ExtractFirstPathComponent | src/main/java/com/exasol/bucketfs/list/BucketContentLister.java:59-62 | The component is a prefix of the path. It is the whole path when the path has no "/", and otherwise it runs up to and including the first "/". |
| BucketContentLister.TrimmedMembership | src/main/java/com/exasol/bucketfs/list/BucketContentLister.java:46-49 | A value leaves the filter-and-map stream iff some listed entry starts with the prefix and has that value as its shaped rest. |
| BucketContentLister.TrimmedAppend | src/main/java/com/exasol/bucketfs/list/BucketContentLister.java:46-49 | The stream works entry by entry: the stream of two listings is the stream of each, in order. |
| BucketContentLister.Contents | src/main/java/com/exasol/bucketfs/list/BucketContentLister.java:45-51 | The collected list has no duplicates and holds exactly the values of the stream. |
| BucketContentLister.ContentsMembership | src/main/java/com/exasol/bucketfs/list/BucketContentLister.java:45-51 | A value is listed iff it is the shaped rest of an entry that starts with the path without its leading "/". |
| BucketContentLister.NonRecursiveShape | src/main/java/com/exasol/bucketfs/list/BucketContentLister.java:49 | In non-recursive mode a listed value has no "/", or has one only as its last character. |
| BucketContentLister.RecursiveKeepsRests | src/main/java/com/exasol/bucketfs/list/BucketContentLister.java:48-49 | In recursive mode every matching entry appears with its prefix cut off. |
| BucketContentLister.LeadingSlashIgnored | src/main/java/com/exasol/bucketfs/list/BucketContentLister.java:45 | Listing "/p" and "p" gives the same result. |
| BucketContentLister.ContentsOrder | src/main/java/com/exasol/bucketfs/list/BucketContentLister.java:50-51 | distinct() keeps the order in which values first appear in the sorted stream. |
| BucketContentLister.ContentsEmpty | src/main/java/com/exasol/bucketfs/list/BucketContentLister.java:52-56 | The list is non-empty iff some entry starts with the prefix. |
| BucketContentLister.PathToBeListedNotFound | src/main/java/com/exasol/bucketfs/list/BucketContentLister.java:64-69 | The error is E-BFSJ-11, without cause or URI. |
| BucketContentLister.Retrieve | src/main/java/com/exasol/bucketfs/list/BucketContentLister.java:44-57 | A retriever failure is passed on. A success is exactly Contents of the fetched listing for the path and mode, and is non-empty and duplicate-free. It succeeds iff some entry starts with the prefix, and otherwise it is E-BFSJ-11 with the path and the bucket URI. |
| BucketContentLister.FilesAndDirectoryAtRoot | src/test/java/com/exasol/bucketfs/ReadEnabledBucketTest.java:94-98 | For the sorted listing of two files and a directory of two files, the root shows the files and the directory once, with its "/". |
| BucketContentLister.FilesInDirectory | src/test/java/com/exasol/bucketfs/ReadEnabledBucketTest.java:102-106 | Inside that directory the two file names show, without the directory. |
| BucketContentLister.FileAndDirectoryOfSameName | src/test/java/com/exasol/bucketfs/ReadEnabledBucketTest.java:111-115 | A file and a directory of the same name both show, the directory with its "/". |
| BucketContentLister.SampleListingAtRoot | src/test/java/com/exasol/bucketfs/ReadEnabledBucketTest.java:94-98 | The test's own listing at the root gives "a.txt", "b.txt", "dir/". |
| BucketContentLister.SampleListingInDirectory | src/test/java/com/exasol/bucketfs/ReadEnabledBucketTest.java:102-106 | The test's own listing in "dir/" gives "a1.txt", "b1.txt". |
| AbstractListingProvider.CreatePublicReadUri | src/main/java/com/exasol/bucketfs/list/ListingProvider.java:88-90 | The URI starts with "protocol://host:" and ends with ":port/" + suffix. |
| AbstractListingProvider.EncodeBasicAuth | src/main/java/com/exasol/bucketfs/list/ListingProvider.java:80-82 | The header starts with "Basic ", and the Base64 text after it decodes to "r:" + readPassword. |
| AbstractListingProvider.ListingRequest | src/main/java/com/exasol/bucketfs/list/ListingProvider.java:63-68 | The listing is a GET of the URI with exactly the read Authorization header. |
| AbstractListingProvider.ListingStream | src/main/java/com/exasol/bucketfs/list/ListingProvider.java:59-78 | The stream succeeds iff the answer is 200, and a result is a sorted permutation of the body's tokens. Failures are as in ListingRetriever. |
| AbstractListingProvider.SameAsListingRetriever | src/main/java/com/exasol/bucketfs/list/ListingProvider.java:59-90 | The parallel copy agrees with ListingRetriever: the same URI, the same credentials and the same outcome for every exchange. |
| BucketContentListing.BucketUri | src/main/java/com/exasol/bucketfs/list/BucketContentListing.java:67-69 | The bucket URI ends with "/" + bucketName + "/". |
| BucketContentListing.Retrieve | src/main/java/com/exasol/bucketfs/list/BucketContentListing.java:46-76 | A stream failure is passed on. A success is exactly Contents of the streamed listing for the path and mode, and is non-empty and duplicate-free. It exists iff an entry starts with the prefix; if none does, it is E-BFSJ-11 with the path and the bucket URI. |
| BucketContentListing.SameAsBucketContentLister | src/main/java/com/exasol/bucketfs/list/BucketContentListing.java:46-60 | For the same bucket URI and exchange this lister answers exactly as BucketContentLister. |
| BucketService.NoBuckets | src/main/java/com/exasol/bucketfs/list/BucketService.java:44-48 | The error is E-BFSJ-30, without cause or URI. |
| BucketService.Retrieve | src/main/java/com/exasol/bucketfs/list/BucketService.java:33-42 | A retriever failure is passed on. An empty list is E-BFSJ-30 and a non-empty one is returned unchanged, sorted and a permutation of the body's tokens. |
| BucketService.EmptyBodyGivesOneEmptyName | src/main/java/com/exasol/bucketfs/list/BucketService.java:33-42 | An empty body is not "no buckets": Java's split gives one empty name. |
| BucketService.BlankBodyHasNoBuckets | src/main/java/com/exasol/bucketfs/list/BucketService.java:37-38 | A body of one whitespace character splits into nothing and so reports E-BFSJ-30. |
| BucketListing.ServiceUri | src/main/java/com/exasol/bucketfs/list/BucketListing.java:38-40 | The service URI ends with ":port/". |
| BucketListing.Retrieve | src/main/java/com/exasol/bucketfs/list/BucketListing.java:29-46 | A stream failure is passed on. An empty list is E-BFSJ-30 naming the service URI, and a non-empty one is returned unchanged. |
| Streams.LexLeReflexive | src/main/java/com/exasol/bucketfs/list/ListingRetriever.java:62 | The natural order of strings that sorted() uses is reflexive. |
| Streams.LexLeTotal | src/main/java/com/exasol/bucketfs/list/ListingRetriever.java:62 | The order is total. |
| Streams.LexLeAntisymmetric | src/main/java/com/exasol/bucketfs/list/ListingRetriever.java:62 | The order is antisymmetric. |
| Streams.LexLeTransitive | src/main/java/com/exasol/bucketfs/list/ListingRetriever.java:62 | The order is transitive. |
| Streams.Insert | src/main/java/com/exasol/bucketfs/list/ListingRetriever.java:62 | Insertion adds exactly one copy of the element. |
| Streams.InsertSorted | src/main/java/com/exasol/bucketfs/list/ListingRetriever.java:62 | Inserting into an ascending sequence keeps it ascending and adds only the element. |
| Streams.Sort | src/main/java/com/exasol/bucketfs/list/ListingRetriever.java:62 | sorted() returns a permutation of its input. |
| Streams.SortSorted | src/main/java/com/exasol/bucketfs/list/ListingRetriever.java:62 | sorted() returns an ascending sequence of the same length, with duplicates kept. |
| Streams.SortedUnique | src/main/java/com/exasol/bucketfs/list/ListingRetriever.java:62 | Two ascending arrangements of the same multiset are equal. |
| Streams.SortIdempotent | src/main/java/com/exasol/bucketfs/list/ListingRetriever.java:62 | Sorting twice is sorting once. |
| Streams.SortPermutationInvariant | src/main/java/com/exasol/bucketfs/list/ListingRetriever.java:62 | Inputs that are permutations of each other sort alike. |
| Streams.Filter | src/main/java/com/exasol/bucketfs/list/BucketContentLister.java:47 | filter() keeps exactly the elements that pass the test and never lengthens the sequence. |
| Streams.FilterAll | src/main/java/com/exasol/bucketfs/list/BucketContentLister.java:47 | A filter that every element passes keeps the whole sequence. |
| Streams.Map | src/main/java/com/exasol/bucketfs/list/BucketContentLister.java:48-49 | map() applies the function at every position. |
| Streams.FirstIndex | src/main/java/com/exasol/bucketfs/list/BucketContentLister.java:50 | The index is that of the element's first occurrence. |
| Streams.Distinct | src/main/java/com/exasol/bucketfs/list/BucketContentLister.java:50 | distinct() returns the same elements without duplicates. |
| Streams.DistinctOrder | src/main/java/com/exasol/bucketfs/list/BucketContentLister.java:50 | distinct() keeps the order in which elements are first met. |
| Streams.DistinctOfNoDuplicates | src/main/java/com/exasol/bucketfs/list/BucketContentLister.java:50 | distinct() of a sequence without duplicates is that sequence. |
| Streams.DistinctRepeat | src/main/java/com/exasol/bucketfs/list/BucketContentLister.java:50 | An element that was already met adds nothing. |
| BucketOperation.LowerAscii | src/main/java/com/exasol/bucketfs/BucketOperation.java:26 | Lower-casing keeps the length and lower-cases each ASCII letter in place. |
| BucketOperation.ToStringIsLowerName | src/main/java/com/exasol/bucketfs/BucketOperation.java:24-27 | toString() of each constant is its name in lower case. |
| BucketOperation.ToStringInjective | src/test/java/com/exasol/bucketfs/BucketOperationTest.java:9-13 | The constants render as different strings, so a message names its operation unambiguously. |
| BucketErrors.WithUriAndCause | src/main/java/com/exasol/bucketfs/BucketAccessException.java:47-51 | The exception keeps the URI and the cause and has status 0. Its text is the message followed by " URI: " and the URI. |
| BucketErrors.WithStatus | src/main/java/com/exasol/bucketfs/BucketAccessException.java:60-64 | The exception keeps the URI and the status and has no cause. Its text is the message, "URI: " and the URI, then " (Status n)". |
| BucketErrors.WithCause | src/main/java/com/exasol/bucketfs/BucketAccessException.java:72-76 | The exception keeps the message and the cause, with no URI and status 0. |
| BucketErrors.Plain | src/main/java/com/exasol/bucketfs/BucketAccessException.java:83-87 | The exception keeps the message, with no URI, no cause and status 0. |
| BucketErrors.DownloadInterrupted | src/main/java/com/exasol/bucketfs/BucketAccessException.java:23-26 | The error is E-BFSJ-4, without cause. |
| BucketErrors.DownloadIo | src/main/java/com/exasol/bucketfs/BucketAccessException.java:34-38 | The error is E-BFSJ-5 with the IOException as cause. |
| BucketErrors.WithUriAndCauseReadBack | src/main/java/com/exasol/bucketfs/BucketAccessException.java:47-50 | The message, the URI and the cause of an exception built from a URI and a cause can all be recovered from it. |
| BucketErrors.WithStatusReadBack | src/main/java/com/exasol/bucketfs/BucketAccessException.java:60-63 | The message, the status and the URI of an exception built from a status can all be recovered from it. |
| HttpResponseEvaluator.Evaluate | src/main/java/com/exasol/bucketfs/HttpResponseEvaluator.java:25-43 | Evaluation passes iff the status is 200. Otherwise the code is E-BFSJ-2 for 404, E-BFSJ-3 for 403 and E-BFSJ-1 with the status for anything else, with no URI, cause or status field set. |
| HttpResponseEvaluator.EvaluateTotal | src/main/java/com/exasol/bucketfs/HttpResponseEvaluator.java:27-42 | Every status lands in exactly one of the four outcomes. |
| HttpResponseEvaluator.ListFailures | src/test/java/com/exasol/bucketfs/ReadEnabledBucketTest.java:147-158 | A listing answered 404, 403 or 500 fails with E-BFSJ-2, E-BFSJ-3 or E-BFSJ-1. |
| HttpRequestStatus.Evaluate | src/main/java/com/exasol/bucketfs/HttpRequestStatus.java:18-36 | Evaluation passes iff the status is 200. |
| HttpRequestStatus.SameAsResponseEvaluator | src/main/java/com/exasol/bucketfs/HttpRequestStatus.java:18-36 | The older classifier gives the same outcome as HttpResponseEvaluator for every status, exception included. |
| BasicAuth.HeaderValue | src/main/java/com/exasol/bucketfs/jsonrpc/BasicAuthAuthenticator.java:26-28 | The value starts with "Basic ", and the Base64 text after it decodes to username + ":" + password. |
| BasicAuth.HeaderValueInjective | src/main/java/com/exasol/bucketfs/jsonrpc/BasicAuthAuthenticator.java:26-28 | Different credentials give different header values. |
| BasicAuth.HeaderValueOf | src/main/java/com/exasol/bucketfs/jsonrpc/BasicAuthAuthenticator.java:26-28 | The value is exactly "Basic " followed by the Base64 token of the credentials. |
| BasicAuth.UserPasswordHeader | src/test/java/com/exasol/bucketfs/jsonrpc/BasicAuthAuthenticatorTest.java:11-18 | For user "user" with password "password" the value is "Basic dXNlcjpwYXNzd29yZA==". |
| BasicAuth.RequestBuilder.AddHeader | src/main/java/com/exasol/bucketfs/jsonrpc/BasicAuthAuthenticator.java:23 | header(name, value) appends exactly one header. |
| BasicAuthAuthenticator.Authenticator.BasicAuthValue | src/main/java/com/exasol/bucketfs/jsonrpc/BasicAuthAuthenticator.java:26-28 | The value starts with "Basic " and carries the authenticator's own credentials. |
| BasicAuthAuthenticator.Authenticator.Authenticate | src/main/java/com/exasol/bucketfs/jsonrpc/BasicAuthAuthenticator.java:21-24 | The method adds exactly one Authorization header, with the Basic value, after the headers already there. |
| AuthBasicAuthAuthenticator.Authenticator.BasicAuthValue | src/main/java/com/exasol/bucketfs/jsonrpc/auth/BasicAuthAuthenticator.java:24-26 | The value starts with "Basic " and carries the authenticator's own credentials. |
| AuthBasicAuthAuthenticator.Authenticator.Authenticate | src/main/java/com/exasol/bucketfs/jsonrpc/auth/BasicAuthAuthenticator.java:19-22 | The method adds exactly one Authorization header, with the Basic value. |
| AuthBasicAuthAuthenticator.SameAsJsonRpcCopy | src/main/java/com/exasol/bucketfs/jsonrpc/auth/BasicAuthAuthenticator.java:24-26 | Both copies of the authenticator send the same value for the same credentials. |
| Base64.IndexOfChar | src/main/java/com/exasol/bucketfs/jsonrpc/CreateBucketCommand.java:68 | A character found in the alphabet maps back to itself. |
| Base64.AlphabetIndex | src/main/java/com/exasol/bucketfs/jsonrpc/CreateBucketCommand.java:68 | Every index of the alphabet is found again from its character. |
| Base64.Encode | src/main/java/com/exasol/bucketfs/jsonrpc/CreateBucketCommand.java:68 | The encoding is empty iff the input is. |
| Base64.EncodeLength | src/main/java/com/exasol/bucketfs/jsonrpc/CreateBucketCommand.java:68 | Every started group of three bytes takes four characters. |
| Base64.EncodeCharset | src/main/java/com/exasol/bucketfs/jsonrpc/CreateBucketCommand.java:68 | Every character of an encoding is in the alphabet or is '=' padding. |
| Base64.GroupRoundTrip | src/main/java/com/exasol/bucketfs/jsonrpc/CreateBucketCommand.java:68 | The four sextets of three bytes give back those bytes. |
| Base64.RoundTrip | src/main/java/com/exasol/bucketfs/jsonrpc/CreateBucketCommand.java:68 | Decoding undoes encoding for every byte string, so no credential is lost. |
| Base64.EncodesRead | src/test/java/com/exasol/bucketfs/jsonrpc/CreateBucketCommandTest.java:76 | "read" encodes to "cmVhZA==". |
| Base64.EncodesWrite | src/test/java/com/exasol/bucketfs/jsonrpc/CreateBucketCommandTest.java:77 | "write" encodes to "d3JpdGU=". |
| Base64.EncodesUserPassword | src/test/java/com/exasol/bucketfs/jsonrpc/BasicAuthAuthenticatorTest.java:17 | "user:password" encodes to "dXNlcjpwYXNzd29yZA==". |
| Bytes.ToSigned | src/main/java/com/exasol/bucketfs/uploadnecessity/ByteArrayToHexConverter.java:19-20 | The Java byte of an octet agrees with the octet modulo 256. |
| Bytes.ToUnsigned | src/main/java/com/exasol/bucketfs/uploadnecessity/ByteArrayToHexConverter.java:19-20 | The octet of a Java byte agrees with the byte modulo 256. |
| Bytes.SignedRoundTrip | src/main/java/com/exasol/bucketfs/uploadnecessity/ByteArrayToHexConverter.java:19-20 | Octet to byte and back is the identity. |
| Bytes.UnsignedRoundTrip | src/main/java/com/exasol/bucketfs/uploadnecessity/ByteArrayToHexConverter.java:19-20 | Byte to octet and back is the identity. |
| Bytes.SignedBytes | src/main/java/com/exasol/bucketfs/uploadnecessity/ByteArrayToHexConverter.java:19 | Each octet becomes the Java byte at the same position. |
| Bytes.Utf8Char | src/main/java/com/exasol/bucketfs/WriteEnabledBucket.java:93 | A character takes one to four UTF-8 octets. |
| Bytes.Utf8RoundTrip | src/main/java/com/exasol/bucketfs/WriteEnabledBucket.java:93 | Decoding undoes getBytes(): no text is lost. |
| Bytes.Utf8EncodeAppend | src/main/java/com/exasol/bucketfs/WriteEnabledBucket.java:93 | The encoding of concatenated text is the concatenation of the encodings. |
| Bytes.Utf8EncodeAscii | src/main/java/com/exasol/bucketfs/WriteEnabledBucket.java:93 | ASCII text encodes to its code points, one octet each. |
| JavaString.IndexOf | src/main/java/com/exasol/bucketfs/list/BucketContentLister.java:60 | indexOf is -1 iff the character is absent. Otherwise it is the first position of the character. |
| JavaString.RawPiecesJoin | src/main/java/com/exasol/bucketfs/uploadnecessity/ChecksumUploadNecessityCheckStrategy.java:52 | Splitting on each "/" and joining back gives the input, and no piece holds a "/". |
| JavaString.SplitOnSlashFree | src/main/java/com/exasol/bucketfs/uploadnecessity/ChecksumUploadNecessityCheckStrategy.java:52 | No piece of split("/") holds a "/". |
| JavaString.SplitOnSlashJoin | src/main/java/com/exasol/bucketfs/uploadnecessity/ChecksumUploadNecessityCheckStrategy.java:52 | A path not ending in "/" splits into pieces that join back to it. |
| JavaString.SplitOnWhitespaceFree | src/main/java/com/exasol/bucketfs/ReadEnabledBucket.java:95 | No token of split("\\s+") holds whitespace. |
| JavaString.SplitOnWhitespaceNonEmpty | src/main/java/com/exasol/bucketfs/ReadEnabledBucket.java:95 | Only the first token can be empty, which happens after leading whitespace. |
| JavaString.DropTrailingEmpty | src/main/java/com/exasol/bucketfs/ReadEnabledBucket.java:95 | The result is the longest prefix of the pieces that does not end in an empty piece. |
| JavaString.NatToStringRoundTrip | src/main/java/com/exasol/bucketfs/ReadEnabledBucket.java:90 | The decimal rendering of a port or status reads back as the number. |
| TimestampState.TimestampState.Accepts | src/main/java/com/exasol/bucketfs/monitor/TimestampState.java:50-56 | A state is accepted iff it is a timestamp that is not before this one. |
| TimestampState.LowResolution | src/main/java/com/exasol/bucketfs/monitor/TimestampState.java:26-28 | The truncated instant is a whole microsecond, at most the instant, and less than a microsecond below it, also before the epoch. |
| TimestampState.LowResolutionUnique | src/main/java/com/exasol/bucketfs/monitor/TimestampState.java:26-28 | That whole microsecond is the only one with this property. |
| TimestampState.LowResolutionIdempotent | src/main/java/com/exasol/bucketfs/monitor/TimestampState.java:26-28 | Truncating twice is truncating once. |
| TimestampState.LowResolutionMonotone | src/main/java/com/exasol/bucketfs/monitor/TimestampState.java:26-28 | Truncation keeps the order of instants. |
| TimestampState.AcceptsReflexive | src/main/java/com/exasol/bucketfs/monitor/TimestampState.java:50-56 | Every state accepts itself. |
| TimestampState.AcceptsTransitive | src/main/java/com/exasol/bucketfs/monitor/TimestampState.java:50-56 | Acceptance is transitive. |
| TimestampState.AcceptsTotal | src/main/java/com/exasol/bucketfs/monitor/TimestampState.java:50-56 | Of two timestamps at least one accepts the other, and both do iff they are equal. |
| TimestampState.LowResolutionAcceptsLater | src/main/java/com/exasol/bucketfs/monitor/TimestampState.java:20-28 | A state taken before an operation accepts the low-resolution state of every later instant. |
| TimestampState.UnitTestInstants | src/test/java/com/exasol/bucketfs/monitor/TimestampStateTest.java:34-40 | An instant on a whole microsecond, plus 200 ns, truncates back to it. The result accepts itself and the state one microsecond later, but not the state one microsecond earlier. |
| ClusterConfigurationBucketFactory.FullyQualifiedBucketName | src/main/java/com/exasol/bucketfs/ClusterConfigurationBucketFactory.java:47-49 | The key is the service name, "/", and the bucket name. |
| ClusterConfigurationBucketFactory.FullyQualifiedBucketNameInjective | src/main/java/com/exasol/bucketfs/ClusterConfigurationBucketFactory.java:42-48 | For service names without "/", different name pairs get different cache keys. |
| ClusterConfigurationBucketFactory.MapPort | src/main/java/com/exasol/bucketfs/ClusterConfigurationBucketFactory.java:36-38 | A mapped port gives its exposed port. An unmapped one fails, because unboxing null throws. |
| ClusterConfigurationBucketFactory.NewBucketSettings | src/main/java/com/exasol/bucketfs/ClusterConfigurationBucketFactory.java:59-68 | The builder succeeds iff the service's HTTP port is mapped and the bucket is configured. The port is mapped first. The new bucket gets the service name, the bucket name, the factory's IP address, the mapped port and the bucket's own passwords. |
| ClusterConfigurationBucketFactory.InjectsAccessCredentials | src/test/java/com/exasol/bucketfs/ClusterConfigurationBucketFactoryTest.java:23-43 | With one service, one bucket and the port mapped to itself, the bucket receives the configured read and write passwords. |
| ClusterConfigurationBucketFactory.ClusterConfigurationBucketFactory.constructor | src/main/java/com/exasol/bucketfs/ClusterConfigurationBucketFactory.java:27-34 | The factory keeps its four arguments and starts with an empty cache. |
| ClusterConfigurationBucketFactory.ClusterConfigurationBucketFactory.GetBucketFromCache | src/main/java/com/exasol/bucketfs/ClusterConfigurationBucketFactory.java:51-53 | The result is the cached bucket, or null for a key never built. |
| ClusterConfigurationBucketFactory.ClusterConfigurationBucketFactory.UpdateBucketCache | src/main/java/com/exasol/bucketfs/ClusterConfigurationBucketFactory.java:55-69 | A missing service fails even on a cache hit. A hit changes nothing. A miss builds a fresh bucket from NewBucketSettings and caches it under the key, leaving all other entries. A failing build leaves the cache as it was. |
| ClusterConfigurationBucketFactory.ClusterConfigurationBucketFactory.GetBucket | src/main/java/com/exasol/bucketfs/ClusterConfigurationBucketFactory.java:40-45 | The result is the cached bucket for "service/bucket". A second request returns the very same object. Only that key can be added, and no entry is ever replaced. The call succeeds iff the service exists and the bucket is cached or can be built. |
| SubjectAltName.Type.GetCode | src/main/java/com/exasol/bucketfs/http/SubjectAltName.java:27-40 | HOSTNAME reports tag 2 and IP reports tag 7, the GeneralName tags of section 4.2.1.6 of RFC 5280. |
| SubjectAltName.CodesDistinct | src/main/java/com/exasol/bucketfs/http/SubjectAltName.java:29 | The two types report different tags. |
| SubjectAltName.SubjectAltName.ToString | src/main/java/com/exasol/bucketfs/http/SubjectAltName.java:22-25 | The text is "X509SubjectAltName [type=", the type, ", value=", the value and "]", in that order. |
| SubjectAltName.ToStringInjective | src/main/java/com/exasol/bucketfs/http/SubjectAltName.java:22-25 | Different names render differently: the type and the value can be read back. |
| FixedSANCertificate.Certificate.GetSubjectAlternativeNames | src/main/java/com/exasol/bucketfs/http/FixedSANCertificate.java:28-35 | A wrapper reports the delegate's names, with null read as none, followed by one [tag, value] entry per added name, in order. |
| FixedSANCertificate.Certificate.GetEncoded | src/main/java/com/exasol/bucketfs/http/FixedSANCertificate.java:134-137 | A wrapper hands on the delegate's encoded form. |
| FixedSANCertificate.Added | src/main/java/com/exasol/bucketfs/http/FixedSANCertificate.java:32-33 | Each added name becomes the entry [tag, value] at the same position. |
| FixedSANCertificate.EqualsByEncoding | src/main/java/com/exasol/bucketfs/http/FixedSANCertificate.java:171-180 | Every certificate, wrapped or not, compares and hashes by its encoded form. |
| FixedSANCertificate.FixedEqualsDelegate | src/main/java/com/exasol/bucketfs/http/FixedSANCertificate.java:171-180 | A wrapper equals its delegate in both directions and hashes like it. |
| FixedSANCertificate.NoAddedNames | src/test/java/com/exasol/bucketfs/http/FixedSANCertificateTest.java:28-38 | With no added names the delegate's names come back as they are, and null comes back as the empty list. |
| FixedSANCertificate.HostAndIpAdded | src/test/java/com/exasol/bucketfs/http/FixedSANCertificateTest.java:40-47 | Delegate names ["a", "b"] with a host and an IP address added give ["a", "b"], [2, "host"], [7, "ipAddr"]. |
| SubjectAltNameTrustManager.Wrap | src/main/java/com/exasol/bucketfs/http/SubjectAltNameTrustManager.java:29-39 | Without names the delegate itself is returned. With names, an X509 extended manager is wrapped with exactly those names, in a wrapper that satisfies Valid. Any other manager throws IllegalArgumentException naming its class. |
| SubjectAltNameTrustManager.WithAlternativeNames | src/main/java/com/exasol/bucketfs/http/SubjectAltNameTrustManager.java:58-73 | The forwarded chain has the same length. Its first certificate is the fixed one over the original, and the rest are unchanged. |
| SubjectAltNameTrustManager.SubjectAltNameTrustManager.ReplaceFirstCertificate | src/main/java/com/exasol/bucketfs/http/SubjectAltNameTrustManager.java:67-73 | The method returns a new array of the same length, with the fixed certificate first and the rest copied. |
| SubjectAltNameTrustManager.SubjectAltNameTrustManager.AddAlternativeNames | src/main/java/com/exasol/bucketfs/http/SubjectAltNameTrustManager.java:58-65 | A null or empty chain is returned as it is. Any other chain gives a new array holding WithAlternativeNames of it. |
| SubjectAltNameTrustManager.SubjectAltNameTrustManager.CheckServerTrusted | src/main/java/com/exasol/bucketfs/http/SubjectAltNameTrustManager.java:41-56 | A server check reaches the delegate with the names added to the chain, and with the same auth type and endpoint. |
| SubjectAltNameTrustManager.SubjectAltNameTrustManager.CheckClientTrusted | src/main/java/com/exasol/bucketfs/http/SubjectAltNameTrustManager.java:77-92 | A client check reaches the delegate untouched. |
| SubjectAltNameTrustManager.SubjectAltNameTrustManager.GetAcceptedIssuers | src/main/java/com/exasol/bucketfs/http/SubjectAltNameTrustManager.java:94-97 | The issuers are the delegate's. |
| SubjectAltNameTrustManager.FirstCertificateGainsNames | src/main/java/com/exasol/bucketfs/http/SubjectAltNameTrustManager.java:58-65 | The first certificate the delegate sees reports the original names followed by the added ones. |
| HttpClientBuilder.WrapAll | src/main/java/com/exasol/bucketfs/http/HttpClientBuilder.java:150-156 | Wrapping succeeds iff every manager can be wrapped, and then keeps their order. A failure is that of the first manager that cannot be wrapped. |
| HttpClientBuilder.NoNamesKeepsTrustManagers | src/main/java/com/exasol/bucketfs/http/HttpClientBuilder.java:150-156 | Without alternative names the managers stay as they are. |
| HttpClientBuilder.NamesWrapEveryTrustManager | src/main/java/com/exasol/bucketfs/http/HttpClientBuilder.java:150-156 | With names, every extended manager is wrapped with exactly those names. |
| HttpClientBuilder.HttpClientBuilder.constructor | src/main/java/com/exasol/bucketfs/http/HttpClientBuilder.java:24-26 | A new builder raises TLS errors and has no certificate and no alternative names. |
| HttpClientBuilder.HttpClientBuilder.RaiseTlsErrors | src/main/java/com/exasol/bucketfs/http/HttpClientBuilder.java:40-43 | The method sets the flag, changes nothing else and returns the builder. |
| HttpClientBuilder.HttpClientBuilder.Certificate | src/main/java/com/exasol/bucketfs/http/HttpClientBuilder.java:55-58 | The method sets the certificate, changes nothing else and returns the builder. |
| HttpClientBuilder.HttpClientBuilder.AllowAlternativeHostName | src/main/java/com/exasol/bucketfs/http/HttpClientBuilder.java:69-71 | The method appends a HOSTNAME name. |
| HttpClientBuilder.HttpClientBuilder.AllowAlternativeIPAddress | src/main/java/com/exasol/bucketfs/http/HttpClientBuilder.java:82-84 | The method appends an IP name. |
| HttpClientBuilder.HttpClientBuilder.AllowAltName | src/main/java/com/exasol/bucketfs/http/HttpClientBuilder.java:86-89 | The method appends the name, leaves the other settings and returns the builder. |
| HttpClientBuilder.HttpClientBuilder.CreateTrustManagers | src/main/java/com/exasol/bucketfs/http/HttpClientBuilder.java:112-125 | E-BFSJ-27 is raised iff TLS errors are ignored and a certificate is set. Ignoring errors alone gives the dummy manager. A certificate gives exactly its managers wrapped with the names, or the first wrap error. Otherwise the JVM defaults are used. |
| HttpClientBuilder.CertificateWithNames | src/main/java/com/exasol/bucketfs/http/HttpClientBuilder.java:120-121 | With a certificate whose managers are all X509 extended, every manager is wrapped with the builder's names, in order. |
| AbstractJsonResponseCommand.JsonRpcResponse.ToString | src/main/java/com/exasol/bucketfs/jsonrpc/AbstractJsonResponseCommand.java:115-119 | The text starts with "Response [jobId=", the job id, ", code=", the code and ", name=". It ends with ", output=", the output and "]". A null field reads "null". |
| AbstractJsonResponseCommand.OkNames | src/main/java/com/exasol/bucketfs/jsonrpc/AbstractJsonResponseCommand.java:39 | Java's equalsIgnoreCase against "OK" admits exactly six names: OK, Ok, oK, ok, and O or o followed by the KELVIN SIGN. |
| AbstractJsonResponseCommand.VerifySuccess | src/main/java/com/exasol/bucketfs/jsonrpc/AbstractJsonResponseCommand.java:35-42 | A response passes iff its code is 0 and its name equals "OK" ignoring case; a null name fails. A non-zero code gives the "non-zero result code" exception. A zero code with another name gives the "non-OK result name" exception. Both carry the response's text. |
| AbstractJsonResponseCommand.ProcessResult | src/main/java/com/exasol/bucketfs/jsonrpc/AbstractJsonResponseCommand.java:28-33 | The result is the subclass's processing of the output iff verification passes. Otherwise it is verification's exception and nothing is processed. |
| AbstractJsonResponseCommand.UnitTestResponses | src/test/java/com/exasol/bucketfs/jsonrpc/CreateBucketCommandTest.java:80-107 | (0, "error name") fails, (1, "OK") fails and (0, "OK") passes, whatever the other fields hold. |
| AbstractJsonResponseCommand.CodeCheckedFirst | src/main/java/com/exasol/bucketfs/jsonrpc/AbstractJsonResponseCommand.java:36-41 | With both the code and the name wrong, the exception reports the non-zero code. |
| JsonResponseCommand.VerifySuccess | src/main/java/com/exasol/bucketfs/jsonrpc/JsonResponseCommand.java:32-39 | A response passes iff its code is 0 and its name equals "OK" ignoring case. A non-zero code is reported before the name is looked at. |
| JsonResponseCommand.ProcessResult | src/main/java/com/exasol/bucketfs/jsonrpc/JsonResponseCommand.java:25-30 | The output is processed iff verification passes, and the result is that processing. |
| JsonResponseCommand.SameAsAbstractCommand | src/main/java/com/exasol/bucketfs/jsonrpc/JsonResponseCommand.java:25-39 | The older copy accepts and rejects exactly the responses the abstract command does, with the same exceptions and results. |
| JsonRpcClient.JavaDiv | src/main/java/com/exasol/bucketfs/jsonrpc/JsonRpcClient.java:54 | Java's int division rounds toward zero: it agrees with Dafny's on non-negative numbers and mirrors it on negative ones. |
| JsonRpcClient.SuccessStatusRange | src/main/java/com/exasol/bucketfs/jsonrpc/JsonRpcClient.java:53-60 | The check status / 100 == 2 holds exactly for the statuses 200 to 299, negative statuses included. |
| JsonRpcClient.UnitTestStatuses | src/test/java/com/exasol/bucketfs/jsonrpc/JsonRpcClientTest.java:38-60 | The statuses 200 and 250 pass, and 404 fails. |
| JsonRpcClient.ResponseOutcome | src/main/java/com/exasol/bucketfs/jsonrpc/JsonRpcClient.java:53-71 | A response passes iff it arrived with a 2xx status, and then its body is returned unchanged. A non-2xx status gives the exception "Received non-ok response status <status> for request <request>. Response body: '<body>'", without a cause. An I/O error or an interrupt gives "Error executing request '<request>'". Its cause is the IOException with its detail, or the InterruptedException. |
| JsonRpcClient.JsonRpcClient.BuildRequest | src/main/java/com/exasol/bucketfs/jsonrpc/JsonRpcClient.java:43-51 | The request goes to the service URI. Its body is the serialised payload, and its one header is the authenticator's Authorization header. |
| JsonRpcClient.JsonRpcClient.SendRequest | src/main/java/com/exasol/bucketfs/jsonrpc/JsonRpcClient.java:32-41 | The method builds the request as BuildRequest does; the result is ResponseOutcome of the exchange. |
| JsonRpcClient.NewClient | src/main/java/com/exasol/bucketfs/jsonrpc/JsonRpcClient.java:24-30 | A client is made iff no argument is null. Otherwise the NullPointerException names the first null argument, in the order httpClient, serializer, authenticator, serviceUri. A client keeps the arguments it was given. |
| CreateBucketCommand.Base64Encode | src/main/java/com/exasol/bucketfs/jsonrpc/CreateBucketCommand.java:64-69 | A null password stays null. Any other password becomes text that decodes as Base64 back to its UTF-8 bytes, and those bytes back to the password. |
| CreateBucketCommand.EncodesTestPasswords | src/test/java/com/exasol/bucketfs/jsonrpc/CreateBucketCommandTest.java:67-78 | "read" encodes to "cmVhZA==" and "write" to "d3JpdGU=". |
| CreateBucketCommand.NewRequest | src/main/java/com/exasol/bucketfs/jsonrpc/CreateBucketCommand.java:55-62 | A request is made iff both names are present. A missing bucketFsName is reported before a missing bucketName. The names, the public flag and the additional files are copied, and both passwords are Base64-encoded. |
| CreateBucketCommand.CreateBucketCommand.ProcessResult | src/main/java/com/exasol/bucketfs/jsonrpc/CreateBucketCommand.java:28-31 | The command succeeds iff the response code is 0 and its name is "OK" ignoring case. |
| CreateBucketCommand.JsonRpcCommandExecutor.constructor | src/main/java/com/exasol/bucketfs/jsonrpc/JsonRpcCommandExecutor.java:11-14 | A new executor has run no command. |
| CreateBucketCommand.JsonRpcCommandExecutor.Execute | src/main/java/com/exasol/bucketfs/jsonrpc/JsonRpcCommandExecutor.java:16-22 | The command is appended to the commands run so far. |
| CreateBucketCommand.CreateBucketCommandBuilder.constructor | src/main/java/com/exasol/bucketfs/jsonrpc/CreateBucketCommand.java:110-120 | A new builder has no names, is not public, and has no passwords and no additional files. |
| CreateBucketCommand.CreateBucketCommandBuilder.BucketFsName | src/main/java/com/exasol/bucketfs/jsonrpc/CreateBucketCommand.java:128-131 | The method sets bucketFsName, leaves every other setting and returns the builder. |
| CreateBucketCommand.CreateBucketCommandBuilder.BucketName | src/main/java/com/exasol/bucketfs/jsonrpc/CreateBucketCommand.java:139-142 | The method sets bucketName, leaves every other setting and returns the builder. |
| CreateBucketCommand.CreateBucketCommandBuilder.IsPublic | src/main/java/com/exasol/bucketfs/jsonrpc/CreateBucketCommand.java:150-153 | The method sets the public flag, leaves every other setting and returns the builder. |
| CreateBucketCommand.CreateBucketCommandBuilder.ReadPassword | src/main/java/com/exasol/bucketfs/jsonrpc/CreateBucketCommand.java:161-164 | The method sets the read password, leaves every other setting and returns the builder. |
| CreateBucketCommand.CreateBucketCommandBuilder.WritePassword | src/main/java/com/exasol/bucketfs/jsonrpc/CreateBucketCommand.java:172-175 | The method sets the write password, leaves every other setting and returns the builder. |
| CreateBucketCommand.CreateBucketCommandBuilder.AdditionalFiles | src/main/java/com/exasol/bucketfs/jsonrpc/CreateBucketCommand.java:184-187 | The method sets the additional files, leaves every other setting and returns the builder. |
| CreateBucketCommand.CreateBucketCommandBuilder.Execute | src/main/java/com/exasol/bucketfs/jsonrpc/CreateBucketCommand.java:194-196 | When the current settings make a request, exactly one command with that request is handed to the executor. Otherwise the request's NullPointerException is the result and the executor gets nothing. |
| CreateBucketCommand.DefaultValues | src/test/java/com/exasol/bucketfs/jsonrpc/CreateBucketCommandTest.java:48-58 | With only the names set, the request is not public and has no passwords. |
| CreateBucketCommand.CustomValues | src/test/java/com/exasol/bucketfs/jsonrpc/CreateBucketCommandTest.java:67-78 | A public request with the passwords "read" and "write" carries "cmVhZA==" and "d3JpdGU=". |
| CreateBucketCommand.MissingNames | src/test/java/com/exasol/bucketfs/jsonrpc/CreateBucketCommandTest.java:27-46 | With no names, the exception names bucketFsName. With only bucketFsName set, it names bucketName. |

## Left out

- SHA-512 itself (`hashlib.sha512`, `MessageDigest`) is a library call. It enters as a function parameter from octet strings to 64-octet digests, and no property of the hash beyond its length is assumed.
- The HTTP transport (`HttpClient.send`), the JDBC statements of the checksum UDF, JSON-B (`JsonMapper`), `CommandFactory` and `HttpClientFactory` are library wrappers. Each becomes an input: an exchange value, a database outcome or a serialising function.
- `java.net.URI` parsing and normalisation are library code. URIs are strings built by concatenation.
- `WriteEnabledBucket.CreateWriteUri` only concatenates the write URI and has no contract of its own. The uploads that use it state the URI they send to. Java builds it with `new URI(...).normalize()`, which collapses "//", resolves "." and ".." segments and percent-quotes illegal characters. None of that is modelled. The `URISyntaxException` path ("Unable to create write URI.") cannot arise either, because concatenation never fails.
- The ExaError library's rendering of messages (quoting, placeholder syntax) is a foreign library. Such messages are kept as their code and their placeholder values.
- `ListingProvider.PathToBeListedNotFound`: the E-BFSJ-11 message also names the provider itself (`this`). `ListingProvider` has no `toString`, so Java prints its class name and identity hash, which no input determines. The model keeps only the path.
- `SubjectAltNameTrustManager.Wrap` and `HttpClientBuilder.HttpClientBuilder.CreateTrustManagers`: Java hands the builder's own `ArrayList` of alternative names to the wrapper, and each `FixedSANCertificate` reads that list when a certificate is checked. A name allowed after `build()` therefore reaches a client already built, as long as the list was non-empty at build time. The model copies the names as a value when it wraps, so later additions are not seen.
- The JDK's security APIs are foreign libraries with no logic of their own: `SSLContext`, `KeyStore` and `TrustManagerFactory` in `HttpClientBuilder.build` and `createTrustManagerForCertificate`, with their errors E-BFSJ-20, E-BFSJ-25 and E-BFSJ-26. Trust managers and certificates are opaque values. The no-op `DummyTrustManager` is a single opaque value.
- `FixedSANCertificate.Certificate.GetSubjectAlternativeNames`: a `CertificateParsingException` from the delegate is not modelled, because the delegate is opaque.
- `Thread.sleep`, `synchronized getBucket`, the interrupt flag that the catch blocks restore, and all concurrency: only the decisions are modelled. A throttle yields the delay it would sleep, and the wait loop reads the clock from a sequence of readings.
- `SyncAwareBucket.SyncAwareBucket.WaitForFileToBeSynchronized`: the BucketFS monitor is an oracle of answers per poll. Its own implementations (log-based, timestamp retrieval) are test or I/O code and are not part of this model.
- `TimestampState.of` and `getRepresentation` convert through `LocalDateTime`, `TimeZone` and `Instant.toString`, which are calendar library code. Instants are integer nanoseconds.
- Logging (`java.util.logging`) does not change any result.
- Interfaces, constants and beans without behaviour have no members of their own here: `Bucket`, `ReadOnlyBucket`, `UnsynchronizedBucket`, `BucketFsMonitor`, `BucketFactory`, `Authenticator`, `RpcCommand` and the `jsonrpc/command` classes. `JsonRpcResponse` and `JsonRpcPayload` are datatypes built whole, so their bean setters are not modelled.
- `UploadAlwaysStrategy`, `AlwaysUploadStrategy` and both `BearerTokenAuthenticator` copies are constants or a bare "Bearer " prefix handed to a foreign builder.
- `CreateBucketCommand.JsonRpcCommandExecutor.Execute` records the command it runs. Serialising the parameters, posting the "job_exec" payload and handing the response to the command's `processResult` are transport, modelled separately by `JsonRpcClient` and `ProcessResult`.
- The Python checksum UDF's `with` statement is modelled by an explicit close on every exit of the read loop.
- `WriteEnabledBucket.Excerpt`: when a supplementary character straddles the 20th UTF-16 unit, Java's `substring(0, 20)` keeps a lone high surrogate. A Dafny character cannot hold a lone surrogate, so the model keeps the 19 units before it.
- `String.getBytes()` uses the platform's default charset. The model always encodes as UTF-8, the default since JDK 18. This covers `ReadEnabledBucket.DownloadFile` and the basic-auth encoding in `ReadEnabledBucket`, `WriteEnabledBucket` and both `BasicAuthAuthenticator` copies.
- `SyncAwareBucket.WaitFrom`: its TimeoutException keeps the three values the message names: the object, the fully qualified bucket name and the instant. The text around them is not built, and neither is `Instant.toString`'s ISO-8601 rendering.
- `ReadEnabledBucket.DownloadFile`: what `Files.write` does is an input, either success or an IOException detail. Directories, permissions and partial writes are not modelled.
- String order: `String.compareTo` compares UTF-16 code units, while Dafny compares characters as code points. The two differ only between supplementary characters and the code points U+E000 to U+FFFF.
- Java's `String.equalsIgnoreCase` is modelled only for the one constant it is used against, "OK".
- `HttpRequest.toString()`, which appears in the JSON-RPC client's messages, is taken to be the URI, a space and the method, as the JDK renders it.
- A null string inside a concatenated message reads "null", as in Java; missing values are `None` and print through `JavaString.Show`.
- Several unit tests target a newer interface than the main sources, and their expectations are not modelled: the E-BFSJ-18, E-BFSJ-22, E-BFSJ-23 and E-BFSJ-24 texts, `useBase64EncodedPasswords`, and `host()`, `useTls()` and `getPathInUdf` on a bucket. The messages follow the main sources. `getPathInUdf` becomes the parameter `pathInUdf` of the upload-necessity check.
- `src/main/java/com/exasol/bucketfs/list/ListingProvider.java` declares the class `AbstractListingProvider` but names its constructor `ListingProvider`, so as written it does not compile. The model follows the evident intent: a constructor of `AbstractListingProvider`.
- `ChecksumUploadNecessityCheckStrategy.IsUploadNecessary`: the listing's checked `InterruptedException` is not among the exceptions the source catches, so the source would not compile as shown. The model lets the listing fail only with a `BucketAccessException`, which the strategy wraps as E-BFSJ-17.
- `ClusterConfigurationBucketFactory.NewBucketSettings`: a bucket name missing from the service configuration reads as null, and dereferencing it is a `NullPointerException`. The JVM's own text for that exception is not modelled; the model names the null value instead.
