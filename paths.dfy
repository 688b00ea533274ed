/**
 * The path helper that ReadEnabledBucket, both ListingProvider classes and
 * ListingRetriever each carry a copy of: drop one leading "/" if there is one.
 */
module BucketPaths {

  import opened JavaString

  /** removeLeadingSlash / removeLeadingSeparator */
  function RemoveLeadingSeparator(path: string): (r: string)
    ensures path == (if StartsWith(path, "/") then "/" else "") + r
  {
    if StartsWith(path, "/") then path[1..] else path
  }

  /** Exactly one separator goes: "//a" keeps one, and a path without one is untouched. */
  lemma RemovesAtMostOne(path: string)
    ensures StartsWith(path, "/") ==> |RemoveLeadingSeparator(path)| == |path| - 1
    ensures !StartsWith(path, "/") ==> RemoveLeadingSeparator(path) == path
    ensures StartsWith(path, "//") ==> StartsWith(RemoveLeadingSeparator(path), "/")
  {
    var r := RemoveLeadingSeparator(path);
    if StartsWith(path, "//") {
      assert r[..1] == path[1..2];
    }
  }
}
