/** The stand-alone server's cache of finished videos on disk (`optCache`):
    files named `<convertTs>-<id>.mp4` in `./src/`, listed on every request,
    pruned by at most one file per call, and indexed by the id recovered from
    the file name. The directory listing is an input; deleting a file is
    reported as the name to delete. */
module DiskCache {
  import opened Text
  import opened Wrappers
  import EncodeGraph

  /** `filename.slice(14, -4)`: the id part of `<13 digits>-<id>.mp4`. */
  function CacheKey(filename: string): string {
    JsSlice(filename, 14, -4)
  }

  /** Slicing inverts the naming: a video saved at a 13-digit millisecond
      timestamp is found again under exactly its id. */
  lemma CacheKeyOfSaveName(convertTs: nat, id: string)
    requires 1_000_000_000_000 <= convertTs < 10_000_000_000_000
    ensures CacheKey(EncodeGraph.SaveName(false, convertTs, id)) == id
  {
    TimestampHasThirteenDigits(convertTs);
    var name := EncodeGraph.SaveName(false, convertTs, id);
    assert name == NatText(convertTs) + "-" + id + ".mp4";
    assert |name| == 14 + |id| + 4;
    assert name[14..14 + |id|] == id;
  }

  /** The object `cachedFiles`: every listed name under its key, a later name
      replacing an earlier one with the same key. */
  function CacheIndex(files: seq<string>): map<string, string> {
    if files == [] then map[]
    else CacheIndex(files[..|files| - 1])[CacheKey(files[|files| - 1]) := files[|files| - 1]]
  }

  /** `optCache()` on a directory listing: the name it deletes, if any, and
      the index it returns. As written, it drops the first name from the
      list but deletes the name that is then first, the originally second
      one, and that deleted name is still indexed. */
  method OptCache(listing: seq<string>) returns (removed: Option<string>, cachedFiles: map<string, string>)
    ensures removed == if |listing| > 4 then Some(listing[1]) else None
    ensures cachedFiles == CacheIndex(if |listing| > 4 then listing[1..] else listing)
  {
    var files := listing;
    removed := None;
    if |files| > 4 {
      files := files[1..];
      removed := Some(files[0]);
    }
    cachedFiles := IndexListing(files);
  }

  /** The `files.forEach` loop filling `cachedFiles`. */
  method IndexListing(files: seq<string>) returns (cachedFiles: map<string, string>)
    ensures cachedFiles == CacheIndex(files)
  {
    cachedFiles := map[];
    for i := 0 to |files|
      invariant cachedFiles == CacheIndex(files[..i])
    {
      assert files[..i + 1][..i] == files[..i];
      cachedFiles := cachedFiles[CacheKey(files[i]) := files[i]];
    }
    assert files[..|files|] == files;
  }

  /** Every listed name's key is in the index, and every entry of the index
      is a listed name filed under its own key. */
  lemma {:induction false} CacheIndexCovers(files: seq<string>)
    ensures forall f :: f in files ==> CacheKey(f) in CacheIndex(files)
    ensures forall k :: k in CacheIndex(files) ==>
      CacheIndex(files)[k] in files && CacheKey(CacheIndex(files)[k]) == k
  {
    if files != [] {
      var init := files[..|files| - 1];
      CacheIndexCovers(init);
      assert forall f :: f in files ==> f in init || f == files[|files| - 1];
    }
  }

  /** The last name with a given key is the one the index keeps. */
  lemma {:induction false} CacheIndexLastWins(files: seq<string>, i: nat)
    requires i < |files|
    requires forall j :: i < j < |files| ==> CacheKey(files[j]) != CacheKey(files[i])
    ensures CacheKey(files[i]) in CacheIndex(files)
    ensures CacheIndex(files)[CacheKey(files[i])] == files[i]
  {
    if i < |files| - 1 {
      var init := files[..|files| - 1];
      assert forall j :: i < j < |init| ==> init[j] == files[j];
      CacheIndexLastWins(init, i);
    }
  }

  /** The name/key round trip through the cache: a video saved as
      `<convertTs>-<id>.mp4` is what the index returns for `id`, unless a
      later name in the listing carries the same id. */
  lemma SavedVideoFound(files: seq<string>, i: nat, convertTs: nat, id: string)
    requires i < |files|
    requires 1_000_000_000_000 <= convertTs < 10_000_000_000_000
    requires files[i] == EncodeGraph.SaveName(false, convertTs, id)
    requires forall j :: i < j < |files| ==> CacheKey(files[j]) != id
    ensures id in CacheIndex(files) && CacheIndex(files)[id] == files[i]
  {
    CacheKeyOfSaveName(convertTs, id);
    CacheIndexLastWins(files, i);
  }

  /** As written, the name `optCache` deletes stays in the index it returns
      whenever no later name carries the same id, so a request for that id
      is answered from a file that no longer exists. */
  lemma DeletedNameStillIndexed(listing: seq<string>)
    requires |listing| > 4
    requires forall j :: 1 < j < |listing| ==> CacheKey(listing[j]) != CacheKey(listing[1])
    ensures CacheKey(listing[1]) in CacheIndex(listing[1..])
    ensures CacheIndex(listing[1..])[CacheKey(listing[1])] == listing[1]
  {
    CacheIndexLastWins(listing[1..], 0);
  }

  /** The pruning `optCache` evidently intends: delete the first name of the
      listing, the one dropped from the list, and index the rest. In a
      directory listing, where names are distinct, the deleted name is never
      an entry of the index. */
  method PruneOldest(listing: seq<string>) returns (removed: Option<string>, cachedFiles: map<string, string>)
    requires forall i, j :: 0 <= i < j < |listing| ==> listing[i] != listing[j]
    ensures removed == if |listing| > 4 then Some(listing[0]) else None
    ensures cachedFiles == CacheIndex(if |listing| > 4 then listing[1..] else listing)
    ensures removed.Some? ==> forall k :: k in cachedFiles ==> cachedFiles[k] != removed.value
  {
    var files := listing;
    removed := None;
    if |files| > 4 {
      removed := Some(files[0]);
      files := files[1..];
    }
    cachedFiles := IndexListing(files);
    CacheIndexCovers(files);
    if removed.Some? {
      assert forall f :: f in files ==> f != removed.value;
    }
  }
}
