/** `downloadImages`: fetch each listed image in turn, add every one that arrives to the
    `thumbs` folder of the archive, and count successes and failures. */
module Download {
  import opened Pipeline

  /** What fetching one image gave: its bytes, or a failure (a rejected fetch, a response that
      is not ok, or an unreadable body). */
  datatype FetchOutcome = Fetched(bytes: seq<bv8>) | FetchFailed

  /** One `file(name, blob)` call on the archive. */
  datatype ZipEntry = ZipEntry(name: string, bytes: seq<bv8>)

  const Folder: string := "thumbs"

  /** The archive path of an image: the file inside the `thumbs` folder. */
  function EntryName(fileName: string): string {
    Folder + "/" + fileName
  }

  /** The entries added for the given images and outcomes: one per successful fetch, in order. */
  function Downloaded(images: seq<ImageRef>, outcomes: seq<FetchOutcome>): (zip: seq<ZipEntry>)
    requires |outcomes| == |images|
    ensures |zip| <= |images|
  {
    if images == [] then []
    else
      var n := |images| - 1;
      Downloaded(images[..n], outcomes[..n]) + EntryFor(images[n], outcomes[n])
  }

  /** What one attempt adds to the archive: its entry when the fetch succeeded, nothing otherwise. */
  function EntryFor(image: ImageRef, outcome: FetchOutcome): (added: seq<ZipEntry>)
    ensures |added| == (if outcome.Fetched? then 1 else 0)
  {
    match outcome
    case Fetched(b) => [ZipEntry(EntryName(image.fileName), b)]
    case FetchFailed => []
  }

  /** The number of failed fetches. */
  function Failures(outcomes: seq<FetchOutcome>): (n: nat)
    ensures n <= |outcomes|
  {
    if outcomes == [] then 0
    else Failures(outcomes[..|outcomes| - 1]) + (if outcomes[|outcomes| - 1].FetchFailed? then 1 else 0)
  }

  /** The loop of `downloadImages`, with the fetch results given in order. Every image is
      attempted whatever happened before it; the archive receives exactly the successful ones. */
  method DownloadImages(imageUrls: seq<ImageRef>, outcomes: seq<FetchOutcome>)
    returns (zip: seq<ZipEntry>, successCount: nat, failCount: nat)
    requires |outcomes| == |imageUrls|
    ensures zip == Downloaded(imageUrls, outcomes)
    ensures successCount == |zip|
    ensures failCount == Failures(outcomes)
    ensures successCount + failCount == |imageUrls|
  {
    zip, successCount, failCount := [], 0, 0;
    for i := 0 to |imageUrls|
      invariant zip == Downloaded(imageUrls[..i], outcomes[..i])
      invariant failCount == Failures(outcomes[..i])
      invariant successCount == |zip|
      invariant successCount + failCount == i
    {
      assert imageUrls[..i + 1][..i] == imageUrls[..i];
      assert outcomes[..i + 1][..i] == outcomes[..i];
      match outcomes[i] {
        case Fetched(blob) =>
          zip := zip + [ZipEntry(EntryName(imageUrls[i].fileName), blob)];
          successCount := successCount + 1;
        case FetchFailed =>
          failCount := failCount + 1;
      }
    }
    assert imageUrls[..|imageUrls|] == imageUrls;
    assert outcomes[..|outcomes|] == outcomes;
  }

  /** The archive as it unpacks: a later file of the same name replaces an earlier one. */
  function Unpack(zip: seq<ZipEntry>): (files: map<string, seq<bv8>>)
    ensures |files| <= |zip|
  {
    if zip == [] then map[]
    else Unpack(zip[..|zip| - 1])[zip[|zip| - 1].name := zip[|zip| - 1].bytes]
  }

  // ---------------------------------------------------------------- lemmas

  /** Every attempt is either a success or a failure. */
  lemma {:induction false} TallyCoversAll(images: seq<ImageRef>, outcomes: seq<FetchOutcome>)
    requires |outcomes| == |images|
    ensures |Downloaded(images, outcomes)| + Failures(outcomes) == |images|
    decreases |images|
  {
    if images != [] {
      var n := |images| - 1;
      TallyCoversAll(images[..n], outcomes[..n]);
    }
  }

  /** The attempts after position `k` contribute the same entries whatever happened up to `k`:
      a failure does not stop the remaining iterations. */
  lemma {:induction false} DownloadedSplit(images: seq<ImageRef>, outcomes: seq<FetchOutcome>, k: nat)
    requires |outcomes| == |images| && k <= |images|
    ensures Downloaded(images, outcomes)
         == Downloaded(images[..k], outcomes[..k]) + Downloaded(images[k..], outcomes[k..])
    decreases |images|
  {
    if k < |images| {
      var n := |images| - 1;
      DownloadedSplit(images[..n], outcomes[..n], k);
      PrefixOfPrefix(images, n, k);
      PrefixOfPrefix(outcomes, n, k);
      DownloadedSuffixStep(images, outcomes, k);
      AppendAssoc(Downloaded(images[..k], outcomes[..k]), Downloaded(images[..n][k..], outcomes[..n][k..]),
        EntryFor(images[n], outcomes[n]));
    } else {
      assert images[..k] == images && outcomes[..k] == outcomes;
    }
  }

  /** The attempts from `k` on, split off their last one. */
  lemma DownloadedSuffixStep(images: seq<ImageRef>, outcomes: seq<FetchOutcome>, k: nat)
    requires |outcomes| == |images| && k < |images|
    ensures var n := |images| - 1;
      Downloaded(images[k..], outcomes[k..])
      == Downloaded(images[..n][k..], outcomes[..n][k..]) + EntryFor(images[n], outcomes[n])
  {
    var n := |images| - 1;
    SuffixInit(images, n, k);
    SuffixInit(outcomes, n, k);
  }

  lemma PrefixOfPrefix<T>(s: seq<T>, n: nat, k: nat)
    requires k <= n <= |s|
    ensures s[..n][..k] == s[..k]
  {
  }

  lemma SuffixInit<T>(s: seq<T>, n: nat, k: nat)
    requires k < |s| && n == |s| - 1
    ensures s[k..] != [] && s[k..][..|s[k..]| - 1] == s[..n][k..] && s[k..][|s[k..]| - 1] == s[n]
  {
  }

  lemma AppendAssoc<T>(a: seq<T>, b: seq<T>, c: seq<T>)
    ensures (a + b) + c == a + (b + c)
  {
  }

  /** With exactly one failed fetch, at any position, the archive gets all the other images and
      the tally is `n - 1` successes and one failure. */
  lemma {:induction false} OneFailure(images: seq<ImageRef>, outcomes: seq<FetchOutcome>, k: nat)
    requires |outcomes| == |images| && k < |images|
    requires outcomes[k].FetchFailed?
    requires forall i :: 0 <= i < |outcomes| && i != k ==> outcomes[i].Fetched?
    ensures |Downloaded(images, outcomes)| == |images| - 1
    ensures Failures(outcomes) == 1
    decreases |images|
  {
    var n := |images| - 1;
    if k == n {
      AllFetched(images[..n], outcomes[..n]);
    } else {
      OneFailure(images[..n], outcomes[..n], k);
    }
    TallyCoversAll(images, outcomes);
  }

  lemma {:induction false} AllFetched(images: seq<ImageRef>, outcomes: seq<FetchOutcome>)
    requires |outcomes| == |images|
    requires forall i :: 0 <= i < |outcomes| ==> outcomes[i].Fetched?
    ensures |Downloaded(images, outcomes)| == |images|
    ensures Failures(outcomes) == 0
    decreases |images|
  {
    if images != [] {
      var n := |images| - 1;
      AllFetched(images[..n], outcomes[..n]);
    }
  }

  /** The `j`-th archive entry is the image at some position `i`, fetched successfully, named
      after its file name inside `thumbs/`. */
  lemma {:induction false} EntriesAreSuccesses(images: seq<ImageRef>, outcomes: seq<FetchOutcome>, j: nat)
    requires |outcomes| == |images| && j < |Downloaded(images, outcomes)|
    ensures exists i :: (0 <= i < |images| && outcomes[i].Fetched?
      && Downloaded(images, outcomes)[j] == ZipEntry(EntryName(images[i].fileName), outcomes[i].bytes))
    decreases |images|
  {
    var n := |images| - 1;
    var before := Downloaded(images[..n], outcomes[..n]);
    if j < |before| {
      EntriesAreSuccesses(images[..n], outcomes[..n], j);
      var i :| 0 <= i < n && outcomes[..n][i].Fetched?
        && before[j] == ZipEntry(EntryName(images[..n][i].fileName), outcomes[..n][i].bytes);
      assert images[..n][i] == images[i] && outcomes[..n][i] == outcomes[i];
    } else {
      assert outcomes[n].Fetched?;
    }
  }

  /** Image `i`, fetched successfully, produced entry `e`. */
  predicate EntryOf(images: seq<ImageRef>, outcomes: seq<FetchOutcome>, i: int, e: ZipEntry)
    requires |outcomes| == |images|
  {
    0 <= i < |images| && outcomes[i].Fetched? && e == ZipEntry(EntryName(images[i].fileName), outcomes[i].bytes)
  }

  /** Entries stand in input order: of two entries, the earlier one comes from the earlier image. */
  lemma {:induction false} EntriesInInputOrder(images: seq<ImageRef>, outcomes: seq<FetchOutcome>, j1: nat, j2: nat)
    requires |outcomes| == |images| && j1 < j2 < |Downloaded(images, outcomes)|
    ensures exists i1, i2 :: i1 < i2 && EntryOf(images, outcomes, i1, Downloaded(images, outcomes)[j1])
                                     && EntryOf(images, outcomes, i2, Downloaded(images, outcomes)[j2])
    decreases |images|
  {
    var n := |images| - 1;
    var before := Downloaded(images[..n], outcomes[..n]);
    var zip := Downloaded(images, outcomes);
    assert zip == before + EntryFor(images[n], outcomes[n]);
    if j2 < |before| {
      EntriesInInputOrder(images[..n], outcomes[..n], j1, j2);
      var i1, i2 :| i1 < i2 && EntryOf(images[..n], outcomes[..n], i1, before[j1])
                            && EntryOf(images[..n], outcomes[..n], i2, before[j2]);
      EntryOfPrefix(images, outcomes, n, i1, before[j1]);
      EntryOfPrefix(images, outcomes, n, i2, before[j2]);
      assert zip[j1] == before[j1] && zip[j2] == before[j2];
      assert EntryOf(images, outcomes, i1, zip[j1]) && EntryOf(images, outcomes, i2, zip[j2]);
    } else {
      EntriesAreSuccesses(images[..n], outcomes[..n], j1);
      var i1 :| 0 <= i1 < n && outcomes[..n][i1].Fetched?
        && before[j1] == ZipEntry(EntryName(images[..n][i1].fileName), outcomes[..n][i1].bytes);
      assert EntryOf(images[..n], outcomes[..n], i1, before[j1]);
      EntryOfPrefix(images, outcomes, n, i1, before[j1]);
      assert zip[j1] == before[j1];
      assert outcomes[n].Fetched? && zip[j2] == ZipEntry(EntryName(images[n].fileName), outcomes[n].bytes);
      assert EntryOf(images, outcomes, i1, zip[j1]) && EntryOf(images, outcomes, n, zip[j2]);
    }
  }

  lemma EntryOfPrefix(images: seq<ImageRef>, outcomes: seq<FetchOutcome>, n: nat, i: int, e: ZipEntry)
    requires |outcomes| == |images| && n <= |images| && EntryOf(images[..n], outcomes[..n], i, e)
    ensures EntryOf(images, outcomes, i, e)
  {
    assert images[..n][i] == images[i] && outcomes[..n][i] == outcomes[i];
  }

  /** Every successful fetch has its entry in the archive. */
  lemma {:induction false} SuccessesAreEntries(images: seq<ImageRef>, outcomes: seq<FetchOutcome>, i: nat)
    requires |outcomes| == |images| && i < |images| && outcomes[i].Fetched?
    ensures ZipEntry(EntryName(images[i].fileName), outcomes[i].bytes) in Downloaded(images, outcomes)
    decreases |images|
  {
    var n := |images| - 1;
    if i < n {
      SuccessesAreEntries(images[..n], outcomes[..n], i);
      assert images[..n][i] == images[i] && outcomes[..n][i] == outcomes[i];
    }
  }

  /** The unpacked archive holds exactly the names that were added, each with the bytes of the
      last file added under that name. */
  lemma UnpackLastWins(zip: seq<ZipEntry>)
    ensures forall name :: name in Unpack(zip) <==> exists j :: 0 <= j < |zip| && zip[j].name == name
    ensures forall j :: 0 <= j < |zip| && (forall m :: j < m < |zip| ==> zip[m].name != zip[j].name)
              ==> zip[j].name in Unpack(zip) && Unpack(zip)[zip[j].name] == zip[j].bytes
  {
    UnpackNames(zip);
    forall j | 0 <= j < |zip| && (forall m :: j < m < |zip| ==> zip[m].name != zip[j].name)
      ensures zip[j].name in Unpack(zip) && Unpack(zip)[zip[j].name] == zip[j].bytes
    {
      UnpackLast(zip, j);
    }
  }

  /** Some entry carries the name. */
  predicate HasName(zip: seq<ZipEntry>, name: string) {
    exists j :: 0 <= j < |zip| && zip[j].name == name
  }

  lemma {:induction false} UnpackNames(zip: seq<ZipEntry>)
    ensures forall name :: name in Unpack(zip) <==> HasName(zip, name)
    decreases |zip|
  {
    if zip != [] {
      var n := |zip| - 1;
      UnpackNames(zip[..n]);
      forall name ensures name in Unpack(zip) <==> HasName(zip, name) {
        HasNameSnoc(zip, name);
      }
    }
  }

  lemma HasNameSnoc(zip: seq<ZipEntry>, name: string)
    requires zip != []
    ensures HasName(zip, name) <==> HasName(zip[..|zip| - 1], name) || zip[|zip| - 1].name == name
  {
    var n := |zip| - 1;
    if HasName(zip, name) && zip[n].name != name {
      var j :| 0 <= j < |zip| && zip[j].name == name;
      assert zip[..n][j] == zip[j];
    }
    if HasName(zip[..n], name) {
      var j :| 0 <= j < n && zip[..n][j].name == name;
      assert zip[j] == zip[..n][j];
    }
  }

  /** The entry at `j`, when no later entry has its name, is what its name unpacks to. */
  lemma {:induction false} UnpackLast(zip: seq<ZipEntry>, j: nat)
    requires j < |zip| && forall m :: j < m < |zip| ==> zip[m].name != zip[j].name
    ensures zip[j].name in Unpack(zip) && Unpack(zip)[zip[j].name] == zip[j].bytes
    decreases |zip|
  {
    var n := |zip| - 1;
    if j < n {
      assert zip[n].name != zip[j].name;
      assert forall m :: j < m < n ==> zip[..n][m] == zip[m];
      UnpackLast(zip[..n], j);
      assert zip[..n][j] == zip[j];
    }
  }

  /** Two images with the same file name are both counted as downloaded, but the archive
      unpacks to a single file holding the second one's bytes. */
  lemma SameFileNameKeepsOne(a: ImageRef, b: ImageRef, x: seq<bv8>, y: seq<bv8>)
    requires a.fileName == b.fileName
    ensures var zip := Downloaded([a, b], [Fetched(x), Fetched(y)]);
      |zip| == 2 && Unpack(zip) == map[EntryName(a.fileName) := y]
  {
    var ex, ey := ZipEntry(EntryName(a.fileName), x), ZipEntry(EntryName(b.fileName), y);
    assert [a, b][..1] == [a] && [Fetched(x), Fetched(y)][..1] == [Fetched(x)];
    assert [a][..0] == [] && [Fetched(x)][..0] == [];
    assert EntryFor(a, Fetched(x)) == [ex] && EntryFor(b, Fetched(y)) == [ey];
    assert Downloaded([a], [Fetched(x)]) == [ex];
    var zip := Downloaded([a, b], [Fetched(x), Fetched(y)]);
    assert zip == [ex, ey];
    assert zip[..1] == [ex] && zip[..1][..0] == [];
    assert Unpack(zip[..1]) == map[ex.name := x];
  }
}
