/**
 * photos.py: the credential guard, the batch download of the latest media
 * items into the `photos` directory, and the choice of the most recently
 * modified image in that directory.
 *
 * Every foreign call is an input: the token file is its content (or None),
 * `Credentials.valid` and the success of `build(...)` are flags, the media
 * listing is a `Listing`, `requests.get` is the function `net` from a URL to
 * a `Response`, and the clock reading given to written files is `now`.
 */
module Photos {
  import opened Wrappers
  import opened Text

  const DownloadDir: string := "photos"

  /** The only HTTP status on which a downloaded body is written to disk. */
  const StatusOk: int := 200

  /** The lower-cased suffixes that count as image files. */
  const ImageSuffixes: set<string> := {".jpg", ".jpeg", ".png"}

  // ---------------------------------------------------------------------
  // Credentials

  /** `_load_credentials`: the stored token bundle, but only when token.json
      exists and the client library calls the loaded credentials valid. */
  function LoadCredentials(token: Option<string>, credsValid: bool): (creds: Option<string>)
    ensures creds.Some? <==> token.Some? && credsValid
    ensures creds.Some? ==> creds == token
  {
    if token.None? then None
    else if !credsValid then None
    else token
  }

  /** `get_service`: a service exists when credentials load and the client
      library manages to build it (a failed build is caught and gives None). */
  predicate ServiceAvailable(token: Option<string>, credsValid: bool, buildOk: bool) {
    LoadCredentials(token, credsValid).Some? && buildOk
  }

  // ---------------------------------------------------------------------
  // Media items, responses and the directory

  /** A listed media item; a field is None when the item lacks that key. */
  datatype MediaItem = MediaItem(baseUrl: Option<string>, filename: Option<string>, mimeType: Option<string>)

  /** The answer of `mediaItems().list(...).execute()`: the items, or an exception. */
  datatype Listing = Listed(items: seq<MediaItem>) | ListRaised

  /** What fetching a URL and saving its body comes to: the status code of
      `requests.get(url)` when nothing raised; `Raised` when an exception came
      before any file existed (from the request itself, or from `open`);
      `WriteRaised` when the answer was 200 and `open(..., "wb")` had created
      the file, but writing the body raised, leaving an empty or partial file. */
  datatype Response = Response(status: int) | Raised | WriteRaised

  /** The outcomes that leave a file on disk. */
  predicate CreatesFile(r: Response) {
    r == Response(StatusOk) || r.WriteRaised?
  }

  /** One directory entry as `iterdir` and `stat` see it. */
  datatype DirEntry = DirEntry(name: string, isFile: bool, mtime: int)

  /** Python truthiness of an optional string: present and non-empty. */
  predicate Truthy(s: Option<string>) {
    s.Some? && s.value != ""
  }

  /** The items the loop does not `continue` past. */
  predicate Eligible(item: MediaItem) {
    Truthy(item.baseUrl) && Truthy(item.filename) && StartsWith(item.mimeType.GetOr(""), "image/")
  }

  /** The full-download URL: the base URL with the `=d` modifier. */
  function DownloadUrl(item: MediaItem): string
    requires Eligible(item)
  {
    item.baseUrl.value + "=d"
  }

  /** `str(DOWNLOAD_DIR / filename)`. */
  function PathOf(name: string): string {
    DownloadDir + "/" + name
  }

  function Names(dir: seq<DirEntry>): set<string> {
    set e | e in dir :: e.name
  }

  function PathsIn(dir: seq<DirEntry>): set<string> {
    set e | e in dir :: PathOf(e.name)
  }

  /** A directory holds at most one entry per name. */
  ghost predicate DistinctNames(dir: seq<DirEntry>) {
    forall i, j :: 0 <= i < j < |dir| ==> dir[i].name != dir[j].name
  }

  // ---------------------------------------------------------------------
  // The download batch, as a specification function

  /** What the loop in `download_latest_photos` has built so far: the returned
      paths, the directory, the URLs requested, and whether an exception ended it. */
  datatype Batch = Batch(paths: seq<string>, dir: seq<DirEntry>, fetched: seq<string>, aborted: bool)

  function Fresh(dir: seq<DirEntry>): Batch {
    Batch([], dir, [], false)
  }

  /** One pass of the loop body on `item`. */
  function ItemStep(b: Batch, item: MediaItem, net: string -> Response, now: int): (r: Batch)
    ensures b.aborted ==> r == b
    ensures b.paths <= r.paths && |r.paths| <= |b.paths| + 1
    ensures b.dir <= r.dir && |r.dir| <= |b.dir| + 1
    ensures b.fetched <= r.fetched && |r.fetched| <= |b.fetched| + 1
  {
    if b.aborted || !Eligible(item) then b
    else
      var name := item.filename.value;
      if name in Names(b.dir) then b.(paths := b.paths + [PathOf(name)])
      else
        var url := DownloadUrl(item);
        match net(url)
        case Raised => b.(fetched := b.fetched + [url], aborted := true)
        case WriteRaised =>
          b.(dir := b.dir + [DirEntry(name, true, now)], fetched := b.fetched + [url], aborted := true)
        case Response(status) =>
          if status == StatusOk then
            b.(paths := b.paths + [PathOf(name)], dir := b.dir + [DirEntry(name, true, now)],
               fetched := b.fetched + [url])
          else b.(fetched := b.fetched + [url])
  }

  /** The loop over `items`, in order, starting from `start`. */
  function Run(items: seq<MediaItem>, start: Batch, net: string -> Response, now: int): (r: Batch)
    ensures start.aborted ==> r == start
    ensures start.paths <= r.paths && start.dir <= r.dir && start.fetched <= r.fetched
    decreases |items|
  {
    if items == [] then start
    else ItemStep(Run(items[..|items| - 1], start, net, now), items[|items| - 1], net, now)
  }

  /** The whole of `download_latest_photos` after `get_service`: a failed
      listing is an exception caught before any item is looked at. */
  function DownloadSpec(available: bool, listing: Listing, dir: seq<DirEntry>,
                        net: string -> Response, now: int): Batch
  {
    if !available then Fresh(dir)
    else match listing
      case ListRaised => Fresh(dir).(aborted := true)
      case Listed(items) => Run(items, Fresh(dir), net, now)
  }

  /** The paths the batch would return if every eligible item ended on disk. */
  function EligiblePaths(items: seq<MediaItem>): seq<string>
    decreases |items|
  {
    if items == [] then []
    else
      var last := items[|items| - 1];
      EligiblePaths(items[..|items| - 1]) + (if Eligible(last) then [PathOf(last.filename.value)] else [])
  }

  /** Filenames of eligible items whose download URL answers 200. */
  function OkNames(items: seq<MediaItem>, net: string -> Response): set<string> {
    set it | it in items && Eligible(it) && net(DownloadUrl(it)) == Response(StatusOk) :: it.filename.value
  }

  /** Filenames of eligible items whose download leaves a file on disk. */
  function CreatedNames(items: seq<MediaItem>, net: string -> Response): set<string> {
    set it | it in items && Eligible(it) && CreatesFile(net(DownloadUrl(it))) :: it.filename.value
  }

  /** Download URLs of eligible items whose file is not in `dir`. */
  function MissingUrls(items: seq<MediaItem>, dir: seq<DirEntry>): set<string> {
    set it | it in items && Eligible(it) && it.filename.value !in Names(dir) :: DownloadUrl(it)
  }

  /** `a` is `b` with some elements left out, order kept. */
  predicate IsSubsequence<T(==)>(a: seq<T>, b: seq<T>)
    decreases |b|
  {
    if a == [] then true
    else if b == [] then false
    else (a[|a| - 1] == b[|b| - 1] && IsSubsequence(a[..|a| - 1], b[..|b| - 1]))
         || IsSubsequence(a, b[..|b| - 1])
  }

  // ---------------------------------------------------------------------
  // Lemmas about the batch

  lemma {:induction false} SubsequenceLength<T>(a: seq<T>, b: seq<T>)
    requires IsSubsequence(a, b)
    ensures |a| <= |b|
    ensures forall x :: x in a ==> x in b
    decreases |b|
  {
    if a != [] {
      var a', b' := a[..|a| - 1], b[..|b| - 1];
      if a[|a| - 1] == b[|b| - 1] && IsSubsequence(a', b') {
        SubsequenceLength(a', b');
        assert a == a' + [a[|a| - 1]] && b == b' + [b[|b| - 1]];
      } else {
        SubsequenceLength(a, b');
        assert b == b' + [b[|b| - 1]];
      }
    }
  }

  lemma {:induction false} EligiblePathsLength(items: seq<MediaItem>)
    ensures |EligiblePaths(items)| <= |items|
    decreases |items|
  {
    if items != [] {
      EligiblePathsLength(items[..|items| - 1]);
    }
  }

  /** Files already present are never replaced or removed; every entry the
      batch adds is a regular file stamped `now`, named after an eligible item
      whose download answered 200 (and was written, or failed while being
      written), and names stay distinct. */
  lemma {:induction false} RunOnlyAppends(items: seq<MediaItem>, dir: seq<DirEntry>, net: string -> Response, now: int)
    ensures var r := Run(items, Fresh(dir), net, now);
      && dir <= r.dir
      && (forall k :: |dir| <= k < |r.dir| ==> r.dir[k].isFile && r.dir[k].mtime == now && r.dir[k].name in CreatedNames(items, net))
      && (DistinctNames(dir) ==> DistinctNames(r.dir))
    decreases |items|
  {
    if items != [] {
      var prefix, last := items[..|items| - 1], items[|items| - 1];
      RunOnlyAppends(prefix, dir, net, now);
      var p := Run(prefix, Fresh(dir), net, now);
      var r := ItemStep(p, last, net, now);
      assert CreatedNames(prefix, net) <= CreatedNames(items, net) by {
        forall it | it in prefix ensures it in items { }
      }
      if !p.aborted && Eligible(last) && last.filename.value !in Names(p.dir) {
        var name := last.filename.value;
        forall k | 0 <= k < |p.dir| ensures p.dir[k].name != name {
          assert p.dir[k] in p.dir;
        }
      }
    }
  }

  /** Extending both sequences by the same element, or only the longer one,
      keeps the relation. */
  lemma SubsequenceExtend<T>(a: seq<T>, b: seq<T>, x: T)
    requires IsSubsequence(a, b)
    ensures IsSubsequence(a + [x], b + [x])
    ensures IsSubsequence(a, b + [x])
  {
    assert (a + [x])[..|a|] == a;
    assert (b + [x])[..|b|] == b;
  }

  /** One pass adds at most the item's own path. */
  lemma ItemStepPaths(b: Batch, item: MediaItem, net: string -> Response, now: int)
    ensures var r := ItemStep(b, item, net, now);
      r.paths == b.paths || (Eligible(item) && r.paths == b.paths + [PathOf(item.filename.value)])
  {
  }

  lemma {:induction false} RunPathsSubsequence(items: seq<MediaItem>, dir: seq<DirEntry>, net: string -> Response, now: int)
    ensures IsSubsequence(Run(items, Fresh(dir), net, now).paths, EligiblePaths(items))
    decreases |items|
  {
    if items != [] {
      var prefix, last := items[..|items| - 1], items[|items| - 1];
      RunPathsSubsequence(prefix, dir, net, now);
      var p := Run(prefix, Fresh(dir), net, now);
      var e := EligiblePaths(prefix);
      ItemStepPaths(p, last, net, now);
      var rp := ItemStep(p, last, net, now).paths;
      if Eligible(last) {
        var x := PathOf(last.filename.value);
        assert EligiblePaths(items) == e + [x];
        SubsequenceExtend(p.paths, e, x);
      } else {
        assert EligiblePaths(items) == e + [];
        assert e + [] == e;
      }
    }
  }

  /** The returned paths follow item order: they are the eligible items'
      `photos/<filename>` paths with some left out; so there are at most as
      many as items. */
  lemma RunPathsInItemOrder(items: seq<MediaItem>, dir: seq<DirEntry>, net: string -> Response, now: int)
    ensures IsSubsequence(Run(items, Fresh(dir), net, now).paths, EligiblePaths(items))
    ensures |Run(items, Fresh(dir), net, now).paths| <= |items|
  {
    RunPathsSubsequence(items, dir, net, now);
    SubsequenceLength(Run(items, Fresh(dir), net, now).paths, EligiblePaths(items));
    EligiblePathsLength(items);
  }

  /** Every returned path names an entry of the directory afterwards. */
  lemma {:induction false} RunPathsExist(items: seq<MediaItem>, dir: seq<DirEntry>, net: string -> Response, now: int)
    ensures forall k :: 0 <= k < |Run(items, Fresh(dir), net, now).paths| ==>
              Run(items, Fresh(dir), net, now).paths[k] in PathsIn(Run(items, Fresh(dir), net, now).dir)
    decreases |items|
  {
    if items != [] {
      var prefix, last := items[..|items| - 1], items[|items| - 1];
      RunPathsExist(prefix, dir, net, now);
      var p := Run(prefix, Fresh(dir), net, now);
      var r := ItemStep(p, last, net, now);
      assert p.dir <= r.dir;
      assert PathsIn(p.dir) <= PathsIn(r.dir) by {
        forall e | e in p.dir ensures e in r.dir { }
      }
      forall k | 0 <= k < |p.paths| ensures p.paths[k] in PathsIn(r.dir) {
        assert p.paths[k] in PathsIn(p.dir);
      }
      if r.paths != p.paths {
        var name := last.filename.value;
        assert r.paths == p.paths + [PathOf(name)];
        if name in Names(p.dir) {
          var e :| e in p.dir && e.name == name;
          assert PathOf(name) in PathsIn(p.dir);
        } else {
          assert r.dir[|r.dir| - 1] in r.dir;
        }
        assert PathOf(name) in PathsIn(r.dir);
        forall k | 0 <= k < |r.paths| ensures r.paths[k] in PathsIn(r.dir) {
          if k < |p.paths| {
            assert r.paths[k] == p.paths[k];
          }
        }
      }
    }
  }

  /** Only missing files are fetched: each requested URL is the `=d` URL of an
      eligible item whose filename the directory did not hold at the start. */
  lemma {:induction false} RunFetchesOnlyMissing(items: seq<MediaItem>, dir: seq<DirEntry>, net: string -> Response, now: int)
    ensures var r := Run(items, Fresh(dir), net, now);
      forall k :: 0 <= k < |r.fetched| ==> r.fetched[k] in MissingUrls(items, dir)
    decreases |items|
  {
    if items != [] {
      var prefix, last := items[..|items| - 1], items[|items| - 1];
      RunFetchesOnlyMissing(prefix, dir, net, now);
      RunOnlyAppends(prefix, dir, net, now);
      var p := Run(prefix, Fresh(dir), net, now);
      assert MissingUrls(prefix, dir) <= MissingUrls(items, dir) by {
        forall it | it in prefix ensures it in items { }
      }
      if !p.aborted && Eligible(last) && last.filename.value !in Names(p.dir) {
        assert Names(dir) <= Names(p.dir) by {
          forall e | e in dir ensures e in p.dir { }
        }
      }
    }
  }

  /** When every eligible item's file is already present, nothing is fetched,
      the directory is unchanged and every eligible path is returned. */
  lemma {:induction false} CachedFetchesNothing(items: seq<MediaItem>, dir: seq<DirEntry>, net: string -> Response, now: int)
    requires forall it :: it in items && Eligible(it) ==> it.filename.value in Names(dir)
    ensures var r := Run(items, Fresh(dir), net, now);
      r.fetched == [] && r.dir == dir && r.paths == EligiblePaths(items) && !r.aborted
    decreases |items|
  {
    if items != [] {
      CachedFetchesNothing(items[..|items| - 1], dir, net, now);
    }
  }

  /** When every eligible download answers 200, no exception stops the batch,
      every eligible path is returned and every eligible file is present. */
  lemma {:induction false} AllOkFetchesAll(items: seq<MediaItem>, dir: seq<DirEntry>, net: string -> Response, now: int)
    requires forall it :: it in items && Eligible(it) ==> net(DownloadUrl(it)) == Response(StatusOk)
    ensures var r := Run(items, Fresh(dir), net, now);
      && !r.aborted
      && r.paths == EligiblePaths(items)
      && forall it :: it in items && Eligible(it) ==> it.filename.value in Names(r.dir)
    decreases |items|
  {
    if items != [] {
      var prefix, last := items[..|items| - 1], items[|items| - 1];
      AllOkFetchesAll(prefix, dir, net, now);
      var p := Run(prefix, Fresh(dir), net, now);
      var r := ItemStep(p, last, net, now);
      assert p.dir <= r.dir;
      forall it | it in items && Eligible(it) ensures it.filename.value in Names(r.dir) {
        if it in prefix {
          var e :| e in p.dir && e.name == it.filename.value;
          assert e in r.dir;
        } else {
          assert it == last;
          if it.filename.value !in Names(p.dir) {
            assert r.dir[|r.dir| - 1] in r.dir;
          } else {
            var e :| e in p.dir && e.name == it.filename.value;
            assert e in r.dir;
          }
        }
      }
    }
  }

  /** Running the same listing a second time after a batch in which every
      download answered 200 makes no request at all and adds no file. */
  lemma RerunFetchesNothing(items: seq<MediaItem>, dir: seq<DirEntry>, net: string -> Response, now: int, later: int)
    requires forall it :: it in items && Eligible(it) ==> net(DownloadUrl(it)) == Response(StatusOk)
    ensures var first := Run(items, Fresh(dir), net, now);
      var second := Run(items, Fresh(first.dir), net, later);
      second.fetched == [] && second.dir == first.dir && second.paths == first.paths
  {
    AllOkFetchesAll(items, dir, net, now);
    var first := Run(items, Fresh(dir), net, now);
    CachedFetchesNothing(items, first.dir, net, later);
  }

  /** A status other than 200 skips only its own item: when every download
      the batch could request answers with some status (no exception), the
      batch runs to the end. */
  lemma {:induction false} RunWithoutExceptionCompletes(items: seq<MediaItem>, dir: seq<DirEntry>, net: string -> Response, now: int)
    ensures (forall it :: it in items && Eligible(it) ==> net(DownloadUrl(it)).Response?) ==>
              !Run(items, Fresh(dir), net, now).aborted
    decreases |items|
  {
    if items != [] && forall it :: it in items && Eligible(it) ==> net(DownloadUrl(it)).Response? {
      var prefix, last := items[..|items| - 1], items[|items| - 1];
      assert items == prefix + [last];
      RunWithoutExceptionCompletes(prefix, dir, net, now);
    }
  }

  /** A batch in which downloads answer 404 or 500 but none raises: it runs
      to the end, skipping only the failed items, ends with exactly the files
      present at the start plus the 200 ones, and returns every path that was
      present or answered 200. */
  lemma StatusFailuresSkipOnlyTheirItems(items: seq<MediaItem>, dir: seq<DirEntry>, net: string -> Response, now: int)
    requires forall it :: it in items && Eligible(it) ==> net(DownloadUrl(it)).Response?
    ensures !Run(items, Fresh(dir), net, now).aborted
    ensures Names(Run(items, Fresh(dir), net, now).dir) == Names(dir) + OkNames(items, net)
    ensures forall it :: it in items && Eligible(it)
                         && (it.filename.value in Names(dir) || net(DownloadUrl(it)) == Response(StatusOk)) ==>
                         PathOf(it.filename.value) in Run(items, Fresh(dir), net, now).paths
  {
    RunWithoutExceptionCompletes(items, dir, net, now);
    RunNames(items, dir, net, now);
    RunReturnsKept(items, dir, net, now);
  }

  /** Only an exception ends a batch: an aborted batch met an eligible item,
      absent from the directory at the start, whose download raised. */
  lemma {:induction false} AbortHasCause(items: seq<MediaItem>, dir: seq<DirEntry>, net: string -> Response, now: int)
    ensures Run(items, Fresh(dir), net, now).aborted ==>
              exists it :: it in items && Eligible(it) && it.filename.value !in Names(dir) && !net(DownloadUrl(it)).Response?
    decreases |items|
  {
    if items != [] && Run(items, Fresh(dir), net, now).aborted {
      var prefix, last := items[..|items| - 1], items[|items| - 1];
      assert items == prefix + [last];
      var p := Run(prefix, Fresh(dir), net, now);
      if p.aborted {
        AbortHasCause(prefix, dir, net, now);
        var it :| it in prefix && Eligible(it) && it.filename.value !in Names(dir) && !net(DownloadUrl(it)).Response?;
        assert it in items;
      } else {
        assert Names(dir) <= Names(p.dir) by {
          forall e | e in dir ensures e in p.dir { }
        }
        assert last in items;
      }
    }
  }

  /** An exception ends the batch: once a prefix of the items has aborted,
      the remaining items change nothing, so the paths gathered before the
      exception are exactly what is returned. */
  lemma {:induction false} AbortStopsBatch(items: seq<MediaItem>, k: nat, start: Batch, net: string -> Response, now: int)
    requires k <= |items|
    requires Run(items[..k], start, net, now).aborted
    ensures Run(items, start, net, now) == Run(items[..k], start, net, now)
    decreases |items| - k
  {
    if k < |items| {
      var n := |items|;
      var prefix := items[..n - 1];
      assert prefix[..k] == items[..k];
      AbortStopsBatch(prefix, k, start, net, now);
      assert items[..n] == items;
    } else {
      assert items[..k] == items;
    }
  }

  lemma NamesSnoc(dir: seq<DirEntry>, e: DirEntry)
    ensures Names(dir + [e]) == Names(dir) + {e.name}
  {
    forall x | x in dir + [e] ensures x in dir || x == e { }
    assert e in dir + [e];
    forall x | x in dir ensures x in dir + [e] { }
  }

  lemma OkNamesSnoc(prefix: seq<MediaItem>, last: MediaItem, net: string -> Response)
    ensures OkNames(prefix + [last], net) ==
            OkNames(prefix, net) + (if Eligible(last) && net(DownloadUrl(last)) == Response(StatusOk) then {last.filename.value} else {})
  {
    assert forall it :: it in prefix + [last] <==> it in prefix || it == last;
  }

  /** A batch that no exception ended holds exactly the files present at the
      start plus those of the eligible items whose download answered 200. */
  lemma {:induction false} RunNames(items: seq<MediaItem>, dir: seq<DirEntry>, net: string -> Response, now: int)
    ensures !Run(items, Fresh(dir), net, now).aborted ==>
      Names(Run(items, Fresh(dir), net, now).dir) == Names(dir) + OkNames(items, net)
    decreases |items|
  {
    if items != [] {
      var prefix, last := items[..|items| - 1], items[|items| - 1];
      var p := Run(prefix, Fresh(dir), net, now);
      var r := ItemStep(p, last, net, now);
      if !r.aborted {
        RunNames(prefix, dir, net, now);
        assert items == prefix + [last];
        OkNamesSnoc(prefix, last, net);
        if Eligible(last) && last.filename.value !in Names(p.dir) && net(DownloadUrl(last)) == Response(StatusOk) {
          NamesSnoc(p.dir, DirEntry(last.filename.value, true, now));
        } else {
          assert r.dir == p.dir;
        }
      }
    }
  }

  /** A batch that no exception ended returns the path of every eligible item
      whose file was present at the start or whose download answered 200. */
  lemma {:induction false} RunReturnsKept(items: seq<MediaItem>, dir: seq<DirEntry>, net: string -> Response, now: int)
    ensures !Run(items, Fresh(dir), net, now).aborted ==>
      forall it :: it in items && Eligible(it)
                   && (it.filename.value in Names(dir) || net(DownloadUrl(it)) == Response(StatusOk)) ==>
                   PathOf(it.filename.value) in Run(items, Fresh(dir), net, now).paths
    decreases |items|
  {
    if items != [] {
      var prefix, last := items[..|items| - 1], items[|items| - 1];
      var p := Run(prefix, Fresh(dir), net, now);
      var r := ItemStep(p, last, net, now);
      if !r.aborted {
        RunReturnsKept(prefix, dir, net, now);
        RunOnlyAppends(prefix, dir, net, now);
        assert !p.aborted;
        assert Names(dir) <= Names(p.dir) by {
          forall e | e in dir ensures e in p.dir { }
        }
        assert forall x :: x in p.paths ==> x in r.paths;
        forall it | it in items && Eligible(it)
                    && (it.filename.value in Names(dir) || net(DownloadUrl(it)) == Response(StatusOk))
          ensures PathOf(it.filename.value) in r.paths
        {
          if it != last {
            assert it in prefix by {
              assert items == prefix + [last];
            }
          } else {
            assert r.paths == p.paths + [PathOf(it.filename.value)];
          }
        }
      }
    }
  }

  /** A download whose write fails leaves its file behind, so the next batch
      over the same listing takes it for downloaded: it returns the path
      without requesting the URL again. */
  lemma PartialFileCountsAsDownloaded(item: MediaItem, dir: seq<DirEntry>, net: string -> Response, now: int,
                                      later: string -> Response, laterNow: int)
    requires Eligible(item) && item.filename.value !in Names(dir)
    requires net(DownloadUrl(item)) == WriteRaised
    ensures var first := Run([item], Fresh(dir), net, now);
      && first.aborted && first.paths == [] && first.fetched == [DownloadUrl(item)]
      && PathOf(item.filename.value) in PathsIn(first.dir)
      && var second := Run([item], Fresh(first.dir), later, laterNow);
         second.paths == [PathOf(item.filename.value)] && second.fetched == [] && second.dir == first.dir
  {
    var name := item.filename.value;
    assert [item][..0] == [];
    var first := ItemStep(Fresh(dir), item, net, now);
    assert Run([item], Fresh(dir), net, now) == first;
    assert first.dir == dir + [DirEntry(name, true, now)];
    assert first.dir[|dir|] in first.dir;
    assert name in Names(first.dir);
    assert Run([item], Fresh(first.dir), later, laterNow) == ItemStep(Fresh(first.dir), item, later, laterNow);
  }

  // ---------------------------------------------------------------------
  // Choosing the latest image

  function LowerChar(c: char): char {
    if 'A' <= c <= 'Z' then (c as int + 32) as char else c
  }

  function LowerAscii(s: string): (r: string)
    ensures |r| == |s|
  {
    seq(|s|, i requires 0 <= i < |s| => LowerChar(s[i]))
  }

  /** `str.rfind('.')`: the index of the last dot, -1 when there is none. */
  function LastDot(s: string): (i: int)
    ensures -1 <= i < |s|
    ensures i >= 0 ==> s[i] == '.'
    ensures forall j :: i < j < |s| ==> s[j] != '.'
    decreases |s|
  {
    if s == [] then -1
    else if s[|s| - 1] == '.' then |s| - 1
    else LastDot(s[..|s| - 1])
  }

  /** pathlib's `suffix`: the name from its last dot on, unless that dot
      starts the name or ends it. */
  function Suffix(name: string): (sfx: string)
    ensures sfx == "" || (2 <= |sfx| < |name| && sfx == name[|name| - |sfx|..] && sfx[0] == '.' && '.' !in sfx[1..])
  {
    var i := LastDot(name);
    if 0 < i < |name| - 1 then name[i..] else ""
  }

  /** A name has a suffix exactly when its last dot is neither its first
      nor its last character. */
  lemma SuffixPresent(name: string)
    ensures Suffix(name) != "" <==>
      exists i :: 0 < i < |name| - 1 && name[i] == '.' && forall j :: i < j < |name| ==> name[j] != '.'
  {
    var i := LastDot(name);
    assert forall d :: 0 <= d < |name| && name[d] == '.' && (forall j :: d < j < |name| ==> name[j] != '.') ==> d == i;
  }

  predicate IsImageName(name: string) {
    LowerAscii(Suffix(name)) in ImageSuffixes
  }

  /** The entries the comprehension in `get_next_photo` keeps. */
  predicate IsImage(e: DirEntry) {
    e.isFile && IsImageName(e.name)
  }

  lemma LastDotIs(s: string, i: int)
    requires -1 <= i < |s|
    requires i >= 0 ==> s[i] == '.'
    requires forall j :: i < j < |s| ==> s[j] != '.'
    ensures LastDot(s) == i
  {
  }

  lemma ImageNameExamples()
    ensures IsImageName("IMG_0001.JPG") && IsImageName("beach.Jpeg") && IsImageName("a.b.png")
    ensures !IsImageName(".png") && !IsImageName("photo.png.") && !IsImageName("clip.mp4") && !IsImageName("png")
  {
    LastDotIs("IMG_0001.JPG", 8);
    LastDotIs("beach.Jpeg", 5);
    LastDotIs("a.b.png", 3);
    LastDotIs(".png", 0);
    LastDotIs("photo.png.", 9);
    LastDotIs("clip.mp4", 4);
    LastDotIs("png", -1);
    assert LowerAscii(".JPG") == ".jpg";
    assert LowerAscii(".Jpeg") == ".jpeg";
    assert LowerAscii(".png") == ".png";
    assert LowerAscii(".mp4") == ".mp4";
  }

  /** The comprehension in `get_next_photo`: the image files of the
      directory, in listing order. */
  function ImageFiles(dir: seq<DirEntry>): (files: seq<DirEntry>)
    ensures forall e :: e in files <==> e in dir && IsImage(e)
    ensures |files| <= |dir|
    decreases |dir|
  {
    if dir == [] then []
    else
      var n := |dir| - 1;
      assert dir == dir[..n] + [dir[n]];
      ImageFiles(dir[..n]) + (if IsImage(dir[n]) then [dir[n]] else [])
  }

  /** `max(files, key=mtime)`: the index of the first file whose mtime no
      other file exceeds (Python's `max` keeps the first of equal keys). */
  function MaxIndex(files: seq<DirEntry>): (k: nat)
    requires files != []
    ensures k < |files|
    ensures forall j :: 0 <= j < |files| ==> files[j].mtime <= files[k].mtime
    ensures forall j :: 0 <= j < k ==> files[j].mtime < files[k].mtime
    decreases |files|
  {
    var n := |files| - 1;
    if n == 0 then 0
    else
      var p := MaxIndex(files[..n]);
      assert files[..n][p] == files[p];
      if files[n].mtime > files[p].mtime then n else p
  }

  /** What `get_next_photo` returns; `DirMissing` stands for the exception
      `iterdir` raises when the directory was never created. */
  datatype NextPhoto = Photo(path: string) | NoPhoto | DirMissing

  /** The selection step of `get_next_photo` on an existing directory:
      None when it holds no image file, otherwise the path of an image file
      whose mtime is at least that of every image file. */
  function SelectNext(dir: seq<DirEntry>): (r: NextPhoto)
    ensures r.NoPhoto? <==> forall e :: e in dir ==> !IsImage(e)
    ensures r.Photo? ==> r.path in PathsIn(dir) && r.path != ""
    ensures r.Photo? ==> exists e :: e in dir && IsImage(e) && r.path == PathOf(e.name)
                          && forall e' :: e' in dir && IsImage(e') ==> e'.mtime <= e.mtime
    ensures !r.DirMissing?
  {
    var files := ImageFiles(dir);
    if files == [] then NoPhoto
    else
      var k := MaxIndex(files);
      var latest := files[k];
      assert latest in files;
      assert forall e' :: e' in dir && IsImage(e') ==> e'.mtime <= latest.mtime by {
        forall e' | e' in dir && IsImage(e') ensures e'.mtime <= latest.mtime {
          assert e' in files;
          var j :| 0 <= j < |files| && files[j] == e';
        }
      }
      assert PathOf(latest.name) in PathsIn(dir);
      Photo(PathOf(latest.name))
  }

  // ---------------------------------------------------------------------
  // The directory as the program changes it

  /** The `photos` directory: whether it exists, and its entries in the
      order `iterdir` lists them. */
  class PhotoDir {
    var dirExists: bool
    var entries: seq<DirEntry>

    ghost predicate Valid()
      reads this
    {
      DistinctNames(entries) && (!dirExists ==> entries == [])
    }

    constructor (dirExists: bool, entries: seq<DirEntry>)
      requires DistinctNames(entries) && (!dirExists ==> entries == [])
      ensures Valid() && this.dirExists == dirExists && this.entries == entries
    {
      this.dirExists := dirExists;
      this.entries := entries;
    }

    /** `os.path.exists(path)` for a path under the directory. */
    function HasPath(path: string): (b: bool)
      reads this
      ensures b <==> path in PathsIn(entries)
    {
      exists e :: e in entries && PathOf(e.name) == path
    }

    /** `download_latest_photos`: returns the paths and reports the URLs it requested. */
    method DownloadLatestPhotos(token: Option<string>, credsValid: bool, buildOk: bool,
                                listing: Listing, net: string -> Response, now: int)
      returns (paths: seq<string>, fetched: seq<string>)
      requires Valid()
      modifies this
      ensures Valid()
      ensures var r := DownloadSpec(ServiceAvailable(token, credsValid, buildOk), listing, old(entries), net, now);
        paths == r.paths && fetched == r.fetched && entries == r.dir
      ensures dirExists == (old(dirExists) || ServiceAvailable(token, credsValid, buildOk))
      ensures !ServiceAvailable(token, credsValid, buildOk) ==> paths == [] && fetched == [] && entries == old(entries)
    {
      if !ServiceAvailable(token, credsValid, buildOk) {
        return [], [];
      }
      if !dirExists {
        dirExists := true;
      }
      paths, fetched := [], [];
      if listing.ListRaised? {
        return;
      }
      var items := listing.items;
      var aborted := false;
      var i := 0;
      while i < |items| && !aborted
        invariant 0 <= i <= |items|
        invariant Batch(paths, entries, fetched, aborted) == Run(items[..i], Fresh(old(entries)), net, now)
        invariant DistinctNames(entries) && dirExists
      {
        var item := items[i];
        if Eligible(item) {
          var name := item.filename.value;
          if name in Names(entries) {
            paths := paths + [PathOf(name)];
          } else {
            var url := DownloadUrl(item);
            fetched := fetched + [url];
            var response := net(url);
            forall k | 0 <= k < |entries| ensures entries[k].name != name {
              assert entries[k] in entries;
            }
            if response.Raised? {
              aborted := true;
            } else if response.WriteRaised? {
              entries := entries + [DirEntry(name, true, now)];
              aborted := true;
            } else if response.status == StatusOk {
              entries := entries + [DirEntry(name, true, now)];
              paths := paths + [PathOf(name)];
            }
          }
        }
        assert items[..i + 1][..i] == items[..i];
        i := i + 1;
      }
      if aborted {
        AbortStopsBatch(items, i, Fresh(old(entries)), net, now);
      } else {
        assert items[..i] == items;
      }
    }

    /** `get_next_photo`: a download (requested with page size 1), then the
        selection among the directory's image files. */
    method GetNextPhoto(token: Option<string>, credsValid: bool, buildOk: bool,
                        listing: Listing, net: string -> Response, now: int)
      returns (next: NextPhoto)
      requires Valid()
      modifies this
      ensures Valid()
      ensures entries == DownloadSpec(ServiceAvailable(token, credsValid, buildOk), listing, old(entries), net, now).dir
      ensures dirExists == (old(dirExists) || ServiceAvailable(token, credsValid, buildOk))
      ensures next == if dirExists then SelectNext(entries) else DirMissing
      ensures next.Photo? ==> HasPath(next.path)
    {
      var _, _ := DownloadLatestPhotos(token, credsValid, buildOk, listing, net, now);
      if !dirExists {
        return DirMissing;
      }
      next := SelectNext(entries);
    }
  }
}
