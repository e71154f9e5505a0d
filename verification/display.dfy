/**
 * display.py: the QR-code layout, the choice between the e-paper panel and
 * the debug files, and one step of the photo loop.
 *
 * Hardware detection at import time becomes the constructor argument
 * `detected`: the panel's resolution, or None when `inky.auto()` raised.
 * Pixel work (QR encoding, resizing, cropping, colour conversion) is not
 * modelled; a picture records only what was drawn and at which size.
 */
module Display {
  import opened Wrappers
  import Photos

  /** The resolution assumed when no panel is detected. */
  const DefaultWidth: int := 600
  const DefaultHeight: int := 448

  /** The QR side is this much shorter than the canvas's shorter side. */
  const QrMargin: int := 20

  /** Debug outputs written when no panel is present. */
  const QrDebugFile: string := "qr.png"
  const PhotoDebugFile: string := "latest_display.png"

  /** Seconds slept between checks for token.json. */
  const TokenPollSeconds: int := 5

  /** Default seconds slept after each photo iteration. */
  const DefaultIntervalSeconds: int := 3600

  function Min(a: int, b: int): int {
    if a <= b then a else b
  }

  /** Python's `a // b` for `b > 0`: the floor of a/b, which is what Dafny's
      Euclidean `/` gives for a positive divisor. */
  function FloorDiv(a: int, b: int): (q: int)
    requires b > 0
    ensures q * b <= a < (q + 1) * b
  {
    a / b
  }

  /** Where the square QR image is pasted on the canvas. */
  datatype Layout = Layout(side: int, left: int, top: int)

  /** `show_qr_code`'s geometry: the side is `min(W, H) - 20`, the offsets
      centre the square on each axis. The square always lies inside the
      canvas (at least 10 pixels from each edge when its side is not
      negative), and on each axis the margin after it exceeds the margin
      before it by at most one pixel. */
  function QrLayout(width: int, height: int): (l: Layout)
    ensures l.side == Min(width, height) - QrMargin
    ensures l.left >= QrMargin / 2 && l.top >= QrMargin / 2
    ensures l.left + l.side <= width && l.top + l.side <= height
    ensures 0 <= (width - l.side - l.left) - l.left <= 1
    ensures 0 <= (height - l.side - l.top) - l.top <= 1
  {
    var side := Min(width, height) - QrMargin;
    Layout(side, FloorDiv(width - side, 2), FloorDiv(height - side, 2))
  }

  /** With the fallback resolution the QR is 428 pixels wide at (86, 10). */
  lemma DefaultQrLayout()
    ensures QrLayout(DefaultWidth, DefaultHeight) == Layout(428, 86, 10)
  {
  }

  /** An image as the model follows it: where it was read from, and its size. */
  datatype Image = Image(source: string, width: int, height: int)

  /** `ImageOps.fit(image, (w, h))`: the crop of `image` scaled to exactly w by h. */
  function Fit(image: Image, w: int, h: int): Image {
    Image(image.source, w, h)
  }

  /** What was committed to the panel or written to a debug file. */
  datatype Picture =
    | QrCanvas(url: string, width: int, height: int, layout: Layout)
    | PhotoFrame(image: Image)

  /** The display adapter, with the outcome of detection fixed at construction. */
  class Panel {
    const hardware: bool
    const width: int
    const height: int
    /** The last picture committed to the panel. */
    var panel: Option<Picture>
    /** The debug files written, by file name. */
    var debugFiles: map<string, Picture>

    ghost predicate Valid()
      reads this
    {
      && (hardware ==> debugFiles == map[])
      && (!hardware ==> panel == None)
      && debugFiles.Keys <= {QrDebugFile, PhotoDebugFile}
    }

    constructor (detected: Option<(int, int)>)
      ensures Valid()
      ensures hardware == detected.Some?
      ensures (width, height) == detected.GetOr((DefaultWidth, DefaultHeight))
      ensures panel == None && debugFiles == map[]
    {
      hardware := detected.Some?;
      var (w, h) := detected.GetOr((DefaultWidth, DefaultHeight));
      width, height := w, h;
      panel := None;
      debugFiles := map[];
    }

    /** `show_qr_code`: the centred QR canvas goes to the panel, or to the one
        fixed debug file, overwritten on every call. */
    method ShowQrCode(url: string)
      requires Valid()
      modifies this
      ensures Valid()
      ensures var picture := QrCanvas(url, width, height, QrLayout(width, height));
        if hardware then panel == Some(picture) && debugFiles == old(debugFiles)
        else panel == old(panel) && debugFiles == old(debugFiles)[QrDebugFile := picture]
    {
      var picture := QrCanvas(url, width, height, QrLayout(width, height));
      if hardware {
        panel := Some(picture);
      } else {
        debugFiles := debugFiles[QrDebugFile := picture];
      }
    }

    /** `display_image`: without a panel the image is saved unfitted to the
        one fixed debug file; with one it is fitted to exactly the panel's
        resolution and committed. */
    method DisplayImage(image: Image)
      requires Valid()
      modifies this
      ensures Valid()
      ensures hardware ==> panel == Some(PhotoFrame(Fit(image, width, height))) && debugFiles == old(debugFiles)
      ensures !hardware ==> panel == old(panel) && debugFiles == old(debugFiles)[PhotoDebugFile := PhotoFrame(image)]
      ensures panel.Some? && panel.value.PhotoFrame? ==> panel.value.image.width == width && panel.value.image.height == height
    {
      if !hardware {
        debugFiles := debugFiles[PhotoDebugFile := PhotoFrame(image)];
        return;
      }
      var fitted := Fit(image, width, height);
      panel := Some(PhotoFrame(fitted));
    }
  }

  // ---------------------------------------------------------------------
  // display_photos_loop

  /** Where `display_photos_loop` is: in the wait for token.json, in the
      endless photo loop, or stopped by an exception that escaped it. */
  datatype Phase = AwaitingToken | Polling | Stopped

  /** What one step of the loop did. */
  datatype StepResult =
    | Waited
    | TokenFound
    | Shown(path: string, image: Image)
    | OpenFailed(path: string)
    | NothingToShow
    | Crashed
    | Idle

  /** The outcome of one photo iteration, from what `get_next_photo` returned,
      the directory afterwards and whether the file opens and displays. */
  function IterationResult(next: Photos.NextPhoto, dir: seq<Photos.DirEntry>, open: string -> Option<Image>): (r: StepResult)
    ensures r.Crashed? <==> next.DirMissing?
    ensures r.Shown? ==> next == Photos.Photo(r.path) && r.path in Photos.PathsIn(dir) && open(r.path) == Some(r.image)
    ensures r.OpenFailed? ==> next == Photos.Photo(r.path) && r.path in Photos.PathsIn(dir) && open(r.path).None?
    ensures r.Shown? || r.OpenFailed? || r.NothingToShow? || r.Crashed?
  {
    match next
    case DirMissing => Crashed
    case NoPhoto => NothingToShow
    case Photo(p) =>
      if p == "" || p !in Photos.PathsIn(dir) then NothingToShow
      else if open(p).None? then OpenFailed(p)
      else Shown(p, open(p).value)
  }

  /** A photo is shown only if the selected path exists and opens; and since
      the selection always names an entry of the directory, the existence
      check never discards it: the iteration finds nothing to show exactly
      when the directory holds no image file. */
  lemma SelectedPhotoIsShown(dir: seq<Photos.DirEntry>, open: string -> Option<Image>)
    ensures var r := IterationResult(Photos.SelectNext(dir), dir, open);
      && (r.NothingToShow? <==> forall e :: e in dir ==> !Photos.IsImage(e))
      && (r.Shown? ==> r.path in Photos.PathsIn(dir) && open(r.path) == Some(r.image))
      && !r.Crashed?
  {
    var next := Photos.SelectNext(dir);
    if next.Photo? {
      assert next.path != "" && next.path in Photos.PathsIn(dir);
      assert IterationResult(next, dir, open) != NothingToShow;
    } else {
      assert next.NoPhoto?;
    }
  }

  /** The loop of `display_photos_loop`, one check or one iteration at a time. */
  class PhotoLoop {
    const interval: int
    var phase: Phase
    /** The durations passed to `time.sleep`, in order. */
    var sleeps: seq<int>
    /** How many times `get_next_photo` was called. */
    var fetchCalls: nat

    constructor (interval: int)
      ensures this.interval == interval
      ensures phase == AwaitingToken && sleeps == [] && fetchCalls == 0
    {
      this.interval := interval;
      phase := AwaitingToken;
      sleeps := [];
      fetchCalls := 0;
    }

    /** One step: while waiting, one check of token.json (and a 5-second
        sleep while it is absent); afterwards one iteration of the endless
        loop: fetch the next photo, display it only if its path exists and
        it opens, then sleep `interval`. An exception from `get_next_photo`
        escapes the function and stops the loop. */
    method Step(token: Option<string>, credsValid: bool, buildOk: bool, listing: Photos.Listing,
                net: string -> Photos.Response, now: int, open: string -> Option<Image>,
                dir: Photos.PhotoDir, disp: Panel)
      returns (result: StepResult)
      requires dir.Valid() && disp.Valid()
      modifies this, dir, disp
      ensures dir.Valid() && disp.Valid()
      ensures old(phase) == AwaitingToken ==>
        && unchanged(dir) && unchanged(disp) && fetchCalls == old(fetchCalls)
        && (token.None? ==> result == Waited && phase == AwaitingToken && sleeps == old(sleeps) + [TokenPollSeconds])
        && (token.Some? ==> result == TokenFound && phase == Polling && sleeps == old(sleeps))
      ensures old(phase) == Stopped ==>
        result == Idle && unchanged(this) && unchanged(dir) && unchanged(disp)
      ensures old(phase) == Polling ==>
        var available := Photos.ServiceAvailable(token, credsValid, buildOk);
        var entries := Photos.DownloadSpec(available, listing, old(dir.entries), net, now).dir;
        var next := if old(dir.dirExists) || available then Photos.SelectNext(entries) else Photos.DirMissing;
        && fetchCalls == old(fetchCalls) + 1
        && dir.dirExists == (old(dir.dirExists) || available)
        && dir.entries == entries
        && result == IterationResult(next, entries, open)
        && (result.Shown? && disp.hardware ==>
              disp.panel == Some(PhotoFrame(Fit(result.image, disp.width, disp.height))) && disp.debugFiles == old(disp.debugFiles))
        && (result.Shown? && !disp.hardware ==>
              disp.panel == old(disp.panel) && disp.debugFiles == old(disp.debugFiles)[PhotoDebugFile := PhotoFrame(result.image)])
        && (!result.Shown? ==> unchanged(disp))
        && (result.Crashed? ==> phase == Stopped && sleeps == old(sleeps))
        && (!result.Crashed? ==> phase == Polling && sleeps == old(sleeps) + [interval])
    {
      match phase
      case Stopped =>
        return Idle;
      case AwaitingToken =>
        if token.None? {
          sleeps := sleeps + [TokenPollSeconds];
          return Waited;
        }
        phase := Polling;
        return TokenFound;
      case Polling =>
        fetchCalls := fetchCalls + 1;
        var next := dir.GetNextPhoto(token, credsValid, buildOk, listing, net, now);
        if next.DirMissing? {
          phase := Stopped;
          return Crashed;
        }
        if next.Photo? && next.path != "" && dir.HasPath(next.path) {
          var image := open(next.path);
          if image.Some? {
            disp.DisplayImage(image.value);
            result := Shown(next.path, image.value);
          } else {
            result := OpenFailed(next.path);
          }
        } else {
          result := NothingToShow;
        }
        sleeps := sleeps + [interval];
    }
  }

  /** Once an iteration runs with working credentials, `photos/` exists, so
      no later iteration crashes, whatever the service answers then. */
  method LoopSurvivesOnceAuthorised(loop: PhotoLoop, token: Option<string>, credsValid: bool, buildOk: bool,
                                    listing: Photos.Listing, net: string -> Photos.Response, now: int,
                                    open: string -> Option<Image>,
                                    laterToken: Option<string>, laterCredsValid: bool, laterBuildOk: bool,
                                    laterListing: Photos.Listing, laterNet: string -> Photos.Response, laterNow: int,
                                    dir: Photos.PhotoDir, disp: Panel)
    returns (first: StepResult, second: StepResult)
    requires dir.Valid() && disp.Valid()
    requires loop.phase == Polling && Photos.ServiceAvailable(token, credsValid, buildOk)
    modifies loop, dir, disp
    ensures !first.Crashed? && !second.Crashed? && loop.phase == Polling && dir.dirExists
    ensures loop.fetchCalls == old(loop.fetchCalls) + 2
    ensures loop.sleeps == old(loop.sleeps) + [loop.interval, loop.interval]
  {
    first := loop.Step(token, credsValid, buildOk, listing, net, now, open, dir, disp);
    assert dir.dirExists && loop.phase == Polling;
    second := loop.Step(laterToken, laterCredsValid, laterBuildOk, laterListing, laterNet, laterNow, open, dir, disp);
  }

  /** Never fetching before authorisation: however many checks find no
      token, the loop stays in its wait, has slept five seconds per check and
      has not called `get_next_photo`; the first check that finds the token
      moves it on, after exactly one five-second sleep per earlier check. */
  method WaitForToken(loop: PhotoLoop, tokens: seq<bool>, dir: Photos.PhotoDir, disp: Panel)
    returns (results: seq<StepResult>)
    requires dir.Valid() && disp.Valid()
    requires loop.phase == AwaitingToken
    modifies loop, dir, disp
    ensures |results| <= |tokens|
    ensures forall k :: 0 <= k < |results| ==> results[k] == (if tokens[k] then TokenFound else Waited)
    ensures (forall k :: 0 <= k < |tokens| ==> !tokens[k]) ==>
              |results| == |tokens| && loop.phase == AwaitingToken && loop.fetchCalls == old(loop.fetchCalls)
              && loop.sleeps == old(loop.sleeps) + seq(|tokens|, _ => TokenPollSeconds)
    ensures (exists k :: 0 <= k < |tokens| && tokens[k]) ==> loop.phase == Polling && results != [] && results[|results| - 1] == TokenFound
    ensures forall k :: 0 <= k < |tokens| && tokens[k] && (forall j :: 0 <= j < k ==> !tokens[j]) ==>
              |results| == k + 1 && loop.sleeps == old(loop.sleeps) + seq(k, _ => TokenPollSeconds)
    ensures loop.fetchCalls == old(loop.fetchCalls) && unchanged(dir) && unchanged(disp)
  {
    results := [];
    var i := 0;
    while i < |tokens| && loop.phase == AwaitingToken
      invariant 0 <= i <= |tokens| && |results| == i
      invariant forall k :: 0 <= k < i ==> results[k] == (if tokens[k] then TokenFound else Waited)
      invariant loop.phase == AwaitingToken <==> forall k :: 0 <= k < i ==> !tokens[k]
      invariant loop.phase == AwaitingToken || loop.phase == Polling
      invariant loop.phase == Polling ==> i > 0 && tokens[i - 1] && forall k :: 0 <= k < i - 1 ==> !tokens[k]
      invariant loop.phase == Polling ==> loop.sleeps == old(loop.sleeps) + seq(i - 1, _ => TokenPollSeconds)
      invariant loop.phase == AwaitingToken ==> loop.sleeps == old(loop.sleeps) + seq(i, _ => TokenPollSeconds)
      invariant loop.fetchCalls == old(loop.fetchCalls) && unchanged(dir) && unchanged(disp)
      invariant dir.Valid() && disp.Valid()
    {
      var token := if tokens[i] then Some("token") else None;
      var r := loop.Step(token, false, false, Photos.ListRaised, _ => Photos.Raised, 0, _ => None, dir, disp);
      results := results + [r];
      i := i + 1;
    }
    if exists k :: 0 <= k < |tokens| && tokens[k] {
      assert loop.phase != AwaitingToken;
    }
  }
}
