# Photo frame: a Dafny model of its decision rules

This project models the Raspberry Pi photo frame. The frame shows a QR code that points at a small configuration web application. The user authorises a Google Photos account through an OAuth handshake there. The frame then polls the account and shows the most recent image on an Inky e-paper panel.

What the model covers, module by module:

- `Photos` (`photos.py`): the credential guard. The batch download of listed media items into `photos/` is a method on a `PhotoDir` class. Its loop is proved equal to the left fold `Run`, and the lemmas about `Run` state the batch's guarantees: no re-download, item order, the 200-only write, a non-200 status skipping only its item, and an exception, and only an exception, ending the batch. The module also holds the pure choice of the image file with the greatest mtime, including pathlib's suffix rule and Python's first-maximum tie-break.
- `Display` (`display.py`): the QR geometry. The choice between the panel and the fixed debug files is a `Panel` class whose hardware flag is fixed at construction. One step of `display_photos_loop` is a method on a `PhotoLoop` class. It either checks for the token or runs one fetch/display/sleep iteration.
- `WebApp` (`webapp/app.py`): the three routes as methods of a `ConfigApp` class. The class holds whether `client_secret.json` exists, the content of `token.json` and the session slot `state`. Client methods drive whole handshakes.
- `Startup` (`main.py`): Python's whitespace `split()`, the first-non-loopback address rule, the configuration URL, and the order of the startup sequence.
- `Wrappers`: an `Option` type for Python's `None`-or-value.

Every call into a foreign library is an input value:

- the token file's content, `Credentials.valid` and the success of `build(...)`;
- the media listing, and `requests.get` as a function from URL to response;
- `Image.open` as a function from path to an optional image;
- the OAuth flow as two functions;
- the output of `hostname -I`;
- the detected panel resolution;
- the clock reading given to written files.

The model follows the code in these places:

- An exception while downloading one item ends the whole batch. It does not skip just that item, because one `try` encloses the loop (photos.py:82-107).
- The OAuth callback never clears `session["state"]`, so a second callback in the same session is accepted.
- The "already downloaded" test is the existence of any entry with that name, not only an image file.
- `open(file_path, "wb")` creates the file before its body is written. A write that raises therefore leaves an empty or partial file, and every later batch takes that file for downloaded (`WriteRaised`).
- `get_next_photo` raises when `photos/` was never created, which happens when no service was ever built: credentials never loaded, or `build(...)` failed (photos.py:52-60, 76-78). The exception escapes `display_photos_loop`. The model records this as `DirMissing` and a `Stopped` loop.

## Model

| member | source | states |
|---|---|---|
| `Photos.LoadCredentials` | photos.py:36-47 | credentials are returned exactly when token.json exists and is valid, and they are the stored token |
| `Photos.ServiceAvailable` | photos.py:50-60 | a service exists exactly when credentials load and the client build succeeds (a failed build gives None) |
| `Photos.Eligible` | photos.py:87-91 | an item is looked at only when it has a non-empty `baseUrl`, a non-empty `filename` and a `mimeType` starting with `image/` (a missing one counts as "") |
| `Photos.ItemStep` | photos.py:87-103 | one loop pass: an aborted batch or an ineligible item changes nothing; otherwise paths, entries and requested URLs only grow, by at most one each |
| `Photos.Run` | photos.py:86-103 | the loop over the items in order; an aborted start is returned unchanged, and paths, entries and requests only grow |
| `Photos.DownloadSpec` | photos.py:76-108 | no service: nothing happens; a listing that raised: an empty, aborted batch; otherwise `Run` over the listed items from the current directory |
| `Photos.PhotoDir.DownloadLatestPhotos` | photos.py:63-108 | without a service: returns [], requests nothing, directory unchanged; otherwise the directory is created and paths, requests and entries are those of `Run` over the listed items (none if the listing raised); distinct names are kept |
| `Photos.RunOnlyAppends` | photos.py:94-103 | existing entries are never replaced (old directory is a prefix of the new); every added entry is a regular file stamped `now` named after an eligible item whose download answered 200 and was written or failed mid-write; names stay distinct |
| `Photos.RunPathsInItemOrder` | photos.py:81-103 | returned paths are a subsequence, in item order, of the `photos/<filename>` paths of eligible items (so ineligible items contribute nothing); at most as many as items |
| `Photos.RunPathsExist` | photos.py:94-103 | every returned path names an entry of the directory afterwards |
| `Photos.RunFetchesOnlyMissing` | photos.py:87-99 | every requested URL is `baseUrl + "=d"` of an eligible item whose filename was absent at the start |
| `Photos.CachedFetchesNothing` | photos.py:94-98 | when every eligible file is present: no request, directory unchanged, all eligible paths returned |
| `Photos.AllOkFetchesAll` | photos.py:99-103 | when every download answers 200: no abort, all eligible paths returned, every eligible file present |
| `Photos.RerunFetchesNothing` | photos.py:94-103 | a second batch over the same listing after an all-200 batch makes no request, adds no file and returns the same paths |
| `Photos.RunNames` | photos.py:94-103 | when no exception ended the batch, the file names afterwards are exactly those at the start plus those of the eligible items whose download answered 200 |
| `Photos.RunReturnsKept` | photos.py:94-103 | when no exception ended the batch, the path of every eligible item whose file was present at the start, or whose download answered 200, is returned |
| `Photos.PartialFileCountsAsDownloaded` | photos.py:96-102 | a download whose write raises aborts the batch without returning its path but leaves its file; the next batch returns that path without requesting the URL |
| `Photos.RunWithoutExceptionCompletes` | photos.py:99-103 | when no download the batch could request raises, the batch is not aborted: a non-200 status skips only its own item |
| `Photos.StatusFailuresSkipOnlyTheirItems` | photos.py:94-103 | with no exception but any mix of statuses, the batch completes, its file names are exactly the starting ones plus the 200 ones, and every present or 200 item's path is returned |
| `Photos.AbortHasCause` | photos.py:82-107 | an aborted batch met an eligible item, absent at the start, whose download raised |
| `Photos.AbortStopsBatch` | photos.py:82-108 | once a prefix of the items raised, later items change nothing: the paths gathered before the exception are the result |
| `Photos.LastDot` | photos.py:121 | the index of the last '.', or -1; no '.' after it |
| `Photos.Suffix` | photos.py:121 | empty, or a proper tail of the name of length at least 2 that starts with its only '.' |
| `Photos.SuffixPresent` | photos.py:121 | a name has a non-empty suffix exactly when its last dot lies strictly inside it |
| `Photos.ImageNameExamples` | photos.py:121 | `.JPG`, `.Jpeg` and `.png` suffixes count, case-insensitively; a leading-dot name, a trailing dot, `.mp4` and no dot do not |
| `Photos.ImageFiles` | photos.py:119-122 | holds exactly the directory's regular files with an image suffix |
| `Photos.MaxIndex` | photos.py:126 | an index whose mtime no file exceeds, and no earlier file has an equal mtime (Python's `max` keeps the first maximum) |
| `Photos.SelectNext` | photos.py:119-127 | NoPhoto exactly when no image file exists; otherwise the path of an existing image file whose mtime is at least every image file's |
| `Photos.PhotoDir.constructor` | photos.py:33 | the `photos` directory, existing or not, with distinct entry names and no entries when it does not exist |
| `Photos.PhotoDir.HasPath` | display.py:97 | `os.path.exists` for a path under the directory: true exactly for the paths of its entries |
| `Photos.PhotoDir.GetNextPhoto` | photos.py:111-127 | downloads as `DownloadLatestPhotos` would; then DirMissing if the directory does not exist, else the selection; a returned path exists |
| `Display.FloorDiv` | display.py:51 | Python's `//` for a positive divisor: the floor of the quotient |
| `Display.QrLayout` | display.py:49-51 | side is `min(W,H) - 20`; offsets are at least 10 and side plus offset never exceeds the canvas on either axis; the margin after the QR exceeds the one before by 0 or 1 |
| `Display.DefaultQrLayout` | display.py:26 | at the fallback 600x448 the QR side is 428 at offset (86, 10) |
| `Display.Panel.constructor` | display.py:18-27 | hardware present exactly when detection gave a resolution; otherwise 600x448; nothing shown or written yet |
| `Display.Panel.ShowQrCode` | display.py:32-58 | with a panel the centred QR canvas is committed; without one it is written to `qr.png`, replacing the previous one; the debug files never go beyond the two fixed names |
| `Display.Panel.DisplayImage` | display.py:61-78 | without a panel the unfitted image replaces `latest_display.png`; with one the image fitted to exactly (WIDTH, HEIGHT) is committed |
| `Display.IterationResult` | display.py:96-104 | an exception from `get_next_photo` is a crash exactly when the directory is missing; a photo is shown or fails to open only when `get_next_photo` returned that path and it exists, and shown only with the image `Image.open` gave |
| `Display.SelectedPhotoIsShown` | display.py:96-104 | the existence check never discards the selected photo: nothing to show exactly when no image file exists; a shown photo exists and opened |
| `Display.PhotoLoop.constructor` | display.py:81 | the loop starts waiting for the token, with nothing slept and no fetch made |
| `Display.PhotoLoop.Step` | display.py:81-105 | while waiting: no fetch, no display, a 5 s sleep per absent-token check, and the first check that finds the token moves on; afterwards: one `get_next_photo` call, after which `photos/` exists when it did before or the service was available; display only of an existing path that opens, then exactly one sleep of `interval`; an escaping exception stops the loop |
| `Display.LoopSurvivesOnceAuthorised` | display.py:95-105 | after one iteration with working credentials, no later iteration crashes, whatever the service then answers; each slept `interval` |
| `Display.WaitForToken` | display.py:92-93 | over any run of checks that find no token, the loop keeps waiting, slept 5 s each time and never called `get_next_photo`; the first check that finds it ends the wait after exactly one 5 s sleep per earlier check and moves the loop to polling |
| `WebApp.SecretKey` | webapp/app.py:34 | the variable `PHOTO_FRAME_SECRET_KEY` when set, else `dev-secret-key` |
| `WebApp.RedirectUri` | webapp/app.py:50 | the OAuth callback URL `http://<ip>:5000/oauth2callback`, built the same way in both routes (webapp/app.py:69) |
| `WebApp.ConfigApp.constructor` | webapp/app.py:21-34 | the app is bound to the host address and secret key, with an empty session |
| `WebApp.ConfigApp.Index` | webapp/app.py:35-39 | reports configured exactly when token.json exists |
| `WebApp.ConfigApp.GoogleAuth` | webapp/app.py:41-57 | missing client secret: 500 and the session unchanged; otherwise the flow's state goes into the session and the reply redirects to its URL, built with `http://<ip>:5000/oauth2callback`; token.json is never touched |
| `WebApp.ConfigApp.OAuth2Callback` | webapp/app.py:59-77 | missing or empty state: 400 and token.json unchanged; else with the same redirect URI, a successful exchange overwrites token.json and redirects to `/`, a failure answers 500 without writing; the session state is kept |
| `WebApp.CallbackBeforeAuthorization` | webapp/app.py:62-64 | a callback before any authorisation is rejected with 400 and the frame stays unconfigured |
| `WebApp.MissingClientSecret` | webapp/app.py:45-46 | without the client secret, begin answers 500, the callback finds no state (400), nothing is configured |
| `WebApp.Handshake` | webapp/app.py:41-77 | begin then a successful callback stores exactly the exchanged credentials and the status page reports configured |
| `WebApp.SecondCallbackNotRejected` | webapp/app.py:62-77 | a second callback in the same session is never answered 400: it redirects to `/` when its exchange succeeds and answers 500 when it fails |
| `WebApp.RepeatedCallback` | webapp/app.py:62-77 | a second successful callback in the same session redirects to `/` and overwrites token.json with its credentials |
| `Startup.Split` | main.py:26 | every token is non-empty and holds no whitespace |
| `Startup.SplitKeepsText` | main.py:26 | the tokens concatenated are exactly the non-whitespace characters, in order |
| `Startup.SplitIgnoresTrailingSpace` | main.py:26 | whitespace at the end of the output, such as the " \n" ending `hostname -I`, adds no token |
| `Startup.SplitJoin` | main.py:26 | splitting undoes joining valid tokens with single spaces |
| `Startup.FirstNonLoopback` | main.py:27-30 | the first token not starting with "127." when one exists; "127.0.0.1" when none does; always a token or the fallback, and it starts with "127." only as the fallback |
| `Startup.GetIpAddress` | main.py:19-30 | always a single non-empty whitespace-free token: a word of the output, or "127.0.0.1"; it starts with "127." only as that fallback |
| `Startup.GetIpAddressPrefersLan` | main.py:19-30 | for output "127.0.0.1 <lan>" followed by any whitespace (such as " \n") the LAN address is returned |
| `Startup.GetIpAddressFallsBack` | main.py:30 | loopback-only or empty output gives "127.0.0.1" |
| `Startup.ConfigUrl` | main.py:37 | the URL the QR code encodes; the web application's OAuth redirect URI is exactly this URL followed by `/oauth2callback` |
| `Startup.Start` | main.py:33-55 | events in order: QR shown or QR failed, app created with the address, server started on 0.0.0.0:5000, loop entered; a QR failure changes nothing on the display and blocks no later step; the display has the detected resolution or 600x448; the app sees the given client secret and token files with an empty session, and the loop starts waiting with nothing slept |

## Left out

- Photos.PhotoDir.DownloadLatestPhotos: does not bound the listed items by the page size `n`, because the listing is the remote service's answer and the page size only reaches that service.
- Google API client construction, `mediaItems().list`, `requests.get`, `Credentials.valid`, `Flow.authorization_url` and `Flow.fetch_token` are foreign libraries. Their results are inputs.
- `Credentials.from_authorized_user_file` raising on an unreadable token.json is not modelled. The token is either absent or present with a validity flag.
- The content of a downloaded file is not modelled. A file left partial by a failed write is an entry like any other.
- `iterdir` order is taken to be creation order, with new files appended at the end; the file system does not promise this. Together with the shared clock reading, this means that after a multi-item batch `SelectNext` picks the first file written, where the program with real float mtimes would most likely pick the last.
- `st_mtime` is a float. It is an integer here, used only for ordering, and all files written in one call carry the same clock reading `now`.
- Filenames are treated as plain names. Path joining of absolute names, or of names containing `/`, is not modelled.
- `str.lower()` is modelled for ASCII letters. Other characters are left unchanged.
- QR encoding, resizing, cropping, colour conversion and panel refresh are pixel and hardware work. Only the geometry and the output target are modelled. `ImageOps.fit` keeps only its output size.
- PIL's behaviour for a QR side that is not positive (a panel under 20 pixels) is not modelled.
- A failure inside `show_qr_code` is the flag `qrRaises` of `Startup.Start`. A failure while opening or displaying a photo is the `open` input returning None.
- The endless `while True`, `time.sleep` and timing are modelled one step at a time. Sleeps are recorded as durations, not waited. Liveness is out of scope.
- The Flask thread, the server, routing, templates and the framework's conversion of exceptions are not modelled. An escaping exception is answered as status 500.
- One browser session is modelled. Cookie signing with the secret key is not.
- Concurrency between the web thread and the photo loop, and the atomicity of writing token.json, are not modelled.
- `strip()` before `split()` in `get_ip_address` is not modelled separately, since `split()` discards surrounding whitespace.
