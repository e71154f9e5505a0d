/**
 * main.py: choosing the frame's address from the output of `hostname -I`,
 * the configuration URL, and the order of the startup sequence.
 *
 * The command's output is an input string; the display, the web application
 * and the photo loop are the models of the other modules.
 */
module Startup {
  import opened Wrappers
  import opened Text
  import Display
  import WebApp

  const LoopbackPrefix: string := "127."
  const LoopbackAddress: string := "127.0.0.1"
  const ListenHost: string := "0.0.0.0"
  const ListenPort: int := 5000

  /** The characters Python's `str.split()` splits on (`str.isspace`). */
  predicate IsSpace(c: char) {
    || '\t' <= c <= '\r'
    || '\U{1c}' <= c <= ' '
    || c == '\U{85}' || c == '\U{a0}' || c == '\U{1680}'
    || '\U{2000}' <= c <= '\U{200a}'
    || c == '\U{2028}' || c == '\U{2029}' || c == '\U{202f}' || c == '\U{205f}' || c == '\U{3000}'
  }

  predicate NoSpace(s: string) {
    forall i :: 0 <= i < |s| ==> !IsSpace(s[i])
  }

  /** The longest prefix of `s` without whitespace. */
  function Word(s: string): (w: string)
    ensures w <= s && NoSpace(w)
    ensures |w| == |s| || IsSpace(s[|w|])
    decreases |s|
  {
    if s == [] || IsSpace(s[0]) then []
    else [s[0]] + Word(s[1..])
  }

  /** `str.split()` with no argument: the maximal runs of non-whitespace,
      in order; every one is non-empty and holds no whitespace. */
  function Split(s: string): (words: seq<string>)
    ensures forall k :: 0 <= k < |words| ==> words[k] != [] && NoSpace(words[k])
    decreases |s|
  {
    if s == [] then []
    else if IsSpace(s[0]) then Split(s[1..])
    else
      var w := Word(s);
      [w] + Split(s[|w|..])
  }

  /** The words glued back together. */
  function Concat(words: seq<string>): string {
    if words == [] then [] else words[0] + Concat(words[1..])
  }

  /** The characters of `s` that are not whitespace. */
  function NonSpace(s: string): string {
    if s == [] then []
    else (if IsSpace(s[0]) then [] else [s[0]]) + NonSpace(s[1..])
  }

  /** The words joined by single spaces. */
  function Join(words: seq<string>): string {
    if words == [] then []
    else if |words| == 1 then words[0]
    else words[0] + " " + Join(words[1..])
  }

  lemma {:induction false} NonSpaceAppend(a: string, b: string)
    ensures NonSpace(a + b) == NonSpace(a) + NonSpace(b)
    decreases |a|
  {
    if a != [] {
      var head := if IsSpace(a[0]) then [] else [a[0]];
      assert (a + b)[0] == a[0] && (a + b)[1..] == a[1..] + b;
      NonSpaceAppend(a[1..], b);
      calc {
        NonSpace(a + b);
        head + NonSpace(a[1..] + b);
        head + (NonSpace(a[1..]) + NonSpace(b));
        (head + NonSpace(a[1..])) + NonSpace(b);
      }
    } else {
      assert a + b == b;
    }
  }

  lemma {:induction false} NonSpaceOfWord(w: string)
    requires NoSpace(w)
    ensures NonSpace(w) == w
    decreases |w|
  {
    if w != [] {
      NonSpaceOfWord(w[1..]);
    }
  }

  /** Splitting loses nothing but whitespace: the words, glued together, are
      exactly the non-whitespace characters of the input, in order. */
  lemma {:induction false} SplitKeepsText(s: string)
    ensures Concat(Split(s)) == NonSpace(s)
    decreases |s|
  {
    if s != [] {
      if IsSpace(s[0]) {
        SplitKeepsText(s[1..]);
      } else {
        var w := Word(s);
        var rest := s[|w|..];
        SplitKeepsText(rest);
        assert s == w + rest;
        NonSpaceAppend(w, rest);
        NonSpaceOfWord(w);
        assert Split(s) == [w] + Split(rest);
        assert ([w] + Split(rest))[1..] == Split(rest);
      }
    }
  }

  lemma {:induction false} SplitSkipsLeadingSpace(s: string, t: string)
    requires forall i :: 0 <= i < |s| ==> IsSpace(s[i])
    ensures Split(s + t) == Split(t)
    decreases |s|
  {
    if s != [] {
      assert (s + t)[0] == s[0] && (s + t)[1..] == s[1..] + t;
      SplitSkipsLeadingSpace(s[1..], t);
    } else {
      assert s + t == t;
    }
  }

  lemma {:induction false} WordOfPrefix(w: string, t: string)
    requires NoSpace(w)
    requires t == [] || IsSpace(t[0])
    ensures Word(w + t) == w
    decreases |w|
  {
    if w != [] {
      assert (w + t)[1..] == w[1..] + t;
      WordOfPrefix(w[1..], t);
    }
  }

  /** Text after a word that stops short of the end does not change the word. */
  lemma {:induction false} WordIgnoresTail(s: string, t: string)
    requires |Word(s)| < |s|
    ensures Word(s + t) == Word(s)
    decreases |s|
  {
    assert (s + t)[0] == s[0];
    if !IsSpace(s[0]) {
      assert (s + t)[1..] == s[1..] + t;
      WordIgnoresTail(s[1..], t);
    }
  }

  /** Trailing whitespace (such as the " \n" that ends the output of
      `hostname -I`) adds no word. */
  lemma {:induction false} SplitIgnoresTrailingSpace(s: string, ws: string)
    requires forall i :: 0 <= i < |ws| ==> IsSpace(ws[i])
    ensures Split(s + ws) == Split(s)
    decreases |s|
  {
    if s == [] {
      assert s + ws == ws + [];
      SplitSkipsLeadingSpace(ws, []);
    } else {
      assert (s + ws)[0] == s[0];
      if IsSpace(s[0]) {
        assert (s + ws)[1..] == s[1..] + ws;
        SplitIgnoresTrailingSpace(s[1..], ws);
      } else {
        var w := Word(s);
        if |w| < |s| {
          WordIgnoresTail(s, ws);
          assert (s + ws)[|w|..] == s[|w|..] + ws;
          SplitIgnoresTrailingSpace(s[|w|..], ws);
        } else {
          assert w == s;
          WordOfPrefix(s, ws);
          assert (s + ws)[|w|..] == ws + [];
          SplitSkipsLeadingSpace(ws, []);
        }
      }
    }
  }

  /** Splitting undoes joining with single spaces, for words that are
      non-empty and hold no whitespace. */
  lemma {:induction false} SplitJoin(words: seq<string>)
    requires forall k :: 0 <= k < |words| ==> words[k] != [] && NoSpace(words[k])
    ensures Split(Join(words)) == words
    decreases |words|
  {
    if words != [] {
      var w := words[0];
      if |words| == 1 {
        WordOfPrefix(w, []);
        assert w + [] == w;
        assert w[|w|..] == [];
      } else {
        var rest := " " + Join(words[1..]);
        assert Join(words) == w + rest;
        WordOfPrefix(w, rest);
        assert (w + rest)[|w|..] == rest;
        SplitJoin(words[1..]);
        SplitSkipsLeadingSpace(" ", Join(words[1..]));
      }
    }
  }

  /** The loop of `get_ip_address` over the words: the first one that does
      not start with "127.", or the loopback address when there is none. */
  function FirstNonLoopback(ips: seq<string>): (ip: string)
    ensures ip == LoopbackAddress || ip in ips
    ensures (forall k :: 0 <= k < |ips| ==> StartsWith(ips[k], LoopbackPrefix)) ==> ip == LoopbackAddress
    ensures (exists k :: 0 <= k < |ips| && !StartsWith(ips[k], LoopbackPrefix)) ==>
              exists k :: 0 <= k < |ips| && ip == ips[k] && !StartsWith(ips[k], LoopbackPrefix)
                          && forall j :: 0 <= j < k ==> StartsWith(ips[j], LoopbackPrefix)
    ensures StartsWith(ip, LoopbackPrefix) ==> ip == LoopbackAddress
    decreases |ips|
  {
    if ips == [] then LoopbackAddress
    else if !StartsWith(ips[0], LoopbackPrefix) then ips[0]
    else
      var ip := FirstNonLoopback(ips[1..]);
      assert forall k :: 0 <= k < |ips| - 1 ==> ips[1..][k] == ips[k + 1];
      if exists k :: 0 <= k < |ips| && !StartsWith(ips[k], LoopbackPrefix) then
        var k :| 0 <= k < |ips[1..]| && ip == ips[1..][k] && !StartsWith(ips[1..][k], LoopbackPrefix)
                 && forall j :: 0 <= j < k ==> StartsWith(ips[1..][j], LoopbackPrefix);
        assert ip == ips[k + 1];
        ip
      else ip
  }

  /** `get_ip_address`: the split output of `hostname -I` searched for the
      first non-loopback address. (`strip()` before `split()` changes
      nothing, since `split()` drops surrounding whitespace anyway.) The
      result is always a single non-empty, whitespace-free token: one of the
      output's words, or the loopback fallback. */
  function GetIpAddress(hostnameOutput: string): (ip: string)
    ensures ip == LoopbackAddress || ip in Split(hostnameOutput)
    ensures ip != "" && NoSpace(ip)
    ensures StartsWith(ip, LoopbackPrefix) ==> ip == LoopbackAddress
  {
    var ip := FirstNonLoopback(Split(hostnameOutput));
    assert ip != LoopbackAddress ==> exists k :: 0 <= k < |Split(hostnameOutput)| && Split(hostnameOutput)[k] == ip;
    ip
  }

  /** Given the loopback address followed by a LAN address, and whatever
      whitespace ends the output, the resolver returns the LAN address. */
  lemma GetIpAddressPrefersLan(lan: string, ws: string)
    requires lan != [] && NoSpace(lan) && !StartsWith(lan, LoopbackPrefix)
    requires forall i :: 0 <= i < |ws| ==> IsSpace(ws[i])
    ensures GetIpAddress(LoopbackAddress + " " + lan + ws) == lan
    ensures GetIpAddress(LoopbackAddress + " " + lan + " \n") == lan
  {
    var ips := [LoopbackAddress, lan];
    assert Join(ips) == LoopbackAddress + " " + lan by {
      assert ips[1..] == [lan];
    }
    SplitJoin(ips);
    SplitIgnoresTrailingSpace(Join(ips), ws);
    SplitIgnoresTrailingSpace(Join(ips), " \n");
    assert StartsWith(ips[0], LoopbackPrefix);
    assert ips[1..] == [lan];
  }

  /** When every address starts with "127.", or there is no output, the
      resolver falls back to the loopback address. */
  lemma GetIpAddressFallsBack(ips: seq<string>)
    requires forall k :: 0 <= k < |ips| ==> ips[k] != [] && NoSpace(ips[k]) && StartsWith(ips[k], LoopbackPrefix)
    ensures GetIpAddress(Join(ips)) == LoopbackAddress
    ensures GetIpAddress("") == LoopbackAddress
  {
    SplitJoin(ips);
  }

  /** The configuration page's URL, which the QR code encodes; the OAuth
      redirect URI the web application registers is this URL followed by the
      callback path, so both name the same host and port. */
  function ConfigUrl(hostIp: string): (url: string)
    ensures WebApp.RedirectUri(hostIp) == url + "/oauth2callback"
  {
    "http://" + hostIp + ":5000"
  }

  /** What `main` does, in order. */
  datatype Event =
    | QrShown(url: string)
    | QrFailed(url: string)
    | AppCreated(hostIp: string)
    | ServerStarted(host: string, port: int)
    | LoopEntered

  /** `main` up to entering the photo loop. The display exists first (it is
      detected when display.py is imported); a failure of `show_qr_code`
      (`qrRaises`) is caught, and the application is created and the server
      started either way. */
  method Start(hostnameOutput: string, detected: Option<(int, int)>, qrRaises: bool,
               env: map<string, string>, clientSecret: bool, token: Option<string>)
    returns (disp: Display.Panel, app: WebApp.ConfigApp, loop: Display.PhotoLoop, events: seq<Event>)
    ensures fresh(disp) && fresh(app) && fresh(loop)
    ensures disp.Valid() && disp.hardware == detected.Some?
    ensures (disp.width, disp.height) == detected.GetOr((Display.DefaultWidth, Display.DefaultHeight))
    ensures var ip := GetIpAddress(hostnameOutput);
      var url := ConfigUrl(ip);
      && events == [if qrRaises then QrFailed(url) else QrShown(url), AppCreated(ip), ServerStarted(ListenHost, ListenPort), LoopEntered]
      && app.hostIp == ip && app.secretKey == WebApp.SecretKey(env) && app.sessionState == None
      && (qrRaises ==> disp.panel == None && disp.debugFiles == map[])
      && (!qrRaises && disp.hardware ==> disp.panel == Some(Display.QrCanvas(url, disp.width, disp.height, Display.QrLayout(disp.width, disp.height))))
      && (!qrRaises && !disp.hardware ==> disp.debugFiles == map[Display.QrDebugFile := Display.QrCanvas(url, disp.width, disp.height, Display.QrLayout(disp.width, disp.height))])
    ensures app.clientSecret == clientSecret && app.token == token
    ensures loop.phase == Display.AwaitingToken && loop.interval == Display.DefaultIntervalSeconds
    ensures loop.fetchCalls == 0 && loop.sleeps == []
  {
    disp := new Display.Panel(detected);
    var hostIp := GetIpAddress(hostnameOutput);
    var configUrl := ConfigUrl(hostIp);
    if qrRaises {
      events := [QrFailed(configUrl)];
    } else {
      disp.ShowQrCode(configUrl);
      events := [QrShown(configUrl)];
    }
    app := new WebApp.ConfigApp(hostIp, env, clientSecret, token);
    events := events + [AppCreated(hostIp)];
    events := events + [ServerStarted(ListenHost, ListenPort)];
    loop := new Display.PhotoLoop(Display.DefaultIntervalSeconds);
    events := events + [LoopEntered];
  }
}
