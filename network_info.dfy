/**
 The network-info page of Raveberry (core/network_info.py): the parsers that read
 the default network device out of `ip route show default` and its IPv4 address
 out of `ip -4 a show dev <device>`, the SSID, Wi-Fi QR payload and URL strings,
 and the fields the page handler writes into the template context.

 The outputs of the external commands are parameters: the parsers take the text
 the command printed, and the page handler takes the `iwgetid` output (None when
 it exited non-zero), the address listing and password lookup as functions of
 the device and the SSID, and the QR renderer as a function of the payload.
 */
module NetworkInfo {
  import opened Wrappers
  import opened PyStrings

  /** The two ValueErrors the parsers raise. */
  datatype ParseError = NoDefaultDevice | IpNotFound(device: string)

  datatype Result<T> = Ok(value: T) | Err(error: ParseError) {
    predicate IsFailure() { Err? }

    function PropagateFailure<U>(): Result<U>
      requires Err?
    {
      Err(error)
    }

    function Extract(): T
      requires Ok?
    {
      value
    }
  }

  // ---------------------------------------------------------------------------
  // _get_default_device

  /** `zip(words, words[1:])`: each word with its successor. */
  function Adjacent(ws: seq<string>): (ps: seq<(string, string)>)
    ensures |ps| == if |ws| < 2 then 0 else |ws| - 1
    ensures forall k :: 0 <= k < |ps| ==> ps[k] == (ws[k], ws[k + 1])
  {
    if |ws| < 2 then [] else seq(|ws| - 1, k requires 0 <= k < |ws| - 1 => (ws[k], ws[k + 1]))
  }

  /** Pair k is the last pair whose first word is "dev". */
  ghost predicate IsLastDevPair(ps: seq<(string, string)>, k: int)
  {
    0 <= k < |ps| && ps[k].0 == "dev" && forall j :: k < j < |ps| ==> ps[j].0 != "dev"
  }

  /** What the loop leaves in `device`: the second word of the last "dev" pair, if any. */
  function LastDevSuccessor(ps: seq<(string, string)>): Option<string>
  {
    if ps == [] then None
    else if ps[|ps| - 1].0 == "dev" then Some(ps[|ps| - 1].1)
    else LastDevSuccessor(ps[..|ps| - 1])
  }

  /** The outcome once the device has been scanned for: `if not device: raise ValueError`. */
  function CheckDevice(device: Option<string>): (r: Result<string>)
    ensures device == None || device == Some("") ==> r == Err(NoDefaultDevice)
    ensures device != None && device != Some("") ==> r == Ok(device.value)
  {
    match device
    case None => Err(NoDefaultDevice)
    case Some(d) => if d == "" then Err(NoDefaultDevice) else Ok(d)
  }

  /** What `_get_default_device` returns when the route listing is `output`. */
  function DefaultDevice(output: string): Result<string>
  {
    CheckDevice(LastDevSuccessor(Adjacent(Words(output))))
  }

  /** The loop of `_get_default_device`: every "dev" pair overwrites the device, there is no break. */
  method GetDefaultDevice(output: string) returns (r: Result<string>)
    ensures r == DefaultDevice(output)
  {
    var words := Words(output);
    var pairs := Adjacent(words);
    var device: Option<string> := None;
    for k := 0 to |pairs|
      invariant device == LastDevSuccessor(pairs[..k])
    {
      assert pairs[..k + 1][..k] == pairs[..k];
      if pairs[k].0 == "dev" {
        device := Some(pairs[k].1);
      }
    }
    assert pairs[..|pairs|] == pairs;
    assert CheckDevice(device) == DefaultDevice(output);
    if device.None? || device.value == "" {
      return Err(NoDefaultDevice);
    }
    return Ok(device.value);
  }

  /** The last "dev" pair decides the device. */
  lemma {:induction false} LastDevSuccessorOfLast(ps: seq<(string, string)>, k: int)
    requires IsLastDevPair(ps, k)
    ensures LastDevSuccessor(ps) == Some(ps[k].1)
    decreases |ps|
  {
    if k < |ps| - 1 {
      var q := ps[..|ps| - 1];
      assert IsLastDevPair(q, k) by {
        forall j | k < j < |q| ensures q[j].0 != "dev" {
          assert q[j] == ps[j];
        }
      }
      LastDevSuccessorOfLast(q, k);
    }
  }

  /** The loop finds nothing exactly when no pair starts with "dev". */
  lemma {:induction false} LastDevSuccessorNone(ps: seq<(string, string)>)
    ensures LastDevSuccessor(ps).None? <==> forall k :: 0 <= k < |ps| ==> ps[k].0 != "dev"
  {
    if ps != [] && ps[|ps| - 1].0 != "dev" {
      var q := ps[..|ps| - 1];
      LastDevSuccessorNone(q);
      assert forall k :: 0 <= k < |q| ==> q[k] == ps[k];
    }
  }

  /** What the loop finds is the second word of the last "dev" pair. */
  lemma {:induction false} LastDevSuccessorSome(ps: seq<(string, string)>)
    ensures LastDevSuccessor(ps).Some? ==>
              exists k :: IsLastDevPair(ps, k) && ps[k].1 == LastDevSuccessor(ps).value
  {
    if ps != [] {
      var n := |ps| - 1;
      if ps[n].0 == "dev" {
        assert IsLastDevPair(ps, n);
      } else {
        var q := ps[..n];
        LastDevSuccessorSome(q);
        if LastDevSuccessor(q).Some? {
          var k :| IsLastDevPair(q, k) && q[k].1 == LastDevSuccessor(q).value;
          assert forall j :: 0 <= j < n ==> q[j] == ps[j];
          assert IsLastDevPair(ps, k);
        }
      }
    }
  }

  /** Word i is the last "dev" that has a successor. */
  ghost predicate IsLastDevWord(ws: seq<string>, i: int)
  {
    0 <= i && i + 1 < |ws| && ws[i] == "dev" && forall j :: i < j < |ws| - 1 ==> ws[j] != "dev"
  }

  /** On success the device is a single non-empty token without whitespace. */
  lemma DefaultDeviceIsWord(output: string)
    ensures DefaultDevice(output).Ok? ==> IsWord(DefaultDevice(output).value)
  {
    var ws := Words(output);
    var ps := Adjacent(ws);
    WordsAreWords(output);
    LastDevSuccessorSome(ps);
    if LastDevSuccessor(ps).Some? {
      var k :| IsLastDevPair(ps, k) && ps[k].1 == LastDevSuccessor(ps).value;
      assert ps[k].1 == ws[k + 1];
    }
  }

  /** The device is the word right after the last "dev" that has a successor;
      earlier "dev" pairs are overridden. */
  lemma DefaultDeviceIsAfterLastDev(output: string, i: int)
    requires IsLastDevWord(Words(output), i)
    ensures DefaultDevice(output) == Ok(Words(output)[i + 1])
  {
    var ws := Words(output);
    var ps := Adjacent(ws);
    assert IsLastDevPair(ps, i) by {
      forall j | i < j < |ps| ensures ps[j].0 != "dev" {
        assert ps[j].0 == ws[j];
      }
    }
    LastDevSuccessorOfLast(ps, i);
    assert ps[i].1 == ws[i + 1];
    WordsAreWords(output);
    assert IsWord(ws[i + 1]);
  }

  /** The parser fails with ValueError exactly when no "dev" word has a successor. */
  lemma DefaultDeviceFailsIff(output: string)
    ensures DefaultDevice(output).Err?
            <==> forall j :: 0 <= j < |Words(output)| - 1 ==> Words(output)[j] != "dev"
  {
    var ws := Words(output);
    var ps := Adjacent(ws);
    LastDevSuccessorNone(ps);
    LastDevSuccessorSome(ps);
    if LastDevSuccessor(ps).Some? {
      var k :| IsLastDevPair(ps, k) && ps[k].1 == LastDevSuccessor(ps).value;
      assert ps[k] == (ws[k], ws[k + 1]);
      WordsAreWords(output);
      assert IsWord(ws[k + 1]);
      assert DefaultDevice(output) == Ok(ws[k + 1]);
      assert !(forall j :: 0 <= j < |ws| - 1 ==> ws[j] != "dev") by {
        assert 0 <= k < |ws| - 1 && ws[k] == "dev";
      }
    } else {
      assert DefaultDevice(output) == Err(NoDefaultDevice);
      forall j | 0 <= j < |ws| - 1 ensures ws[j] != "dev" {
        assert ps[j] == (ws[j], ws[j + 1]);
      }
    }
  }

  /** Appending a word adds one pair: the old last word with the new one. */
  lemma AdjacentSnoc(ws: seq<string>, w: string)
    requires ws != []
    ensures Adjacent(ws + [w]) == Adjacent(ws) + [(ws[|ws| - 1], w)]
  {
  }

  /** Appending a space and a word to a listing appends that word to its words. */
  lemma WordsAppendWord(a: string, w: string)
    requires IsWord(w)
    ensures Words(a + " " + w) == Words(a) + [w]
  {
    assert a + " " + w == a + (" " + w);
    WordsAppend(a, " " + w);
    assert (" " + w)[1..] == w;
    WordsOfWord(w);
  }

  /** Appending " dev" to a listing appends "dev" to its words. */
  lemma WordsAppendDev(route: string)
    ensures Words(route + " dev") == Words(route) + ["dev"]
  {
    assert IsWord("dev") by {
      assert forall j :: 0 <= j < 3 ==> "dev"[j] in {'d', 'e', 'v'};
    }
    WordsAppendWord(route, "dev");
    assert route + " " + "dev" == route + " dev";
  }

  /** A final "dev" word starts no pair, so when the word before it is not "dev"
      the scan result is unchanged. */
  lemma LastDevSuccessorFinalDev(ws: seq<string>)
    requires ws == [] || ws[|ws| - 1] != "dev"
    ensures LastDevSuccessor(Adjacent(ws + ["dev"])) == LastDevSuccessor(Adjacent(ws))
  {
    var ps := Adjacent(ws);
    var ps' := Adjacent(ws + ["dev"]);
    if ws != [] {
      AdjacentSnoc(ws, "dev");
      assert ps'[..|ps'| - 1] == ps;
      assert ps'[|ps'| - 1].0 != "dev";
    } else {
      assert ps' == [] && ps == [];
    }
  }

  /** A "dev" that is the final word has no successor: when the listing did not
      already end in "dev", it changes nothing. */
  lemma FinalDevIgnored(route: string)
    requires Words(route) == [] || Words(route)[|Words(route)| - 1] != "dev"
    ensures DefaultDevice(route + " dev") == DefaultDevice(route)
  {
    WordsAppendDev(route);
    LastDevSuccessorFinalDev(Words(route));
  }

  /** Words ending in "dev" and a word make that word the scan result. */
  lemma LastDevSuccessorDevLast(ws: seq<string>, device: string)
    requires ws != [] && ws[|ws| - 1] == "dev"
    ensures LastDevSuccessor(Adjacent(ws + [device])) == Some(device)
  {
    AdjacentSnoc(ws, device);
    var ps := Adjacent(ws + [device]);
    assert ps[|ps| - 1] == ("dev", device);
  }

  /** A "dev <word>" at the end overrides every earlier one. */
  lemma LaterDevOverrides(route: string, device: string)
    requires IsWord(device)
    ensures DefaultDevice(route + " dev " + device) == Ok(device)
  {
    var ws := Words(route) + ["dev"];
    WordsAppendWord(route, "dev");
    assert route + " " + "dev" == route + " dev";
    WordsAppendWord(route + " dev", device);
    assert route + " dev " + device == route + " dev" + " " + device;
    assert Words(route + " dev " + device) == ws + [device];
    LastDevSuccessorDevLast(ws, device);
  }

  // ---------------------------------------------------------------------------
  // _ip_of_device

  predicate IsInetLine(line: string)
  {
    StartsWith(line, "inet")
  }

  /** Index of the first line that starts with "inet" once stripped; |lines| when there is none. */
  function FirstInet(lines: seq<string>): (k: nat)
    ensures k <= |lines|
    ensures k < |lines| ==> IsInetLine(Strip(lines[k]))
    ensures forall j :: 0 <= j < k ==> !IsInetLine(Strip(lines[j]))
  {
    if lines == [] || IsInetLine(Strip(lines[0])) then 0 else 1 + FirstInet(lines[1..])
  }

  /** The properties above pin the index down. */
  lemma FirstInetUnique(lines: seq<string>, k: nat)
    requires k <= |lines|
    requires k < |lines| ==> IsInetLine(Strip(lines[k]))
    requires forall j :: 0 <= j < k ==> !IsInetLine(Strip(lines[j]))
    ensures FirstInet(lines) == k
  {
  }

  /** `line.split()[1]` is only defined when the first inet line has two tokens;
      the source raises IndexError otherwise. */
  predicate InetLineHasAddress(output: string)
  {
    var lines := Split(output, '\n');
    var k := FirstInet(lines);
    k < |lines| ==> |Words(Strip(lines[k]))| >= 2
  }

  /** What `_ip_of_device(device)` returns when the address listing is `output`. */
  function AddressOf(device: string, output: string): (r: Result<string>)
    requires InetLineHasAddress(output)
    ensures r.Err? ==> r.error == IpNotFound(device)
    ensures r.Ok? ==> r.value != [] && NoSpace(r.value) && '/' !in r.value
  {
    var lines := Split(output, '\n');
    var k := FirstInet(lines);
    if k == |lines| then Err(IpNotFound(device))
    else
      WordsAreWords(Strip(lines[k]));
      var token := Words(Strip(lines[k]))[1];
      var ip := Split(token, '/')[0];
      assert ip == token[..|ip|];
      if ip == "" then Err(IpNotFound(device)) else Ok(ip)
  }

  /** The loop of `_ip_of_device`: skip lines until the first inet line, take its address, break. */
  method IpOfDevice(device: string, output: string) returns (r: Result<string>)
    requires InetLineHasAddress(output)
    ensures r == AddressOf(device, output)
  {
    var ip: Option<string> := None;
    var lines := Split(output, '\n');
    var i := 0;
    while i < |lines|
      invariant i <= |lines|
      invariant forall j :: 0 <= j < i ==> !IsInetLine(Strip(lines[j]))
      invariant ip == None
    {
      var line := Strip(lines[i]);
      if !IsInetLine(line) {
        i := i + 1;
        continue;
      }
      assert FirstInet(lines) == i;
      ip := Some(Split(Words(line)[1], '/')[0]);
      break;
    }
    if ip.None? || ip.value == "" {
      return Err(IpNotFound(device));
    }
    return Ok(ip.value);
  }

  /** The parser fails exactly when there is no inet line, or its second token begins with "/". */
  lemma AddressFailsIff(device: string, output: string)
    requires InetLineHasAddress(output)
    ensures var lines := Split(output, '\n');
            var k := FirstInet(lines);
            AddressOf(device, output).Err? <==> k == |lines| || StartsWith(Words(Strip(lines[k]))[1], "/")
  {
    var lines := Split(output, '\n');
    var k := FirstInet(lines);
    if k < |lines| {
      var token := Words(Strip(lines[k]))[1];
      WordsAreWords(Strip(lines[k]));
      assert token != [];
      var ip := Split(token, '/')[0];
      assert ip == token[..Find(token, '/')];
      assert ip == [] <==> token[0] == '/';
    }
  }

  /** Lines after the first inet line never affect the result. */
  lemma LaterLinesIgnored(device: string, head: string, tail: string)
    requires FirstInet(Split(head, '\n')) < |Split(head, '\n')|
    requires InetLineHasAddress(head)
    ensures InetLineHasAddress(head + "\n" + tail)
    ensures AddressOf(device, head + "\n" + tail) == AddressOf(device, head)
  {
    var ls := Split(head, '\n');
    SplitAppend(head, tail, '\n');
    var all := ls + Split(tail, '\n');
    var k := FirstInet(ls);
    assert forall j :: 0 <= j < |ls| ==> all[j] == ls[j];
    FirstInetUnique(all, k);
  }

  // ---------------------------------------------------------------------------
  // The strings index() builds

  /** `iwgetid --raw` output with its last character (the newline) cut off: `[:-1]`. */
  function SsidOf(raw: string): (ssid: string)
    ensures raw == [] ==> ssid == []
    ensures raw != [] ==> ssid + [raw[|raw| - 1]] == raw
  {
    if raw == [] then [] else raw[..|raw| - 1]
  }

  /** How an f-string renders an optional value: None prints as "None". */
  function Render(v: Option<string>): (s: string)
    ensures v.Some? ==> s == v.value
    ensures v.None? ==> s == "None"
  {
    match v
    case Some(s) => s
    case None => "None"
  }

  /** The Wi-Fi QR payload `WIFI:S:<ssid>;T:WPA;P:<password>;;`, with no escaping. */
  function WifiPayload(ssid: string, password: string): (p: string)
    ensures |p| == |ssid| + |password| + 18
    ensures StartsWith(p, "WIFI:S:") && EndsWith(p, ";;")
    ensures p[7..7 + |ssid|] == ssid && p[7 + |ssid|..16 + |ssid|] == ";T:WPA;P:"
    ensures p[16 + |ssid|..|p| - 2] == password
  {
    "WIFI:S:" + ssid + ";T:WPA;P:" + password + ";;"
  }

  /** Reads a payload back: the SSID runs to the first ";", the password to the final ";;". */
  function ParseWifiPayload(payload: string): Option<(string, string)>
  {
    if !StartsWith(payload, "WIFI:S:") then None
    else
      var rest := payload[7..];
      var i := Find(rest, ';');
      var tail := rest[i..];
      if |tail| >= 11 && StartsWith(tail, ";T:WPA;P:") && EndsWith(tail, ";;")
      then Some((rest[..i], tail[9..|tail| - 2]))
      else None
  }

  /** The page URL `http://<ip>/`. */
  function UrlOf(ip: string): (url: string)
    ensures |url| == |ip| + 8
    ensures StartsWith(url, "http://") && EndsWith(url, "/")
    ensures url[7..|url| - 1] == ip
  {
    "http://" + ip + "/"
  }

  /** Reads the host back out of a URL of the shape `http://<host>/`. */
  function HostOf(url: string): Option<string>
  {
    if |url| >= 8 && StartsWith(url, "http://") && EndsWith(url, "/") then Some(url[7..|url| - 1]) else None
  }

  /** The SSID is the `iwgetid` line without its newline. */
  lemma SsidOfLine(ssid: string)
    ensures SsidOf(ssid + "\n") == ssid
  {
  }

  /** The payload carries the SSID and password unchanged when the SSID has no ";". */
  lemma WifiPayloadRoundTrip(ssid: string, password: string)
    requires ';' !in ssid
    ensures ParseWifiPayload(WifiPayload(ssid, password)) == Some((ssid, password))
  {
    var p := WifiPayload(ssid, password);
    var rest := p[7..];
    var tail := ";T:WPA;P:" + password + ";;";
    assert p[..7] == "WIFI:S:";
    assert rest == ssid + tail;
    forall j | 0 <= j < |ssid| ensures rest[j] != ';' {
      assert rest[j] == ssid[j] && ssid[j] in ssid;
    }
    assert rest[|ssid|] == ';';
    FindUnique(rest, ';', |ssid|);
    assert rest[..|ssid|] == ssid && rest[|ssid|..] == tail;
    assert tail[..9] == ";T:WPA;P:" && tail[|tail| - 2..] == ";;";
    assert tail[9..|tail| - 2] == password;
  }

  /** Without escaping, an SSID containing ";T:WPA;P:" gives the same payload as a
      different network whose password contains it. */
  lemma WifiPayloadAmbiguous(a: string, b: string, c: string)
    ensures (a + ";T:WPA;P:" + b, c) != (a, b + ";T:WPA;P:" + c)
    ensures WifiPayload(a + ";T:WPA;P:" + b, c) == WifiPayload(a, b + ";T:WPA;P:" + c)
  {
    var m := ";T:WPA;P:";
    assert |a + m + b| > |a|;
    calc {
      WifiPayload(a + m + b, c);
      "WIFI:S:" + (a + m + b) + m + c + ";;";
      "WIFI:S:" + a + m + (b + m + c) + ";;";
      WifiPayload(a, b + m + c);
    }
  }

  /** The URL carries the IP unchanged. */
  lemma UrlRoundTrip(ip: string)
    ensures HostOf(UrlOf(ip)) == Some(ip)
  {
  }

  // ---------------------------------------------------------------------------
  // index(): the page context

  /** The six entries index() writes. */
  const PageKeys: set<string> := {"ssid", "password", "wifi_qr", "raveberry_url", "raveberry_qr", "ip"}

  /**
   The last step of index(): the three Wi-Fi fields get their values when Wi-Fi is
   active and None otherwise; the URL, its QR tag and the IP are always written;
   every other entry of the context is left as it was.
   */
  method WritePageFields(context: map<string, Option<string>>, wifiActive: bool,
                         ssid: Option<string>, password: Option<string>, wifiQr: string,
                         url: string, urlQr: string, ip: string)
    returns (ctx: map<string, Option<string>>)
    ensures ctx.Keys == context.Keys + PageKeys
    ensures forall key :: key in context && key !in PageKeys ==> ctx[key] == context[key]
    ensures ctx["raveberry_url"] == Some(url) && ctx["raveberry_qr"] == Some(urlQr) && ctx["ip"] == Some(ip)
    ensures wifiActive ==> ctx["ssid"] == ssid && ctx["password"] == password && ctx["wifi_qr"] == Some(wifiQr)
    ensures !wifiActive ==> ctx["ssid"] == None && ctx["password"] == None && ctx["wifi_qr"] == None
  {
    ctx := context;
    if wifiActive {
      ctx := ctx["ssid" := ssid];
      ctx := ctx["password" := password];
      ctx := ctx["wifi_qr" := Some(wifiQr)];
    } else {
      ctx := ctx["ssid" := None];
      ctx := ctx["password" := None];
      ctx := ctx["wifi_qr" := None];
    }
    ctx := ctx["raveberry_url" := Some(url)];
    ctx := ctx["raveberry_qr" := Some(urlQr)];
    ctx := ctx["ip" := Some(ip)];
  }

  /** The address listing is well formed for whatever device the route parser finds. */
  predicate ListingsParse(routeOutput: string, showAddress: string -> string)
  {
    DefaultDevice(routeOutput).Ok? ==> InetLineHasAddress(showAddress(DefaultDevice(routeOutput).value))
  }

  /** The IP the page shows, when both parsers succeed. */
  function PageIp(routeOutput: string, showAddress: string -> string): Result<string>
    requires ListingsParse(routeOutput, showAddress)
  {
    match DefaultDevice(routeOutput)
    case Err(e) => Err(e)
    case Ok(device) => AddressOf(device, showAddress(device))
  }

  /**
   index() after the admin check: reads the SSID (None from `iwgetid` means Wi-Fi is
   inactive), parses the device and its IP (either ValueError ends the request),
   looks up the password only when Wi-Fi is active, builds the payloads (the Wi-Fi
   one even when Wi-Fi is inactive, from the rendered Nones), and writes the page fields.
   */
  method Index(context: map<string, Option<string>>, iwgetid: Option<string>, routeOutput: string,
               showAddress: string -> string, passwordFor: string -> Option<string>, qr: string -> string)
    returns (r: Result<map<string, Option<string>>>)
    requires ListingsParse(routeOutput, showAddress)
    ensures r.Err? <==> PageIp(routeOutput, showAddress).Err?
    ensures r.Err? ==> r.error == PageIp(routeOutput, showAddress).error
    ensures r.Ok? ==> var ip := PageIp(routeOutput, showAddress).value;
                      && r.value.Keys == context.Keys + PageKeys
                      && (forall key :: key in context && key !in PageKeys ==> r.value[key] == context[key])
                      && r.value["ip"] == Some(ip)
                      && r.value["raveberry_url"] == Some(UrlOf(ip))
                      && r.value["raveberry_qr"] == Some(qr(UrlOf(ip)))
    ensures r.Ok? && iwgetid.None? ==>
              r.value["ssid"] == None && r.value["password"] == None && r.value["wifi_qr"] == None
    ensures r.Ok? && iwgetid.Some? ==> var ssid := SsidOf(iwgetid.value);
              && r.value["ssid"] == Some(ssid)
              && r.value["password"] == passwordFor(ssid)
              && r.value["wifi_qr"] == Some(qr(WifiPayload(ssid, Render(passwordFor(ssid)))))
  {
    var ssid: Option<string> := None;
    var password: Option<string> := None;
    var wifiActive: bool;
    match iwgetid {
      case Some(raw) =>
        ssid := Some(SsidOf(raw));
        wifiActive := true;
      case None =>
        wifiActive := false;
    }

    var device :- GetDefaultDevice(routeOutput);
    var ip :- IpOfDevice(device, showAddress(device));

    if wifiActive {
      password := passwordFor(ssid.value);
    }

    var wifiQr := qr(WifiPayload(Render(ssid), Render(password)));
    var url := UrlOf(ip);
    var urlQr := qr(url);

    var ctx := WritePageFields(context, wifiActive, ssid, password, wifiQr, url, urlQr, ip);
    r := Ok(ctx);
  }
}
