# Raveberry network-info page, modelled in Dafny

Raveberry's `/network_info` page shows the admin how to reach the box. It gives
the Wi-Fi network name, the password and a Wi-Fi QR code, plus the URL
`http://<ip>/` and its QR code. The page handler (`NetworkInfo.index` in
`core/network_info.py`) gathers these values from command output:

- `_get_default_device` splits the output of `ip route show default` into words.
  The device is the word after the last `dev` word that has a successor. If no
  `dev` word has one, it raises `ValueError`.
- `_ip_of_device` reads the output of `ip -4 a show dev <device>` line by line.
  It takes the first stripped line that starts with `inet`. The address is that
  line's second token, cut at the first `/`. If there is no such line, or the
  address comes out empty, it raises `ValueError`.
- `index` builds the values below and writes them into the template context. The
  three Wi-Fi fields are None when `iwgetid` fails.
  - The SSID: the `iwgetid --raw` output without its last character.
  - The Wi-Fi payload: `WIFI:S:<ssid>;T:WPA;P:<password>;;`.
  - The URL and the IP.

The model has three files:

- `wrappers.dfy` defines `Option`, which stands for Python's `None`.
- `py_strings.dfy` (module `PyStrings`) models the Python string operations the
  parsers use. These are `str.split()` (`Words`), `str.split(sep)` (`Split`),
  `str.strip()` (`Strip`) and `str.startswith`. The source never calls
  `sep.join`; the model defines it (`Join`) only as the inverse of both splits.
  Whitespace means the code points that `str.isspace()` accepts.
- `network_info.dfy` (module `NetworkInfo`) holds the core:
  - Both parsers are methods. Each keeps the source's loop and its
    reassignment, `continue` and `break`.
  - Each method is proved equal to a specification function: `DefaultDevice` or
    `AddressOf`.
  - Lemmas state which word or line those functions pick, and when they fail.
  - The two payload strings come with functions that parse them back, and
    round-trip lemmas.
  - `Index` is the page handler after the admin check.

Each external command's output is a parameter:

- `iwgetid`: an `Option<string>`. `None` stands for a non-zero exit
  (`CalledProcessError`), the only failure the source catches; Wi-Fi is then
  inactive.
- The address listing: a function from the device name to the listing.
- The password lookup: a function from the SSID to the password, or `None` when
  the helper exits non-zero.
- The QR renderer `qr`: a function from the payload string to the SVG tag.

The model also keeps some things the source does that are easy to miss:

- The Wi-Fi payload is built even when Wi-Fi is inactive. An f-string turns
  `None` into `"None"` (`Render`).
- The password is used exactly as the helper printed it. It is not stripped.
- SSID and password are not escaped in the payload. `WifiPayloadAmbiguous` shows
  two different networks with the same payload.

## Model

| member | source | states |
|---|---|---|
| `PyStrings.WordsAreWords` | core/network_info.py:34 | `output.split()` (`Words`): every token it returns is non-empty and contains no whitespace |
| `PyStrings.WordsJoin` | core/network_info.py:34 | splitting `" ".join(words)` gives back the words, for any list of whitespace-free non-empty words |
| `PyStrings.WordsAppend` | core/network_info.py:34 | splitting a concatenation cut at whitespace gives the words of each side, in order |
| `PyStrings.Split` | core/network_info.py:48 | `output.split("\n")`: at least one piece, none containing the separator, the first piece is the text before the first separator |
| `PyStrings.JoinSplit` | core/network_info.py:48 | joining the pieces of `s.split(sep)` with `sep` gives back `s` |
| `PyStrings.SplitJoin` | core/network_info.py:48 | splitting a join of separator-free pieces gives back the pieces |
| `PyStrings.SplitAppend` | core/network_info.py:48 | a separator in the middle splits into the lines of each side |
| `PyStrings.StripSpec` | core/network_info.py:49 | `line.strip()` is the slice between leading and trailing whitespace runs, and neither of its ends is whitespace |
| `NetworkInfo.Adjacent` | core/network_info.py:36 | `zip(words, words[1:])`: one pair per word that has a successor, pair k being word k and word k+1 |
| `NetworkInfo.CheckDevice` | core/network_info.py:39-40 | `if not device: raise ValueError`: no device or an empty one is `NoDefaultDevice`, any other device is returned as found |
| `NetworkInfo.GetDefaultDevice` | core/network_info.py:30-41 | the loop over `zip(words, words[1:])`, which reassigns on every `dev` without breaking, returns exactly `DefaultDevice(output)` |
| `NetworkInfo.LastDevSuccessorOfLast` | core/network_info.py:36-38 | when pair k is the last pair starting with `dev`, the scan's result is that pair's second word |
| `NetworkInfo.LastDevSuccessorNone` | core/network_info.py:36-39 | the scan finds nothing if and only if no pair starts with `dev` |
| `NetworkInfo.LastDevSuccessorSome` | core/network_info.py:36-38 | whatever the scan finds is the second word of the last `dev` pair |
| `NetworkInfo.DefaultDeviceIsAfterLastDev` | core/network_info.py:34-41 | the device is the word right after the last `dev` word that has a successor; earlier `dev` pairs are overridden |
| `NetworkInfo.DefaultDeviceFailsIff` | core/network_info.py:34-41 | `ValueError` is raised exactly when no `dev` word is followed by another word |
| `NetworkInfo.DefaultDeviceIsWord` | core/network_info.py:34-41 | on success the device is non-empty and contains no whitespace |
| `NetworkInfo.LastDevSuccessorFinalDev` | core/network_info.py:36 | a final `dev` word starts no pair, so when the word before it is not `dev` the scan result is unchanged |
| `NetworkInfo.FinalDevIgnored` | core/network_info.py:36 | appending a `dev` with no successor to the route listing leaves the result (device or error) unchanged, provided the listing does not already end in `dev` |
| `NetworkInfo.LaterDevOverrides` | core/network_info.py:36-38 | a listing that ends in `dev <word>` yields that word, whatever came before |
| `NetworkInfo.FirstInet` | core/network_info.py:48-51 | the index of the first line that starts with `inet` once stripped: no earlier line does, and it is `len(lines)` when none does |
| `NetworkInfo.AddressOf` | core/network_info.py:52-55 | on success the address is non-empty, has no `/` and no whitespace; every failure is `ValueError("ip not found for <device>")` |
| `NetworkInfo.IpOfDevice` | core/network_info.py:43-56 | the loop that skips non-`inet` lines and breaks at the first `inet` line returns exactly `AddressOf(device, output)` |
| `NetworkInfo.AddressFailsIff` | core/network_info.py:50-55 | `ValueError` is raised exactly when no line starts with `inet`, or when that line's second token begins with `/` |
| `NetworkInfo.LaterLinesIgnored` | core/network_info.py:48-53 | lines after the first `inet` line, including later `inet` lines, never change the result |
| `NetworkInfo.SsidOf` | core/network_info.py:83-85 | the SSID is the raw `iwgetid` output minus its last character, and empty output gives an empty SSID |
| `NetworkInfo.SsidOfLine` | core/network_info.py:85 | for a newline-terminated `iwgetid` line, the SSID is the line without the newline |
| `NetworkInfo.Render` | core/network_info.py:102 | the f-string's rendering of an optional value: a present value as itself, `None` as the text `"None"` |
| `NetworkInfo.WifiPayload` | core/network_info.py:102 | the f-string `WIFI:S:{ssid};T:WPA;P:{password};;`: 18 characters longer than SSID and password together, with the SSID right after `WIFI:S:`, then `;T:WPA;P:`, then the password, then `;;` |
| `NetworkInfo.WifiPayloadRoundTrip` | core/network_info.py:102 | `WIFI:S:<ssid>;T:WPA;P:<password>;;` gives back the SSID and password when the SSID has no `;` |
| `NetworkInfo.WifiPayloadAmbiguous` | core/network_info.py:102 | without escaping, every SSID of the form `a;T:WPA;P:b` with password `c` gives the same payload as the different network with SSID `a` and password `b;T:WPA;P:c` |
| `NetworkInfo.UrlOf` | core/network_info.py:103 | the f-string `http://{ip}/`: the IP framed by `http://` and a final `/`, eight characters longer |
| `NetworkInfo.UrlRoundTrip` | core/network_info.py:103 | `http://<ip>/` gives back the IP |
| `NetworkInfo.WritePageFields` | core/network_info.py:106-116 | ssid, password and wifi_qr get their values when Wi-Fi is active and None otherwise; raveberry_url, raveberry_qr and ip are always written; other context entries are unchanged |
| `NetworkInfo.Index` | core/network_info.py:80-116 | the page fails exactly when either parser fails, with that parser's error; on success ip, URL and URL QR always come from the parsed IP; when `iwgetid` exited non-zero, ssid, password and wifi_qr are None; otherwise the SSID is the output minus its last character, the password comes from the lookup for that SSID, and wifi_qr is the QR of the exact payload |

## Left out

- `_qr_path` (SVG rendering by the third-party `qrcode` package) is not modelled. The model takes it as an opaque parameter `qr`.
- The `subprocess.check_output` calls are not modelled. Their outputs are parameters, as described above. The `universal_newlines` translation of `\r\n` is assumed to have happened already.
- The admin check, `redirect`, `render` and the rest of Django's request handling are not modelled. `Index` starts after the admin check and returns the context instead of rendering it.
- `state_dict` is not modelled. It only delegates to `Base`, which is not part of this model.
- The context's other entries, from `Base.context`, are modelled as `Option<string>` values. `Index` passes them through unchanged.
- `IpOfDevice` and `AddressOf` require `InetLineHasAddress`: the first `inet` line must have at least two tokens. With fewer, `line.split()[1]` raises `IndexError` in the source. That is an unhandled crash, not one of the parser's own error paths.
- The `ip` commands failing, or a binary (`ip`, `/sbin/iwgetid`, `sudo`) that cannot be started, have no input in the model. In the source the resulting `CalledProcessError` from `ip`, or the `OSError` from a missing binary, escapes from `index()` and the page fails. So `Index`'s "fails exactly when a parser fails" holds only for commands that ran; it covers the ValueErrors alone.
- The rest of Raveberry is not modelled.
