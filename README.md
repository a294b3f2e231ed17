# netman: IPv4 settings, from the panel to netsh

This project models the IPv4 configuration path of netman in Dafny. It has two
sides:

- **The interface panel** (`network_card_app.py`). It reads an interface's
  current IPv4 settings and fills the entry fields with them. On "Appliquer" it
  checks the address, the mask (a prefix length 0–32 or a dotted quad) and an
  optional gateway, converts a prefix length to a dotted netmask and posts a
  static payload. On "Activer DHCP" it posts a DHCP payload, unless DHCP is
  already active.
- **The configuration service** (`network_backend_service_windows.py`). It
  answers `POST /interfaces/<iface>`. An undecodable body gets 400. A body whose
  "dhcp" is JSON `true` runs `netsh interface ip set address <iface> dhcp`.
  Any other body is checked again. A failed check gets 400; a passing one runs
  `netsh ... static <ip> <mask> (<gw> 1 | none)`. A command that exits non-zero
  gets 500 with its error text, and one that succeeds gets 200. A path whose
  interface segment is empty or holds '/' matches no route and gets 404.

The modules follow that structure:

- `text.dfy`: the Python string operations the checks are built from (`isdigit`,
  `int`, `str`, `strip`, `split`, `join`), on ASCII text.
- `ipv4.dfy`: `ipaddress.IPv4Address` parsing and formatting, the mask check,
  and the conversion of a prefix length to a netmask.
- `service.dfy`: the service's checks, command lines and request handler.
- `panel.dfy`: the panel's settings lookup, its buttons and its window (a
  class whose fields the methods update).
- `pipeline.dfy`: the two sides together, and the concrete cases.

The model follows CPython 3.12. Two of its rules are recent: `ipaddress`
refuses octets with a leading zero from 3.9.5 on, and `int()` limits digit
strings to 4300 characters from 3.11 on. The wording of the `int()` error is
3.12's.

The operating system is a parameter, `os: seq<string> -> Completed`. It maps a
command line to its exit code and captured output. The interface table of
`psutil.net_if_addrs()` and the list of active interfaces are also parameters.

Five behaviours of the code worth knowing:

- The panel checks address, then mask, then gateway. The service checks
  address, then gateway, then mask. With a bad mask and a bad gateway, the two
  report different fields (`Pipeline.CheckOrderDiffers`).
- The service does not convert a prefix-length mask. A "24" it receives reaches
  netsh as "24", while the panel would have sent "255.255.255.0"
  (`Pipeline.PrefixMaskForms`).
- Both sides accept any IPv4 address as a dotted mask. Its bits need not be
  contiguous (`IPv4.MaskExamples`).
- `int()` refuses a digit string longer than 4300 characters (leading zeros
  count). When the address is valid and the mask is such a string, the panel's
  callback raises and nothing is sent, whatever the gateway holds. The service
  answers 400 with the conversion error when the gateway is empty or valid, and
  reports the gateway otherwise (`Pipeline.LongDigitMask`). With a bad address
  both sides report the address.
- With no interface selected the panel posts to `/interfaces/`, which the
  service does not route: the answer is 404 and netsh never runs
  (`Pipeline.Deliver`).

## Model

| member | source | states |
|---|---|---|
| Text.IsDigits | network_card_app.py:118 | `str.isdigit()` on ASCII text: non-empty and every character a decimal digit |
| Text.DecimalValue | network_card_app.py:37 | `int(s)` on a digit string, leading zeros allowed, most significant digit first (its value is stated by `Text.NatToString` and `Text.CanonicalDigits`) |
| Text.NatToString | network_card_app.py:38 | `str(n)` is a non-empty digit string that denotes n and has no leading zero |
| Text.CanonicalDigits | network_card_app.py:108-113 | a digit string without a leading zero (or "0") is exactly `str` of its value |
| Text.Strip | network_card_app.py:124-126 | `strip()` leaves no whitespace at either end and never lengthens the text |
| Text.StripCutsOnlySpace | network_card_app.py:124-126 | the stripped text is a slice of the input, and only whitespace is cut on either side |
| Text.StripKeeps | network_backend_service_windows.py:36-38 | text with no whitespace at its ends is unchanged by `strip()` |
| Text.StripIdempotent | network_backend_service_windows.py:36-38 | stripping what was already stripped changes nothing |
| Text.DigitsNoEdgeSpace | network_backend_service_windows.py:37 | a digit string has no whitespace at its ends, so `strip()` keeps it |
| Text.JoinSplit | network_card_app.py:108-113 | joining the '.'-fields of a text gives the text back |
| Text.SplitJoin | network_card_app.py:38 | splitting a join of dot-free fields gives the fields back |
| IPv4.ParseOctet | network_card_app.py:108-113 | an accepted octet is at most 255 and is the canonical decimal spelling of its value |
| IPv4.ParseIPv4 | network_card_app.py:108-113 | an accepted address text denotes a value below 2^32 |
| IPv4.FormatThenParse | network_card_app.py:38 | formatting a 32-bit value and parsing the text gives the value back |
| IPv4.IsIPv4 | network_card_app.py:108-113 | `_valid_ip`: the text parses as an IPv4 address (its properties are stated by `IPv4.IsIPv4Iff`, `IPv4.IPv4NoEdgeSpace` and `IPv4.IPv4NotDigits`) |
| IPv4.FormatIPv4 | network_card_app.py:38 | `str` of an address value: the four octets in decimal joined by '.' (stated by `IPv4.FormatThenParse` and `IPv4.ParseThenFormat`) |
| IPv4.ParseThenFormat | network_card_app.py:108-113 | every accepted text is the canonical spelling of its value |
| IPv4.IsIPv4Iff | network_card_app.py:108-113 | the valid IPv4 texts are exactly the formatted 32-bit values (both directions) |
| IPv4.IPv4NoEdgeSpace | network_backend_service_windows.py:36-41 | a valid address has no whitespace at its ends, so the service's `strip()` keeps it |
| IPv4.IPv4NotDigits | network_card_app.py:137-138 | a dotted quad is never taken for a prefix length by `isdigit()` |
| IPv4.MaskRaises | network_card_app.py:118-119 | `_valid_mask` raises on an all-digit text longer than `int()` accepts |
| IPv4.IsValidMask | network_card_app.py:115-120 | `_valid_mask`: non-empty; all digits, short enough for `int()` and at most 32; or else a valid address (stated by `IPv4.MaskOfInteger` and `IPv4.MaskExamples`) |
| IPv4.MaskOfInteger | network_card_app.py:115-120 | `_valid_mask(str(p))` holds exactly when 0 <= p <= 32, for every integer p |
| IPv4.MaskExamples | network_card_app.py:115-120 | "024" and "0" are valid, "33" and "" are not, and the non-contiguous "255.0.255.0" is accepted |
| IPv4.NonContiguousMask | network_card_app.py:120 | "255.0.255.0" passes the address check used for dotted masks |
| IPv4.NetmaskValue | network_card_app.py:36-38 | the netmask value of a prefix length fits in 32 bits |
| IPv4.PrefixToNetmask | network_card_app.py:36-38 | the netmask text is a valid address that reads back as the netmask value |
| IPv4.CidrToNetmask | network_card_app.py:36-38 | for a digit string short enough for `int()` with value at most 32, the converted mask is a valid dotted mask, not all digits, whose value is the netmask of the prefix |
| IPv4.NetmaskValueIs | network_card_app.py:36-38 | the netmask of prefix p is 2^32 - 2^(32-p) |
| IPv4.NetmaskTopBits | network_card_app.py:36-38 | bit i of the netmask of p is set exactly when i >= 32 - p (the top p bits, nothing else) |
| IPv4.NetmaskOfZero | network_card_app.py:36-38 | prefix 0 gives "0.0.0.0" |
| IPv4.NetmaskOf24 | network_card_app.py:36-38 | prefix 24 gives "255.255.255.0" |
| IPv4.NetmaskOf32 | network_card_app.py:36-38 | prefix 32 gives "255.255.255.255" |
| Service.Run | network_backend_service_windows.py:18-21 | success exactly on exit code 0; otherwise the error is the stripped stderr, or the stripped stdout when stderr is blank |
| Service.StaticArgv | network_backend_service_windows.py:23-29 | the static command has 11 words with a gateway and 10 without, and netsh reads back the interface, address, mask and route (gateway, metric "1") |
| Service.DhcpArgv | network_backend_service_windows.py:32-33 | the DHCP command has 7 words, and netsh reads it as "DHCP on this interface" |
| Service.WindowsSetIpv4 | network_backend_service_windows.py:23-30 | the command built by appending is the static command line, it asks netsh for the requested settings, and its outcome is the command's exit |
| Service.AfterCommand | network_backend_service_windows.py:80-85 | the command runs; 200 with an acknowledgement of the interface and mode exactly on exit 0, otherwise 500 with the command's error text |
| Service.MatchesRoute | network_backend_service_windows.py:61-62 | the route `/interfaces/<iface>` matches a non-empty segment without '/' |
| Service.Message | network_backend_service_windows.py:40-58 | the 400 error texts: the address and gateway prefixes, "CIDR invalide (0-32)", "Masque invalide", and the `int()` conversion error with its digit count |
| Service.ValidateStaticPayload | network_backend_service_windows.py:35-59 | accepts exactly when the stripped address, non-empty gateway and mask are valid (the mask as the panel defines it); each error holds exactly in its case, in the order address, gateway, mask, a digit mask too long for `int()` giving the conversion error with its digit count; success returns the stripped fields with "" gateway as None |
| Service.ConfigureInterface | network_backend_service_windows.py:61-85 | status is 200, 400 or 500; 200 exactly for an acknowledgement naming the path's interface; 400 exactly when no command runs; every command run is well formed for that interface; 200 exactly when it exits with 0; a 500 carries the command's error text |
| Service.UndecodableRefused | network_backend_service_windows.py:63-66 | an undecodable body gets 400 and the payload error, and nothing runs |
| Service.DhcpIgnoresStaticFields | network_backend_service_windows.py:68-73 | with "dhcp" true, the DHCP command for the path's interface runs and the static fields have no effect |
| Service.OtherDhcpValuesAreStatic | network_backend_service_windows.py:68 | any "dhcp" value other than JSON true is handled as if the key were missing |
| Service.InvalidStaticRefused | network_backend_service_windows.py:75-78 | a failed check gets 400 with the check's message, and nothing runs |
| Service.ValidStaticApplied | network_backend_service_windows.py:80-85 | a passing request runs the static command for the checked fields: 200 on exit 0, else 500 with its error |
| Service.MissingAddressRefused | network_backend_service_windows.py:36-43 | a missing "ipv4" is read as "" and refused as a bad address |
| Service.BlankMaskRefused | network_backend_service_windows.py:51-58 | once address and gateway pass, a missing or blank mask is refused as an invalid mask |
| Service.GatewayReportedBeforeMask | network_backend_service_windows.py:45-49 | a bad gateway is reported whatever the mask holds |
| Panel.FirstIpv4InfoIsFirstMatch | network_card_app.py:25-34 | the settings shown come from the earliest IPv4 entry, and are empty with DHCP false when there is none |
| Panel.FirstIpv4Info | network_card_app.py:25-34 | the settings of the first IPv4 entry, or empty settings with DHCP false (stated by `Panel.FirstIpv4InfoIsFirstMatch`) |
| Panel.GetIpv4Info | network_card_app.py:25-34 | the scan with early return gives the first-match settings of the interface's entries (none for an unknown interface) |
| Panel.SubmitStatic | network_card_app.py:122-141 | what "Appliquer" does with the entry texts: an error box, an escaping `int()` error, or a payload (stated by `Panel.SubmitStaticOrder`) |
| Panel.SubmitDhcp | network_card_app.py:143-148 | what "Activer DHCP" does: a notice, or the DHCP payload (stated by `Panel.SubmitDhcpSendsOnlyWhenInactive`) |
| Panel.SubmitStaticOrder | network_card_app.py:122-141 | each error message appears exactly in its case, in the order address, mask, gateway; a digit mask too long for `int()` after a valid address raises instead, with no box; a payload is sent exactly when all three pass |
| Panel.SentStaticPayloadWellFormed | network_card_app.py:122-141 | a sent payload names the selected interface, has a valid address, a dotted mask (a prefix becomes the netmask of the same value), an empty or valid gateway, and no surrounding whitespace |
| Panel.SubmitDhcpSendsOnlyWhenInactive | network_card_app.py:143-148 | the DHCP payload is sent exactly when DHCP is not active, and it names the interface |
| Panel.InterfaceApp.constructor | network_card_app.py:87-93 | the window offers the active interfaces and shows the first one's settings |
| Panel.InterfaceApp.UpdateFields | network_card_app.py:95-106 | nothing changes without a selection; otherwise the fields and the DHCP flag show the interface's first-match settings |
| Panel.InterfaceApp.SelectInterface | network_card_app.py:58-62 | writing the selection triggers the field update for the new interface |
| Panel.InterfaceApp.RefreshInterfaces | network_card_app.py:89-93 | the drop-down holds the active interfaces and the first one, if any, is selected and shown |
| Panel.InterfaceApp.ApplyConfig | network_card_app.py:122-141 | the button's outcome is the static submission of the current fields (an escaping `int()` error exactly for a too-long digit mask after a valid address), and a sent payload names the selected interface |
| Panel.InterfaceApp.SetDhcp | network_card_app.py:143-148 | a notice while DHCP is active, otherwise the DHCP payload for the selected interface |
| Pipeline.Encode | network_card_app.py:140-152 | a static payload carries its three fields and no "dhcp" key; only the DHCP payload has "dhcp" true |
| Pipeline.Deliver | network_card_app.py:150-152 | the post reaches the handler only when the interface name fills the route; otherwise 404 and nothing runs; every command run is well formed for that interface |
| Pipeline.SentStaticPayloadAccepted | network_backend_service_windows.py:35-59 | the service accepts every static payload the panel sends, with its fields unchanged |
| Pipeline.AcceptedPayloadApplied | network_backend_service_windows.py:75-85 | once routed, an accepted payload runs the static command for its fields and never gets 400 |
| Pipeline.SentStaticPayloadApplied | network_backend_service_windows.py:75-85 | a payload the panel sends never gets 400; with no routable interface it gets 404 and nothing runs; otherwise it runs netsh for the selected interface with the sent address, mask and gateway, and gets 200 exactly on exit 0 |
| Pipeline.SameAcceptance | network_backend_service_windows.py:35-59 | given the same raw texts, the panel sends exactly when the service accepts |
| Pipeline.DhcpRequestApplied | network_card_app.py:143-148 | the DHCP button reaches the service only when DHCP is off, and then gets 404 without a routable interface or runs exactly the DHCP command for the selected interface |
| Pipeline.LongDigitMask | network_backend_service_windows.py:51-52 | after a valid address, a digit mask too long for `int()` makes the panel's callback raise with nothing sent, whatever the gateway; the service runs nothing and answers 400, with the conversion error when the gateway is empty or valid and with the gateway error otherwise |
| Pipeline.FailedCommandReported | network_backend_service_windows.py:18-21 | a command exiting non-zero with error output gives 500 with that output stripped |
| Pipeline.ValidStaticExample | network_backend_service_windows.py:35-59 | ("10.0.0.5", "24", "") is accepted as ("10.0.0.5", "24", None) |
| Pipeline.BadAddressExample | network_backend_service_windows.py:40-43 | "999.0.0.1" is refused as a bad address |
| Pipeline.BadGatewayExample | network_backend_service_windows.py:45-49 | gateway "abc" is refused as a bad gateway |
| Pipeline.DhcpExample | network_backend_service_windows.py:32-33 | the DHCP command for "eth0" is `netsh interface ip set address eth0 dhcp` |
| Pipeline.CheckOrderDiffers | network_card_app.py:128-136 | with mask "33" and gateway "abc", the panel reports the mask and the service reports the gateway |
| Pipeline.PrefixMaskForms | network_card_app.py:137-138 | the panel sends "24" as "255.255.255.0", while the service passes a "24" it receives to netsh unchanged |

## Left out

- The Tk window itself: layout, logo, icon and footer. Message boxes are modelled as the `Action` a button produces, not as dialogs.
- `_send` as HTTP (`network_card_app.py:150-158`): the request, its timeout, and the success, HTTP-error and connection-error boxes. The model stops at the payload. `Pipeline.Deliver` takes the payload straight to the handler.
- The URL encoding of the interface name in the request path. `Pipeline.Deliver` routes on the name itself: an empty name or one holding '/' gets 404, and other characters that URLs treat specially ('?', '#', '%') are not modelled.
- `get_active_interfaces` and `psutil.net_if_addrs()` are inputs, not modelled. The `socket.AF_INET` test is a two-valued family.
- JSON decoding beyond its outcome. A body is either undecodable or an object with optional string fields. A body that decodes to a non-object (such as `null`), and fields holding non-strings, are not modelled. In the code, `data.get` on a non-object raises at `network_backend_service_windows.py:68`, and `.strip()` on a non-string raises inside the `try` at lines 75-76; neither error is a `ValueError` or `RuntimeError`, so both escape the handler's `except` clauses.
- `subprocess.run` and netsh themselves: the operating system is a parameter. `Service.ReadNetsh` describes how netsh reads its arguments positionally.
- The Windows service wrapper and its lifecycle (`NetworkBackendService`), and the Flask thread.
- Service.Message: gives only the prefix of the bad-address and bad-gateway messages. The library's exception text that follows the prefix is not modelled.
- Text.IsSpace and Text.IsDigits: ASCII only. Python's `strip()` and `isdigit()` also accept non-ASCII whitespace and digits, and `ipaddress` then refuses non-ASCII digits.
- Panel.InterfaceApp.constructor: starts the DHCP flag as false. The code leaves the attribute undefined until the first update, and `set_dhcp` reads a missing attribute as false, so the behaviour is the same.
- Panel.InterfaceApp.SelectInterface: a Tk variable trace runs on every write. Only the writes of the refresh and of a user choice are modelled.
