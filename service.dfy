/**
 * The configuration service: the checks it applies to a static request, the
 * `netsh` command lines it builds, how it reads the exit of such a command, and
 * how each request to `POST /interfaces/<iface>` becomes an HTTP status.
 *
 * The operating system is an oracle: a total function from a command line to
 * the exit code and the captured output of running it.
 */
module Service {
  import opened Wrappers
  import opened Text
  import opened IPv4

  // ----- requests and responses -----

  /**
   * The value under "dhcp" in the decoded body. `data.get("dhcp") is True` holds
   * only for JSON `true`; a missing key, `false`, `"true"` or `1` are all other values.
   */
  datatype DhcpField = Missing | JsonTrue | OtherValue

  /** A decoded JSON object, as far as the service reads it; None is a missing key. */
  datatype Body = Body(ipv4: Option<string>, mask: Option<string>, gateway: Option<string>, dhcp: DhcpField)

  /** `request.get_json(force=True)`: the body did not decode, or it decoded to an object. */
  datatype Request = Undecodable | Decoded(body: Body)

  /** What `subprocess.run(cmd, capture_output=True, text=True)` reports. */
  datatype Completed = Completed(returncode: int, stdout: string, stderr: string)

  datatype Mode = StaticMode | DhcpMode

  /** The JSON reply: `{"status": "ok", "interface": ..., "mode": ...}` or `{"error": ...}`. */
  datatype Reply = Ack(iface: string, mode: Mode) | ErrorReply(message: string) | NotFound

  /**
   * Whether `POST /interfaces/<path>` reaches `configure_interface`: Flask's default
   * `<iface>` converter takes one non-empty path segment, so an empty name or one
   * holding '/' gets Flask's own 404 page instead.
   */
  predicate MatchesRoute(path: string) {
    path != "" && '/' !in path
  }

  datatype Response = Response(status: nat, reply: Reply)

  /** A handled request: its response and the command line it ran, if any. */
  datatype Handled = Handled(response: Response, issued: Option<seq<string>>)

  const PayloadError := "Payload JSON manquant ou invalide"

  // ----- running a command -----

  /**
   * `_run`: an exit code of 0 is success. Otherwise the error text is the stripped
   * standard error, or the stripped standard output when standard error is blank.
   */
  function Run(proc: Completed): (r: Outcome<string>)
    ensures r.Pass? <==> proc.returncode == 0
    ensures r.Fail? ==> NoEdgeSpace(r.error)
    ensures r.Fail? && Strip(proc.stderr) != "" ==> r.error == Strip(proc.stderr)
    ensures r.Fail? && Strip(proc.stderr) == "" ==> r.error == Strip(proc.stdout)
  {
    if proc.returncode != 0 then
      Fail(if Strip(proc.stderr) != "" then Strip(proc.stderr) else Strip(proc.stdout))
    else Pass
  }

  // ----- netsh command lines -----

  const SetAddress: seq<string> := ["netsh", "interface", "ip", "set", "address"]

  /** A default route handed to netsh: the gateway and its metric. */
  datatype Route = Route(gateway: string, metric: string)

  /** What a `netsh interface ip set address` command line asks of the system. */
  datatype NetshRequest =
    | SetStatic(name: string, address: string, mask: string, route: Option<Route>)
    | SetDhcp(name: string)

  /**
   * How netsh reads `set address` positionally: the interface name, then `dhcp`, or
   * `static` with address, mask and either `none` or a gateway and a metric.
   */
  function ReadNetsh(argv: seq<string>): Option<NetshRequest> {
    if |argv| < 7 || argv[..5] != SetAddress then None
    else if argv[6] == "dhcp" && |argv| == 7 then Some(SetDhcp(argv[5]))
    else if argv[6] == "static" && |argv| == 10 && argv[9] == "none" then
      Some(SetStatic(argv[5], argv[7], argv[8], None))
    else if argv[6] == "static" && |argv| == 11 then
      Some(SetStatic(argv[5], argv[7], argv[8], Some(Route(argv[9], argv[10]))))
    else None
  }

  /** The route `_windows_set_ipv4` asks for: metric 1 through the gateway, if one is given. */
  function RouteOf(gw: Option<string>): Option<Route> {
    if gw.Some? && gw.value != "" then Some(Route(gw.value, "1")) else None
  }

  /**
   * The command line of `_windows_set_ipv4`: eleven words ending in the gateway
   * and metric "1" when a gateway is given, ten ending in "none" otherwise. netsh
   * reads back exactly the requested interface, address, mask and route.
   */
  function StaticArgv(iface: string, ip: string, mask: string, gw: Option<string>): (argv: seq<string>)
    ensures |argv| == if RouteOf(gw).Some? then 11 else 10
    ensures ReadNetsh(argv) == Some(SetStatic(iface, ip, mask, RouteOf(gw)))
  {
    var argv := SetAddress + [iface, "static", ip, mask] + (if RouteOf(gw).Some? then [gw.value, "1"] else ["none"]);
    assert argv[..5] == SetAddress;
    argv
  }

  /** The command line of `_windows_set_dhcp`: seven words, no address arguments. */
  function DhcpArgv(iface: string): (argv: seq<string>)
    ensures |argv| == 7
    ensures ReadNetsh(argv) == Some(SetDhcp(iface))
  {
    var argv := SetAddress + [iface, "dhcp"];
    assert argv[..5] == SetAddress;
    argv
  }

  /**
   * `_windows_set_ipv4`: builds the command line by appending to it, then runs it.
   * Returns the command line run and how it ended. Since `cmd == StaticArgv(..)` and
   * the outcome is `Run` of it, `ConfigureInterface` uses `StaticArgv` and `Run`
   * (through `AfterCommand`) in place of calling this method.
   */
  method WindowsSetIpv4(iface: string, ip: string, mask: string, gw: Option<string>, os: seq<string> -> Completed)
    returns (cmd: seq<string>, outcome: Outcome<string>)
    ensures ReadNetsh(cmd) == Some(SetStatic(iface, ip, mask, RouteOf(gw)))
    ensures cmd == StaticArgv(iface, ip, mask, gw)
    ensures outcome.Pass? <==> os(cmd).returncode == 0
    ensures outcome == Run(os(cmd))
  {
    cmd := ["netsh", "interface", "ip", "set", "address", iface, "static", ip, mask];
    if gw.Some? && gw.value != "" {
      cmd := cmd + [gw.value];
      cmd := cmd + ["1"];
    } else {
      cmd := cmd + ["none"];
    }
    assert cmd == StaticArgv(iface, ip, mask, gw);
    outcome := Run(os(cmd));
  }

  // ----- validation of a static request -----

  /**
   * Why a static request is refused. `TooManyDigits` is the `ValueError` that `int()`
   * raises on a digit mask longer than its limit; it is caught like the others.
   */
  datatype ValidationError = BadAddress | BadGateway | TooManyDigits(digits: nat) | BadCidr | BadMask

  /**
   * The `ValueError` text of each failure. For a bad address or gateway the library's
   * own explanation follows the prefix; only the prefix is modelled. The conversion
   * error is worded as CPython 3.12 words it.
   */
  function Message(e: ValidationError): string {
    match e
    case BadAddress => "Adresse IP invalide : "
    case BadGateway => "Passerelle invalide : "
    case TooManyDigits(n) =>
      "Exceeds the limit (" + NatToString(IntMaxStrDigits) + " digits) for integer string conversion: value has "
      + NatToString(n) + " digits; use sys.set_int_max_str_digits() to increase the limit"
    case BadCidr => "CIDR invalide (0-32)"
    case BadMask => "Masque invalide"
  }

  /** The gateway argument `_validate_static_payload` hands on: `gw or None`. */
  function GatewayOrNone(gw: string): Option<string> {
    if gw == "" then None else Some(gw)
  }

  /** The fields of a valid static request; an empty gateway becomes None. */
  datatype Validated = Validated(ip: string, mask: string, gateway: Option<string>)

  /**
   * `_validate_static_payload`: reads "ipv4", "mask" and "gateway" (a missing key is
   * ""), strips them, and checks the address, then a non-empty gateway, then the
   * mask. A digit mask is kept as it is, without conversion to a netmask.
   * It accepts exactly the requests whose fields pass the panel's own predicates,
   * and the error is the first failing check in that order.
   */
  function ValidateStaticPayload(body: Body): (r: Result<Validated, ValidationError>)
    ensures
      var ip, mask, gw := Strip(body.ipv4.GetOr("")), Strip(body.mask.GetOr("")), Strip(body.gateway.GetOr(""));
      && (r.Success? <==> IsIPv4(ip) && (gw == "" || IsIPv4(gw)) && IsValidMask(mask))
      && (r.Success? ==> r.value == Validated(ip, mask, GatewayOrNone(gw)))
      && (r == Failure(BadAddress) <==> !IsIPv4(ip))
      && (r == Failure(BadGateway) <==> IsIPv4(ip) && gw != "" && !IsIPv4(gw))
      && (r == Failure(TooManyDigits(|mask|)) <==> IsIPv4(ip) && (gw == "" || IsIPv4(gw)) && MaskRaises(mask))
      && (r == Failure(BadCidr) <==> IsIPv4(ip) && (gw == "" || IsIPv4(gw)) && IsDigits(mask) && !ExceedsIntLimit(mask) && DecimalValue(mask) > 32)
      && (r == Failure(BadMask) <==> IsIPv4(ip) && (gw == "" || IsIPv4(gw)) && !IsDigits(mask) && !IsIPv4(mask))
  {
    var ip := Strip(body.ipv4.GetOr(""));
    var mask := Strip(body.mask.GetOr(""));
    var gw := Strip(body.gateway.GetOr(""));
    if !IsIPv4(ip) then Failure(BadAddress)
    else if gw != "" && !IsIPv4(gw) then Failure(BadGateway)
    else if IsDigits(mask) then
      if ExceedsIntLimit(mask) then Failure(TooManyDigits(|mask|))
      else if !(0 <= DecimalValue(mask) <= 32) then Failure(BadCidr)
      else Success(Validated(ip, mask, GatewayOrNone(gw)))
    else if !IsIPv4(mask) then Failure(BadMask)
    else Success(Validated(ip, mask, GatewayOrNone(gw)))
  }

  // ----- the request handler -----

  /** A command line the handler may hand to the system: it sets `iface`, and a static one carries a valid address, mask and gateway. */
  predicate WellFormedCommand(iface: string, argv: seq<string>) {
    match ReadNetsh(argv)
    case Some(SetDhcp(name)) => name == iface
    case Some(SetStatic(name, address, mask, route)) =>
      name == iface && IsIPv4(address) && IsValidMask(mask)
      && (route.Some? ==> IsIPv4(route.value.gateway) && route.value.metric == "1")
    case None => false
  }

  /** The reply to a command that was run: 200 and an acknowledgement, or 500 and its error text. */
  function AfterCommand(iface: string, mode: Mode, argv: seq<string>, os: seq<string> -> Completed): (h: Handled)
    ensures h.issued == Some(argv)
    ensures h.response.status == 200 <==> os(argv).returncode == 0
    ensures h.response.status == 200 ==> h.response.reply == Ack(iface, mode)
    ensures h.response.status != 200 ==> h.response == Response(500, ErrorReply(Run(os(argv)).error))
  {
    match Run(os(argv))
    case Fail(text) => Handled(Response(500, ErrorReply(text)), Some(argv))
    case Pass => Handled(Response(200, Ack(iface, mode)), Some(argv))
  }

  /**
   * `configure_interface(iface)`: 400 for an undecodable body; the DHCP command when
   * "dhcp" is exactly `true`; otherwise validation (400 on failure) and the static
   * command. A command that fails gives 500 with its error text, one that succeeds
   * gives 200. A command runs exactly when the status is not 400, and every command
   * that runs is well formed for the interface named in the path.
   */
  function ConfigureInterface(iface: string, req: Request, os: seq<string> -> Completed): (h: Handled)
    ensures h.response.status in {200, 400, 500}
    ensures h.response.status == 200 <==> h.response.reply.Ack?
    ensures h.response.reply.Ack? ==> h.response.reply.iface == iface
    ensures h.response.status == 400 <==> h.issued.None?
    ensures h.issued.Some? ==> WellFormedCommand(iface, h.issued.value)
    ensures h.issued.Some? ==> (h.response.status == 200 <==> os(h.issued.value).returncode == 0)
    ensures h.response.status == 500 ==> h.response.reply == ErrorReply(Run(os(h.issued.value)).error)
  {
    match req
    case Undecodable => Handled(Response(400, ErrorReply(PayloadError)), None)
    case Decoded(body) =>
      if body.dhcp == JsonTrue then AfterCommand(iface, DhcpMode, DhcpArgv(iface), os)
      else
        match ValidateStaticPayload(body)
        case Failure(e) => Handled(Response(400, ErrorReply(Message(e))), None)
        case Success(v) =>
          var argv := StaticArgv(iface, v.ip, v.mask, v.gateway);
          assert v.gateway.Some? ==> v.gateway.value != "" && IsIPv4(v.gateway.value);
          AfterCommand(iface, StaticMode, argv, os)
  }

  // ----- properties of the handler -----

  /** An undecodable body is refused before anything else, and nothing runs. */
  lemma UndecodableRefused(iface: string, os: seq<string> -> Completed)
    ensures ConfigureInterface(iface, Undecodable, os) == Handled(Response(400, ErrorReply(PayloadError)), None)
  {
  }

  /**
   * With "dhcp" exactly `true` the DHCP command for the path's interface runs, and the
   * static fields are never looked at: any two such bodies are handled alike.
   */
  lemma DhcpIgnoresStaticFields(iface: string, b1: Body, b2: Body, os: seq<string> -> Completed)
    requires b1.dhcp == JsonTrue && b2.dhcp == JsonTrue
    ensures ConfigureInterface(iface, Decoded(b1), os) == ConfigureInterface(iface, Decoded(b2), os)
    ensures ConfigureInterface(iface, Decoded(b1), os).issued == Some(DhcpArgv(iface))
    ensures ConfigureInterface(iface, Decoded(b1), os).response
      == if os(DhcpArgv(iface)).returncode == 0 then Response(200, Ack(iface, DhcpMode))
         else Response(500, ErrorReply(Run(os(DhcpArgv(iface))).error))
  {
  }

  /** Any "dhcp" value other than `true` (absent, "true", 1, false) takes the static path. */
  lemma OtherDhcpValuesAreStatic(iface: string, b: Body, os: seq<string> -> Completed)
    requires b.dhcp != JsonTrue
    ensures ConfigureInterface(iface, Decoded(b), os) == ConfigureInterface(iface, Decoded(b.(dhcp := Missing)), os)
    ensures var h := ConfigureInterface(iface, Decoded(b), os);
      h.issued.Some? ==> ReadNetsh(h.issued.value).Some? && ReadNetsh(h.issued.value).value.SetStatic?
  {
  }

  /** A static request that fails validation gets 400 and the check's message; nothing runs. */
  lemma InvalidStaticRefused(iface: string, b: Body, os: seq<string> -> Completed)
    requires b.dhcp != JsonTrue && ValidateStaticPayload(b).Failure?
    ensures ConfigureInterface(iface, Decoded(b), os)
      == Handled(Response(400, ErrorReply(Message(ValidateStaticPayload(b).error))), None)
  {
  }

  /**
   * A valid static request runs the static command for the validated fields: 200 and
   * mode static when it exits with 0, 500 with its error text otherwise.
   */
  lemma ValidStaticApplied(iface: string, b: Body, os: seq<string> -> Completed)
    requires b.dhcp != JsonTrue && ValidateStaticPayload(b).Success?
    ensures var v := ValidateStaticPayload(b).value;
      var argv := StaticArgv(iface, v.ip, v.mask, v.gateway);
      ConfigureInterface(iface, Decoded(b), os)
        == if os(argv).returncode == 0 then Handled(Response(200, Ack(iface, StaticMode)), Some(argv))
           else Handled(Response(500, ErrorReply(Run(os(argv)).error)), Some(argv))
  {
  }

  /** A missing "ipv4" is read as "" and refused as a bad address. */
  lemma MissingAddressRefused(b: Body)
    requires b.ipv4.None?
    ensures ValidateStaticPayload(b) == Failure(BadAddress)
  {
    assert !IsIPv4("");
  }

  /** Once address and gateway pass, a missing or blank mask is refused as "Masque invalide". */
  lemma BlankMaskRefused(b: Body)
    requires IsIPv4(Strip(b.ipv4.GetOr("")))
    requires var gw := Strip(b.gateway.GetOr("")); gw == "" || IsIPv4(gw)
    requires Strip(b.mask.GetOr("")) == ""
    ensures ValidateStaticPayload(b) == Failure(BadMask)
  {
    assert !IsIPv4("");
  }

  /** The gateway is checked before the mask: with both wrong, the gateway is reported. */
  lemma GatewayReportedBeforeMask(b: Body)
    requires IsIPv4(Strip(b.ipv4.GetOr("")))
    requires var gw := Strip(b.gateway.GetOr("")); gw != "" && !IsIPv4(gw)
    ensures ValidateStaticPayload(b) == Failure(BadGateway)
  {
  }
}
