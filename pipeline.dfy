/**
 * The panel and the service together: the JSON body each payload of the panel
 * becomes, what the service does with it, and where the two sides' checks agree
 * and differ.
 */
module Pipeline {
  import opened Wrappers
  import opened Text
  import opened IPv4
  import opened Service
  import opened Panel

  /**
   * The JSON object `_send` posts, as the service reads it. A static payload has all
   * three fields (the gateway possibly "") and no "dhcp" key; the DHCP payload has
   * `"dhcp": true` and no address fields. The "interface" key is not read by the
   * service, which takes the interface from the URL path.
   */
  function Encode(p: Payload): (b: Body)
    ensures b.dhcp == JsonTrue <==> p.DhcpPayload?
    ensures p.StaticPayload? ==> b.ipv4 == Some(p.ipv4) && b.mask == Some(p.mask) && b.gateway == Some(p.gateway)
  {
    match p
    case StaticPayload(_, ip, mask, gw) => Body(Some(ip), Some(mask), Some(gw), Missing)
    case DhcpPayload(_) => Body(None, None, None, JsonTrue)
  }

  /**
   * `_send(payload)` arriving at `POST /interfaces/<payload["interface"]>`: Flask's
   * 404 when the name does not fill the route's one path segment (as with no
   * interface selected), otherwise the handler with the name from the path.
   */
  function Deliver(p: Payload, os: seq<string> -> Completed): (h: Handled)
    ensures !MatchesRoute(p.iface) ==> h == Handled(Response(404, NotFound), None)
    ensures h.issued.Some? ==> MatchesRoute(p.iface) && WellFormedCommand(p.iface, h.issued.value)
  {
    if MatchesRoute(p.iface) then ConfigureInterface(p.iface, Decoded(Encode(p)), os)
    else Handled(Response(404, NotFound), None)
  }

  /** Texts without surrounding whitespace that pass the checks are accepted as they are. */
  lemma AcceptsCleanFields(ip: string, mask: string, gw: string)
    requires Strip(ip) == ip && Strip(mask) == mask && Strip(gw) == gw
    requires IsIPv4(ip) && IsValidMask(mask) && (gw == "" || IsIPv4(gw))
    ensures ValidateStaticPayload(Body(Some(ip), Some(mask), Some(gw), Missing)) == Success(Validated(ip, mask, GatewayOrNone(gw)))
  {
  }

  /** The panel sends texts without surrounding whitespace that pass its checks, with a prefix converted. */
  lemma SendsCleanFields(iface: string, ip: string, mask: string, gw: string)
    requires Strip(ip) == ip && Strip(mask) == mask && Strip(gw) == gw
    requires IsIPv4(ip) && IsValidMask(mask) && (gw == "" || IsIPv4(gw))
    ensures SubmitStatic(iface, ip, mask, gw) == Send(StaticPayload(iface, ip, if IsDigits(mask) then CidrToNetmask(mask) else mask, gw))
  {
  }

  /**
   * The service accepts every static payload the panel sends, unchanged: stripping
   * again changes nothing, the converted mask is a dotted quad, and an empty gateway
   * becomes None.
   */
  lemma {:induction false} SentStaticPayloadAccepted(iface: string, ipText: string, maskText: string, gwText: string)
    requires SubmitStatic(iface, ipText, maskText, gwText).Send?
    ensures var p := SubmitStatic(iface, ipText, maskText, gwText).payload;
      ValidateStaticPayload(Encode(p)) == Success(Validated(p.ipv4, p.mask, GatewayOrNone(p.gateway)))
  {
    var p := SubmitStatic(iface, ipText, maskText, gwText).payload;
    SentStaticPayloadWellFormed(iface, ipText, maskText, gwText);
    assert IsValidMask(p.mask);
    AcceptsCleanFields(p.ipv4, p.mask, p.gateway);
  }

  /**
   * Delivering a static payload the panel sent never gets 400. When the selected
   * name fills the route, the service runs `netsh ... static` for it with the sent
   * address, the dotted mask and the gateway, and answers 200 exactly when that
   * command exits with 0; otherwise (no interface selected) it gets 404 and nothing runs.
   */
  lemma {:induction false} SentStaticPayloadApplied(iface: string, ipText: string, maskText: string, gwText: string, os: seq<string> -> Completed)
    requires SubmitStatic(iface, ipText, maskText, gwText).Send?
    ensures var p := SubmitStatic(iface, ipText, maskText, gwText).payload;
      var argv := StaticArgv(p.iface, p.ipv4, p.mask, GatewayOrNone(p.gateway));
      var h := Deliver(p, os);
      && p.iface == iface
      && (!MatchesRoute(iface) ==> h == Handled(Response(404, NotFound), None))
      && (MatchesRoute(iface) ==> h.issued == Some(argv) && h.response.status != 400
                                  && (h.response.status == 200 <==> os(argv).returncode == 0))
      && ReadNetsh(argv) == Some(SetStatic(iface, p.ipv4, p.mask, RouteOf(GatewayOrNone(p.gateway))))
  {
    var p := SubmitStatic(iface, ipText, maskText, gwText).payload;
    SentStaticPayloadAccepted(iface, ipText, maskText, gwText);
    SentStaticPayloadWellFormed(iface, ipText, maskText, gwText);
    AcceptedPayloadApplied(p, os);
  }

  lemma AcceptedPayloadApplied(p: Payload, os: seq<string> -> Completed)
    requires p.StaticPayload?
    requires ValidateStaticPayload(Encode(p)) == Success(Validated(p.ipv4, p.mask, GatewayOrNone(p.gateway)))
    ensures var argv := StaticArgv(p.iface, p.ipv4, p.mask, GatewayOrNone(p.gateway));
      var h := Deliver(p, os);
      MatchesRoute(p.iface) ==>
        && h.issued == Some(argv)
        && h.response.status != 400
        && (h.response.status == 200 <==> os(argv).returncode == 0)
  {
    ValidStaticApplied(p.iface, Encode(p), os);
  }

  /**
   * The panel and the service accept the same texts: "Appliquer" sends exactly when
   * the service, given the raw entry texts, would accept them.
   */
  lemma SameAcceptance(iface: string, ipText: string, maskText: string, gwText: string)
    ensures SubmitStatic(iface, ipText, maskText, gwText).Send?
      <==> ValidateStaticPayload(Body(Some(ipText), Some(maskText), Some(gwText), Missing)).Success?
  {
  }

  /**
   * "Activer DHCP" with DHCP off runs exactly the DHCP command for the selected
   * interface, whatever the static fields hold, when the name fills the route (404
   * otherwise); with DHCP on nothing reaches the service.
   */
  lemma DhcpRequestApplied(iface: string, dhcpActive: bool, os: seq<string> -> Completed)
    ensures SubmitDhcp(iface, dhcpActive).Send? <==> !dhcpActive
    ensures SubmitDhcp(iface, dhcpActive).Send? && !MatchesRoute(iface) ==>
      Deliver(SubmitDhcp(iface, dhcpActive).payload, os) == Handled(Response(404, NotFound), None)
    ensures SubmitDhcp(iface, dhcpActive).Send? && MatchesRoute(iface) ==>
      var h := Deliver(SubmitDhcp(iface, dhcpActive).payload, os);
      && h.issued == Some(DhcpArgv(iface))
      && ReadNetsh(DhcpArgv(iface)) == Some(SetDhcp(iface))
      && (h.response.status == 200 <==> os(DhcpArgv(iface)).returncode == 0)
      && (h.response.status == 200 ==> h.response.reply == Ack(iface, DhcpMode))
  {
  }

  /**
   * A digit mask too long for `int()` after a valid address: the panel's callback
   * raises and nothing is sent, whatever the gateway holds. The service, given the
   * same texts, refuses them with 400 and runs nothing: with the conversion error
   * when the gateway is empty or valid, and with the gateway error otherwise.
   */
  lemma LongDigitMask(iface: string, ipText: string, maskText: string, gwText: string, os: seq<string> -> Completed)
    requires IsIPv4(Strip(ipText)) && MaskRaises(Strip(maskText))
    ensures SubmitStatic(iface, ipText, maskText, gwText) == Uncaught
    ensures var gw := Strip(gwText);
      var h := ConfigureInterface(iface, Decoded(Body(Some(ipText), Some(maskText), Some(gwText), Missing)), os);
      && ((gw == "" || IsIPv4(gw)) ==> h == Handled(Response(400, ErrorReply(Message(TooManyDigits(|Strip(maskText)|)))), None))
      && (gw != "" && !IsIPv4(gw) ==> h == Handled(Response(400, ErrorReply(Message(BadGateway))), None))
  {
    var body := Body(Some(ipText), Some(maskText), Some(gwText), Missing);
    var gw := Strip(gwText);
    assert body.dhcp != JsonTrue;
    if gw == "" || IsIPv4(gw) {
      assert ValidateStaticPayload(body) == Failure(TooManyDigits(|Strip(maskText)|));
    } else {
      assert ValidateStaticPayload(body) == Failure(BadGateway);
    }
  }

  /** A command that exits non-zero gives 500 with its stripped standard error, when there is one. */
  lemma FailedCommandReported(p: Payload, os: seq<string> -> Completed)
    requires Deliver(p, os).issued.Some?
    requires var argv := Deliver(p, os).issued.value; os(argv).returncode != 0 && Strip(os(argv).stderr) != ""
    ensures var argv := Deliver(p, os).issued.value;
      Deliver(p, os).response == Response(500, ErrorReply(Strip(os(argv).stderr)))
  {
  }

  // ----- concrete cases -----

  lemma FormatOfHost()
    ensures FormatIPv4(0x0A00_0005) == "10.0.0.5"
  {
    assert Bytes(0x0A00_0005) == [10, 0, 0, 5];
    assert NatToString(10) == "10";
    JoinFour("10", "0", "0", "5", '.');
  }

  lemma HostIsIPv4()
    ensures IsIPv4("10.0.0.5")
  {
    FormatOfHost();
    FormatThenParse(0x0A00_0005);
  }

  lemma WordIsNotIPv4()
    ensures !IsIPv4("abc")
  {
    SplitWord("abc", '.');
  }

  lemma OctetOutOfRange()
    ensures ParseOctet("999") == None
  {
    DecimalValueAppend("9", '9');
    DecimalValueAppend("99", '9');
    assert "9" + ['9'] == "99" && "99" + ['9'] == "999";
  }

  lemma OutOfRangeIsNotIPv4()
    ensures !IsIPv4("999.0.0.1")
  {
    var s := "999.0.0.1";
    JoinFour("999", "0", "0", "1", '.');
    assert "999" + ['.'] + "0" + ['.'] + "0" + ['.'] + "1" == s;
    SplitJoin(["999", "0", "0", "1"], '.');
    assert Split(s, '.')[0] == "999";
    OctetOutOfRange();
  }

  lemma PrefixOf24()
    ensures IsDigits("24") && DecimalValue("24") == 24
  {
    DecimalValueAppend("2", '4');
    assert "2" + ['4'] == "24";
  }

  /** A host address with a /24 prefix and no gateway is accepted as it is; the mask stays "24". */
  lemma ValidStaticExample()
    ensures ValidateStaticPayload(Body(Some("10.0.0.5"), Some("24"), Some(""), Missing))
      == Success(Validated("10.0.0.5", "24", None))
  {
    HostIsIPv4();
    PrefixOf24();
    CleanHost();
    AcceptsCleanFields("10.0.0.5", "24", "");
  }

  lemma CleanHost()
    ensures Strip("10.0.0.5") == "10.0.0.5" && Strip("24") == "24" && Strip("") == ""
  {
    HostIsIPv4();
    IPv4NoEdgeSpace("10.0.0.5");
    StripKeeps("10.0.0.5");
    StripKeeps("24");
    StripKeeps("");
  }

  /** An octet above 255 is refused as a bad address. */
  lemma BadAddressExample()
    ensures ValidateStaticPayload(Body(Some("999.0.0.1"), Some("24"), Some(""), Missing)) == Failure(BadAddress)
  {
    OutOfRangeIsNotIPv4();
    StripKeeps("999.0.0.1");
  }

  /** A gateway that is not an address is refused as a bad gateway. */
  lemma BadGatewayExample()
    ensures ValidateStaticPayload(Body(Some("10.0.0.5"), Some("24"), Some("abc"), Missing)) == Failure(BadGateway)
  {
    HostIsIPv4();
    IPv4NoEdgeSpace("10.0.0.5");
    StripKeeps("10.0.0.5");
    StripKeeps("abc");
    WordIsNotIPv4();
  }

  /** The DHCP command line for "eth0". */
  lemma DhcpExample()
    ensures DhcpArgv("eth0") == ["netsh", "interface", "ip", "set", "address", "eth0", "dhcp"]
  {
  }

  /**
   * The two sides check in different orders: with both the mask and the gateway
   * wrong, the panel reports the mask and the service reports the gateway.
   */
  lemma CheckOrderDiffers()
    ensures SubmitStatic("eth0", "10.0.0.5", "33", "abc") == ShowError(BadMaskText)
    ensures ValidateStaticPayload(Body(Some("10.0.0.5"), Some("33"), Some("abc"), Missing)) == Failure(BadGateway)
  {
    HostIsIPv4();
    IPv4NoEdgeSpace("10.0.0.5");
    StripKeeps("10.0.0.5");
    StripKeeps("33");
    StripKeeps("abc");
    WordIsNotIPv4();
    MaskExamples();
  }

  /**
   * A prefix-length mask reaches netsh in different forms: the panel converts "24"
   * to "255.255.255.0" before sending, while the service passes a "24" it receives
   * directly to netsh unchanged.
   */
  lemma PrefixMaskForms(os: seq<string> -> Completed)
    ensures SubmitStatic("eth0", "10.0.0.5", "24", "") == Send(StaticPayload("eth0", "10.0.0.5", "255.255.255.0", ""))
    ensures ConfigureInterface("eth0", Decoded(Body(Some("10.0.0.5"), Some("24"), Some(""), Missing)), os).issued
      == Some(StaticArgv("eth0", "10.0.0.5", "24", None))
  {
    PanelConvertsPrefix();
    ServiceKeepsPrefix(os);
  }

  lemma ServiceKeepsPrefix(os: seq<string> -> Completed)
    ensures ConfigureInterface("eth0", Decoded(Body(Some("10.0.0.5"), Some("24"), Some(""), Missing)), os).issued
      == Some(StaticArgv("eth0", "10.0.0.5", "24", None))
  {
    ValidStaticExample();
    ValidStaticApplied("eth0", Body(Some("10.0.0.5"), Some("24"), Some(""), Missing), os);
  }


  lemma PanelConvertsPrefix()
    ensures SubmitStatic("eth0", "10.0.0.5", "24", "") == Send(StaticPayload("eth0", "10.0.0.5", "255.255.255.0", ""))
  {
    HostIsIPv4();
    PrefixOf24();
    CleanHost();
    SendsCleanFields("eth0", "10.0.0.5", "24", "");
    CidrOf24();
  }

  lemma CidrOf24()
    ensures IsDigits("24") && !ExceedsIntLimit("24") && DecimalValue("24") <= 32 && CidrToNetmask("24") == "255.255.255.0"
  {
    PrefixOf24();
    NetmaskOf24();
  }

}
