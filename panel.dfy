/**
 * The interface panel: how it reads an interface's current IPv4 settings, the
 * entry fields it fills from them, and what pressing "Appliquer" or "Activer DHCP"
 * does with the fields: show an error, show a notice, or send a payload.
 */
module Panel {
  import opened Wrappers
  import opened Text
  import opened IPv4

  // ----- current settings of an interface -----

  /** The address family of one entry of `psutil.net_if_addrs()`. */
  datatype Family = AfInet | OtherFamily

  /** One address entry of an interface; None stands for Python's None. */
  datatype AddrRecord = AddrRecord(family: Family, address: Option<string>, netmask: Option<string>, broadcast: Option<string>)

  /** The dictionary `get_ipv4_info` returns. */
  datatype Ipv4Info = Ipv4Info(ip: string, mask: string, gateway: string, dhcp: bool)

  const NoIpv4Info := Ipv4Info("", "", "", false)

  /** What an IPv4 entry shows: its address and netmask, no gateway, DHCP when it has no broadcast address. */
  function InfoOf(a: AddrRecord): Ipv4Info {
    Ipv4Info(a.address.GetOr(""), a.netmask.GetOr(""), "", a.broadcast.None?)
  }

  /** The entries of an interface, or none when the interface is unknown: `.get(iface, [])`. */
  function AddressesOf(table: map<string, seq<AddrRecord>>, iface: string): seq<AddrRecord> {
    if iface in table then table[iface] else []
  }

  /** The information of the first IPv4 entry, or the empty information when there is none. */
  function FirstIpv4Info(addrs: seq<AddrRecord>): Ipv4Info {
    if addrs == [] then NoIpv4Info
    else if addrs[0].family == AfInet then InfoOf(addrs[0])
    else FirstIpv4Info(addrs[1..])
  }

  /** Entry `i` is an IPv4 entry and none before it is. */
  predicate IsFirstIpv4(addrs: seq<AddrRecord>, i: int) {
    0 <= i < |addrs| && addrs[i].family == AfInet && forall j :: 0 <= j < i ==> addrs[j].family != AfInet
  }

  /**
   * The first-match search in closed form: with no IPv4 entry the result is empty
   * (and DHCP false); otherwise it is the information of the earliest IPv4 entry.
   */
  lemma {:induction false} FirstIpv4InfoIsFirstMatch(addrs: seq<AddrRecord>)
    ensures (forall i :: 0 <= i < |addrs| ==> addrs[i].family != AfInet) ==> FirstIpv4Info(addrs) == NoIpv4Info
    ensures forall i :: IsFirstIpv4(addrs, i) ==> FirstIpv4Info(addrs) == InfoOf(addrs[i])
  {
    if addrs != [] {
      FirstIpv4InfoIsFirstMatch(addrs[1..]);
      forall i | 0 < i && IsFirstIpv4(addrs, i)
        ensures FirstIpv4Info(addrs) == InfoOf(addrs[i])
      {
        assert addrs[0].family != AfInet;
        assert IsFirstIpv4(addrs[1..], i - 1);
      }
      if forall i :: 0 <= i < |addrs| ==> addrs[i].family != AfInet {
        assert forall i :: 0 <= i < |addrs| - 1 ==> addrs[1..][i] == addrs[i + 1];
      }
    }
  }

  /**
   * `get_ipv4_info(iface)`: scans the interface's entries (given here as the table
   * `psutil.net_if_addrs()` would return) and returns at the first IPv4 one.
   */
  method GetIpv4Info(iface: string, table: map<string, seq<AddrRecord>>) returns (info: Ipv4Info)
    ensures info == FirstIpv4Info(AddressesOf(table, iface))
  {
    var addrs := AddressesOf(table, iface);
    var i := 0;
    while i < |addrs|
      invariant 0 <= i <= |addrs|
      invariant FirstIpv4Info(addrs[i..]) == FirstIpv4Info(addrs)
    {
      if addrs[i].family == AfInet {
        return InfoOf(addrs[i]);
      }
      assert addrs[i..][1..] == addrs[i + 1..];
      i := i + 1;
    }
    return NoIpv4Info;
  }

  // ----- what the buttons do -----

  /** The JSON payloads the panel posts to the service. */
  datatype Payload =
    | StaticPayload(iface: string, ipv4: string, mask: string, gateway: string)
    | DhcpPayload(iface: string)

  /**
   * The outcome of a button: an error box, an information box, a payload sent, or
   * an exception escaping the callback (Tk reports it on standard error; no box
   * appears and nothing is sent).
   */
  datatype Action = ShowError(message: string) | ShowInfo(message: string) | Send(payload: Payload) | Uncaught

  const BadAddressText := "Adresse IPv4 invalide"
  const BadMaskText := "Masque invalide (CIDR ou netmask)"
  const BadGatewayText := "Passerelle invalide"
  const DhcpActiveText := "Le DHCP est déjà actif sur cette interface."

  /**
   * What "Appliquer" does with the interface and the three entry texts: strip them,
   * check the address, then the mask, then a non-empty gateway, stopping at the
   * first failure; a prefix-length mask is converted to a netmask before sending.
   * A digit mask too long for `int()` makes the mask check raise.
   */
  function SubmitStatic(iface: string, ipText: string, maskText: string, gwText: string): Action {
    var ip, mask, gw := Strip(ipText), Strip(maskText), Strip(gwText);
    if !IsIPv4(ip) then ShowError(BadAddressText)
    else if MaskRaises(mask) then Uncaught
    else if !IsValidMask(mask) then ShowError(BadMaskText)
    else if gw != "" && !IsIPv4(gw) then ShowError(BadGatewayText)
    else Send(StaticPayload(iface, ip, if IsDigits(mask) then CidrToNetmask(mask) else mask, gw))
  }

  /** What "Activer DHCP" does: a notice when DHCP is already on, otherwise the DHCP payload. */
  function SubmitDhcp(iface: string, dhcpActive: bool): Action {
    if dhcpActive then ShowInfo(DhcpActiveText) else Send(DhcpPayload(iface))
  }

  /**
   * The checks run in a fixed order and the first failure is the one shown:
   * address, then mask, then gateway; an empty gateway is never an error, and
   * nothing is sent unless all three checks pass. A valid address with a digit
   * mask too long for `int()` ends in the uncaught exception.
   */
  lemma SubmitStaticOrder(iface: string, ipText: string, maskText: string, gwText: string)
    ensures var ip, mask, gw := Strip(ipText), Strip(maskText), Strip(gwText);
      var a := SubmitStatic(iface, ipText, maskText, gwText);
      && (a == ShowError(BadAddressText) <==> !IsIPv4(ip))
      && (a == Uncaught <==> IsIPv4(ip) && MaskRaises(mask))
      && (a == ShowError(BadMaskText) <==> IsIPv4(ip) && !MaskRaises(mask) && !IsValidMask(mask))
      && (a == ShowError(BadGatewayText) <==> IsIPv4(ip) && IsValidMask(mask) && gw != "" && !IsIPv4(gw))
      && (a.Send? <==> IsIPv4(ip) && IsValidMask(mask) && (gw == "" || IsIPv4(gw)))
      && !a.ShowInfo?
  {
  }

  /**
   * Every payload "Appliquer" sends is well formed: the selected interface, a valid
   * address, a dotted-quad mask (a prefix length was converted, to the netmask with
   * the same value), and a gateway that is empty or valid. None of the texts has
   * whitespace around it.
   */
  lemma {:induction false} SentStaticPayloadWellFormed(iface: string, ipText: string, maskText: string, gwText: string)
    requires SubmitStatic(iface, ipText, maskText, gwText).Send?
    ensures var p := SubmitStatic(iface, ipText, maskText, gwText).payload;
      var mask := Strip(maskText);
      && p.StaticPayload? && p.iface == iface
      && IsIPv4(p.ipv4) && IsIPv4(p.mask) && !IsDigits(p.mask)
      && (p.gateway == "" || IsIPv4(p.gateway))
      && (IsDigits(mask) ==> ParseIPv4(p.mask) == Some(NetmaskValue(DecimalValue(mask))))
      && (!IsDigits(mask) ==> p.mask == mask)
      && Strip(p.ipv4) == p.ipv4 && Strip(p.mask) == p.mask && Strip(p.gateway) == p.gateway
  {
    var p := SubmitStatic(iface, ipText, maskText, gwText).payload;
    IPv4NoEdgeSpace(p.ipv4);
    IPv4NoEdgeSpace(p.mask);
    StripKeeps(p.ipv4);
    StripKeeps(p.mask);
    StripIdempotent(gwText);
    if !IsDigits(Strip(maskText)) {
      IPv4NotDigits(p.mask);
    }
  }

  /** "Activer DHCP" sends nothing while DHCP is active, and otherwise exactly the interface and `dhcp: true`. */
  lemma SubmitDhcpSendsOnlyWhenInactive(iface: string, dhcpActive: bool)
    ensures SubmitDhcp(iface, dhcpActive).Send? <==> !dhcpActive
    ensures SubmitDhcp(iface, dhcpActive).Send? ==> SubmitDhcp(iface, dhcpActive).payload == DhcpPayload(iface)
  {
  }

  // ----- the window -----

  /**
   * The panel's window: the interfaces offered in the drop-down, the selected one,
   * the three entry fields and the `dhcp_active` flag. Before any interface has
   * been shown, `dhcp_active` does not exist, which `set_dhcp` treats as false;
   * here it starts as false.
   */
  class InterfaceApp {
    var choices: seq<string>
    var ifaceVar: string
    var ipEntry: string
    var maskEntry: string
    var gwEntry: string
    var dhcpActive: bool

    /** The entry fields and the flag show the given settings. */
    predicate Shows(info: Ipv4Info)
      reads this
    {
      ipEntry == info.ip && maskEntry == info.mask && gwEntry == info.gateway && dhcpActive == info.dhcp
    }

    /** `__init__`: empty fields, then `refresh_interfaces` with the interfaces that are up. */
    constructor (active: seq<string>, table: map<string, seq<AddrRecord>>)
      ensures choices == active
      ensures active == [] ==> ifaceVar == "" && Shows(Ipv4Info("", "", "", false))
      ensures active != [] ==> ifaceVar == active[0]
      ensures active != [] && active[0] != "" ==> Shows(FirstIpv4Info(AddressesOf(table, active[0])))
      ensures active != [] && active[0] == "" ==> Shows(Ipv4Info("", "", "", false))
    {
      choices := [];
      ifaceVar := "";
      ipEntry, maskEntry, gwEntry := "", "", "";
      dhcpActive := false;
      new;
      RefreshInterfaces(active, table);
    }

    /**
     * `update_fields`: nothing happens without a selected interface; otherwise the
     * entries are cleared and refilled, and the flag set, from the interface's
     * first IPv4 entry.
     */
    method UpdateFields(table: map<string, seq<AddrRecord>>)
      modifies this
      ensures choices == old(choices) && ifaceVar == old(ifaceVar)
      ensures ifaceVar == "" ==> unchanged(this)
      ensures ifaceVar != "" ==> Shows(FirstIpv4Info(AddressesOf(table, ifaceVar)))
    {
      var iface := ifaceVar;
      if iface == "" {
        return;
      }
      var cur := GetIpv4Info(iface, table);
      ipEntry := cur.ip;
      maskEntry := cur.mask;
      gwEntry := cur.gateway;
      dhcpActive := cur.dhcp;
    }

    /** Choosing an interface in the drop-down writes the variable, whose trace runs `update_fields`. */
    method SelectInterface(iface: string, table: map<string, seq<AddrRecord>>)
      modifies this
      ensures choices == old(choices) && ifaceVar == iface
      ensures iface == "" ==> ipEntry == old(ipEntry) && maskEntry == old(maskEntry) && gwEntry == old(gwEntry) && dhcpActive == old(dhcpActive)
      ensures iface != "" ==> Shows(FirstIpv4Info(AddressesOf(table, iface)))
    {
      ifaceVar := iface;
      UpdateFields(table);
    }

    /** `refresh_interfaces`: offer the interfaces that are up and select the first one, if any. */
    method RefreshInterfaces(active: seq<string>, table: map<string, seq<AddrRecord>>)
      modifies this
      ensures choices == active
      ensures active == [] ==> ifaceVar == old(ifaceVar) && ipEntry == old(ipEntry) && maskEntry == old(maskEntry) && gwEntry == old(gwEntry) && dhcpActive == old(dhcpActive)
      ensures active != [] ==> ifaceVar == active[0]
      ensures active != [] && active[0] != "" ==> Shows(FirstIpv4Info(AddressesOf(table, active[0])))
      ensures active != [] && active[0] == "" ==> ipEntry == old(ipEntry) && maskEntry == old(maskEntry) && gwEntry == old(gwEntry) && dhcpActive == old(dhcpActive)
    {
      choices := active;
      if active != [] {
        SelectInterface(active[0], table);
      }
    }

    /** `apply_config`: reads the selection and the entries, then checks and sends as `SubmitStatic` says. */
    method ApplyConfig() returns (action: Action)
      ensures action == SubmitStatic(ifaceVar, ipEntry, maskEntry, gwEntry)
      ensures action.Send? ==> action.payload.StaticPayload? && action.payload.iface == ifaceVar
      ensures action == Uncaught <==> IsIPv4(Strip(ipEntry)) && MaskRaises(Strip(maskEntry))
    {
      var iface := ifaceVar;
      var ip := Strip(ipEntry);
      var mask := Strip(maskEntry);
      var gw := Strip(gwEntry);
      if !IsIPv4(ip) {
        return ShowError(BadAddressText);
      }
      if IsDigits(mask) && ExceedsIntLimit(mask) {
        return Uncaught;
      }
      if !IsValidMask(mask) {
        return ShowError(BadMaskText);
      }
      if gw != "" && !IsIPv4(gw) {
        return ShowError(BadGatewayText);
      }
      if IsDigits(mask) {
        mask := CidrToNetmask(mask);
      }
      return Send(StaticPayload(iface, ip, mask, gw));
    }

    /** `set_dhcp`: a notice while DHCP is active, otherwise the DHCP payload for the selected interface. */
    method SetDhcp() returns (action: Action)
      ensures dhcpActive ==> action == ShowInfo(DhcpActiveText)
      ensures !dhcpActive ==> action == Send(DhcpPayload(ifaceVar))
      ensures action == SubmitDhcp(ifaceVar, dhcpActive)
    {
      var iface := ifaceVar;
      if dhcpActive {
        return ShowInfo(DhcpActiveText);
      }
      return Send(DhcpPayload(iface));
    }
  }
}
