/** The local-IP helpers of the `LanDiscoveryPlugin` copy kept for native
    setup: WiFi first, then the first non-loopback address whose text holds no
    colon, over every interface whatever its state. */
module NativeLanDiscovery {
  import opened Common
  import DottedQuad
  import opened NetInterfaces
  import LanDiscovery

  /** `!addr.isLoopbackAddress() && addr.getHostAddress().indexOf(':') < 0`:
      IPv6 text always holds a colon, so this keeps IPv4 addresses. */
  predicate IsCandidate(a: InetAddress)
  {
    !a.isLoopback && ':' !in a.hostAddress
  }

  function CandidateHost(a: InetAddress): (r: Option<string>)
    ensures r.Some? <==> IsCandidate(a)
    ensures r.Some? ==> r.value == a.hostAddress
  {
    if IsCandidate(a) then Some(a.hostAddress) else None
  }

  /** The first candidate address of one interface, in address order. */
  function InterfaceHost(ni: NetworkInterface): (r: Option<string>)
    ensures r.None? <==> forall j :: 0 <= j < |ni.addresses| ==> !IsCandidate(ni.addresses[j])
    ensures r.Some? ==>
      exists j :: 0 <= j < |ni.addresses| && IsCandidate(ni.addresses[j]) &&
        ni.addresses[j].hostAddress == r.value && forall k :: 0 <= k < j ==> !IsCandidate(ni.addresses[k])
  {
    FirstSome(ni.addresses, CandidateHost)
  }

  /** The WiFi step: with a WiFi manager (`Some`, holding the reported
      address) and a non-zero address, that address in dotted form; whether
      WiFi is enabled is not asked. */
  function WifiIp(wifiIpInt: Option<DottedQuad.Int32>): (r: Option<string>)
    ensures r.Some? <==> wifiIpInt.Some? && wifiIpInt.value != 0
    ensures r.Some? ==> DottedQuad.Parse(r.value) == Some(DottedQuad.Octets(wifiIpInt.value))
  {
    if wifiIpInt.Some? && wifiIpInt.value != 0 then
      DottedQuad.WifiIpRoundTrip(wifiIpInt.value);
      Some(DottedQuad.WifiIpString(wifiIpInt.value))
    else None
  }

  /** A candidate address with the text `v` sits on some interface. */
  predicate Listed(ifaces: seq<NetworkInterface>, v: string)
  {
    exists i, j :: 0 <= i < |ifaces| && 0 <= j < |ifaces[i].addresses| &&
      IsCandidate(ifaces[i].addresses[j]) && ifaces[i].addresses[j].hostAddress == v
  }

  /** The interface step: the first candidate in interface, then address,
      order. */
  function InterfaceIp(ifaces: seq<NetworkInterface>): (r: Option<string>)
    ensures r.None? <==> !exists v :: Listed(ifaces, v)
    ensures r.Some? ==> Listed(ifaces, r.value)
    ensures r.Some? ==>
      exists i :: 0 <= i < |ifaces| && InterfaceHost(ifaces[i]) == r &&
        forall k :: 0 <= k < i ==> InterfaceHost(ifaces[k]).None?
  {
    FirstCandidateListed(ifaces);
    FirstSome(ifaces, InterfaceHost)
  }

  lemma FirstCandidateListed(ifaces: seq<NetworkInterface>)
    ensures FirstSome(ifaces, InterfaceHost).None? <==> !exists v :: Listed(ifaces, v)
    ensures FirstSome(ifaces, InterfaceHost).Some? ==> Listed(ifaces, FirstSome(ifaces, InterfaceHost).value)
  {
    var r := FirstSome(ifaces, InterfaceHost);
    if r.Some? {
      var i :| 0 <= i < |ifaces| && InterfaceHost(ifaces[i]) == r && forall k :: 0 <= k < i ==> InterfaceHost(ifaces[k]).None?;
      var addrs := ifaces[i].addresses;
      var j :| 0 <= j < |addrs| && CandidateHost(addrs[j]) == r && forall k :: 0 <= k < j ==> CandidateHost(addrs[k]).None?;
      assert Listed(ifaces, r.value);
    } else {
      forall i, j | 0 <= i < |ifaces| && 0 <= j < |ifaces[i].addresses|
        ensures !IsCandidate(ifaces[i].addresses[j])
      {
        assert InterfaceHost(ifaces[i]).None?;
        assert CandidateHost(ifaces[i].addresses[j]).None?;
      }
    }
  }

  /** `getLocalIpAddress`, exceptions aside: the WiFi answer when there is
      one, else the interface answer. The result is never IPv6 text. */
  function LocalIpAddress(ifaces: seq<NetworkInterface>, wifiIpInt: Option<DottedQuad.Int32>): (r: Option<string>)
    ensures WifiIp(wifiIpInt).Some? ==> r == WifiIp(wifiIpInt)
    ensures WifiIp(wifiIpInt).None? ==> r == InterfaceIp(ifaces)
    ensures r.Some? ==> ':' !in r.value
    ensures r.None? <==> (wifiIpInt.None? || wifiIpInt.value == 0) && !exists v :: Listed(ifaces, v)
  {
    if WifiIp(wifiIpInt).Some? then WifiIp(wifiIpInt) else InterfaceIp(ifaces)
  }

  /** `getLocalIp`: the address, or `0.0.0.0` when none was found. */
  function GetLocalIp(ifaces: seq<NetworkInterface>, wifiIpInt: Option<DottedQuad.Int32>): (reply: string)
    ensures LocalIpAddress(ifaces, wifiIpInt).None? ==> reply == "0.0.0.0"
    ensures LocalIpAddress(ifaces, wifiIpInt).Some? ==> reply == LocalIpAddress(ifaces, wifiIpInt).value
    ensures reply == "0.0.0.0" <==>
      ((wifiIpInt.None? || wifiIpInt.value == 0) && !exists v :: Listed(ifaces, v)) ||
      LocalIpAddress(ifaces, wifiIpInt) == Some("0.0.0.0")
  {
    LocalIpAddress(ifaces, wifiIpInt).GetOr("0.0.0.0")
  }

  /** The two copies disagree when WiFi is switched off but still reports an
      address and nothing else is found: the application's copy finds
      nothing, this one answers with the WiFi address. */
  lemma CopiesDisagreeOnDisabledWifi(x: DottedQuad.Int32)
    requires x != 0
    ensures LanDiscovery.LocalIpReference([], None, Some(LanDiscovery.WifiInfo(false, x))).None?
    ensures LocalIpAddress([], Some(x)) == Some(DottedQuad.WifiIpString(x))
  {
    assert LanDiscovery.EnumerationReference([]).None?;
  }

  /** Down and loopback interfaces are searched too: a candidate on a down
      interface is returned here, while the application's enumeration step
      skips it. */
  lemma DownInterfaceCounts(a: InetAddress)
    requires IsCandidate(a) && a.isIPv4
    ensures var ni := NetworkInterface("eth0", false, false, [a]);
      LocalIpAddress([ni], None) == Some(a.hostAddress) &&
      LanDiscovery.LocalIpReference([ni], None, None).None?
  {
    DownInterfaceFound(a);
    DownInterfaceSkipped(a);
  }

  /** This copy returns the candidate of a down interface. */
  lemma DownInterfaceFound(a: InetAddress)
    requires IsCandidate(a)
    ensures LocalIpAddress([NetworkInterface("eth0", false, false, [a])], None) == Some(a.hostAddress)
  {
    var ni := NetworkInterface("eth0", false, false, [a]);
    assert InterfaceHost(ni) == Some(a.hostAddress) by {
      FirstSomeAt([a], CandidateHost, 0);
    }
    FirstSomeAt([ni], InterfaceHost, 0);
  }

  /** The application's copy finds nothing on a lone down interface. */
  lemma DownInterfaceSkipped(a: InetAddress)
    ensures LanDiscovery.LocalIpReference([NetworkInterface("eth0", false, false, [a])], None, None).None?
  {
    var ni := NetworkInterface("eth0", false, false, [a]);
    assert !LanDiscovery.HotspotEligible(ni);
    assert !LanDiscovery.IsLive(ni);
    assert !exists v :: CarriedBy([ni], LanDiscovery.IsLive, v);
  }
}
