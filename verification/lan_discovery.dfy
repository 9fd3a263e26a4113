/** The local-IP helpers of the application's `LanDiscoveryPlugin`:
    `getHotspotIp`, `getLocalIpAddress` and `getLocalIp`. The platform state
    (interfaces, the active network's link addresses, the WiFi manager's
    report) is passed in. */
module LanDiscovery {
  import opened Common
  import Strings
  import DottedQuad
  import opened NetInterfaces

  /** Hotspot interface names, tested on the lower-cased name. */
  predicate IsHotspotName(name: string)
  {
    "ap" <= name || "swlan" <= name || Strings.Contains(name, "softap") || name == "wlan1" || "rndis" <= name
  }

  /** An interface `getHotspotIp` looks into. */
  predicate HotspotEligible(ni: NetworkInterface)
  {
    IsHotspotName(Strings.ToLower(ni.name)) && ni.isUp && !ni.isLoopback
  }

  function HotspotHost(ni: NetworkInterface): Option<string>
  {
    if HotspotEligible(ni) then FirstSome(ni.addresses, UsableHost) else None
  }

  /** `getHotspotIp`: the first usable IPv4 address on the first eligible
      interface that has one. */
  function HotspotIp(ifaces: seq<NetworkInterface>): (r: Option<string>)
    ensures r.None? <==> !exists v :: CarriedBy(ifaces, HotspotEligible, v)
    ensures r.Some? ==> CarriedBy(ifaces, HotspotEligible, r.value)
    ensures r.Some? ==>
      exists i :: 0 <= i < |ifaces| && HotspotEligible(ifaces[i]) &&
        FirstSome(ifaces[i].addresses, UsableHost) == r &&
        forall k :: 0 <= k < i ==> !HotspotEligible(ifaces[k]) || FirstSome(ifaces[k].addresses, UsableHost).None?
  {
    var r := FirstSome(ifaces, HotspotHost);
    CarriedIff(ifaces, HotspotEligible, HotspotHost);
    r
  }

  /** Looking for the first answer among the admitted interfaces finds one
      exactly when an admitted interface carries a usable address, and the
      answer is such an address. */
  lemma CarriedIff(ifaces: seq<NetworkInterface>, admit: NetworkInterface -> bool, host: NetworkInterface -> Option<string>)
    requires forall ni :: host(ni) == if admit(ni) then FirstSome(ni.addresses, UsableHost) else None
    ensures FirstSome(ifaces, host).None? <==> !exists v :: CarriedBy(ifaces, admit, v)
    ensures FirstSome(ifaces, host).Some? ==> CarriedBy(ifaces, admit, FirstSome(ifaces, host).value)
  {
    var r := FirstSome(ifaces, host);
    if r.Some? {
      var i :| 0 <= i < |ifaces| && host(ifaces[i]) == r && forall j :: 0 <= j < i ==> host(ifaces[j]).None?;
      var addrs := ifaces[i].addresses;
      var j :| 0 <= j < |addrs| && UsableHost(addrs[j]) == r && forall k :: 0 <= k < j ==> UsableHost(addrs[k]).None?;
      assert CarriedBy(ifaces, admit, r.value);
    } else {
      forall i, j | 0 <= i < |ifaces| && 0 <= j < |ifaces[i].addresses| && admit(ifaces[i])
        ensures !IsUsableV4(ifaces[i].addresses[j])
      {
        assert host(ifaces[i]).None?;
        assert UsableHost(ifaces[i].addresses[j]).None?;
      }
    }
  }

  /** Method 2: the first usable IPv4 among the active network's link
      addresses. `None` stands for every way of having no list: no
      `ConnectivityManager`, an API level below 23, no active network, or no
      link properties. */
  function ActiveNetworkIp(links: Option<seq<InetAddress>>): (r: Option<string>)
    ensures r.Some? <==> links.Some? && exists j :: 0 <= j < |links.value| && IsUsableV4(links.value[j])
    ensures r.Some? ==>
      exists j :: 0 <= j < |links.value| && IsUsableV4(links.value[j]) &&
        links.value[j].hostAddress == r.value && forall k :: 0 <= k < j ==> !IsUsableV4(links.value[k])
  {
    match links
    case None => None
    case Some(addrs) => FirstSome(addrs, UsableHost)
  }

  /** What `WifiManager` reports: `isWifiEnabled()` and the connection's
      `getIpAddress()`. */
  datatype WifiInfo = WifiInfo(enabled: bool, ipInt: DottedQuad.Int32)

  /** Method 3: with a WiFi manager (`Some`), WiFi enabled and a non-zero
      address, that address in dotted form. */
  function WifiIp(wifi: Option<WifiInfo>): (r: Option<string>)
    ensures r.Some? <==> wifi.Some? && wifi.value.enabled && wifi.value.ipInt != 0
    ensures r.Some? ==> DottedQuad.Parse(r.value) == Some(DottedQuad.Octets(wifi.value.ipInt))
    ensures r.Some? ==> r.value != "0.0.0.0"
  {
    if wifi.Some? && wifi.value.enabled && wifi.value.ipInt != 0 then
      var s := DottedQuad.WifiIpString(wifi.value.ipInt);
      DottedQuad.WifiIpRoundTrip(wifi.value.ipInt);
      DottedQuad.OctetsZero(wifi.value.ipInt);
      ZeroQuadParses();
      Some(s)
    else None
  }

  lemma ZeroQuadParses()
    ensures DottedQuad.Parse("0.0.0.0") == Some([0, 0, 0, 0])
  {
    DottedQuad.ParseFormat([0, 0, 0, 0]);
    assert DottedQuad.Format([0, 0, 0, 0]) == "0.0.0.0" by {
      assert Strings.NatToString(0) == "0";
      assert DottedQuad.Render([0, 0, 0, 0]) == ["0", "0", "0", "0"];
    }
  }

  predicate IsLive(ni: NetworkInterface)
  {
    !ni.isLoopback && ni.isUp
  }

  /** Hotspot and tethering names of the enumeration step (here `wlan1`
      anywhere in the name counts). */
  predicate IsTetherName(name: string)
  {
    "ap" <= name || "swlan" <= name || "rndis" <= name ||
    Strings.Contains(name, "softap") || Strings.Contains(name, "wlan1")
  }

  /** Interfaces whose first usable address the enumeration step returns at
      once: tethering names, then WiFi names. */
  predicate IsPreferredName(name: string)
  {
    IsTetherName(name) || "wlan" <= name
  }

  predicate Preferred(ni: NetworkInterface)
  {
    IsLive(ni) && IsPreferredName(Strings.ToLower(ni.name))
  }

  function LiveHost(ni: NetworkInterface): Option<string>
  {
    if IsLive(ni) then FirstSome(ni.addresses, UsableHost) else None
  }

  function PreferredHost(ni: NetworkInterface): Option<string>
  {
    if Preferred(ni) then FirstSome(ni.addresses, UsableHost) else None
  }

  /** Method 4 stated without the loop: the first usable address of the first
      preferred live interface that has one, else the first usable address of
      any live interface. */
  function EnumerationReference(ifaces: seq<NetworkInterface>): (r: Option<string>)
    ensures r.None? <==> !exists v :: CarriedBy(ifaces, IsLive, v)
    ensures r.Some? ==> CarriedBy(ifaces, IsLive, r.value)
    ensures (exists v :: CarriedBy(ifaces, Preferred, v)) ==> r.Some? && CarriedBy(ifaces, Preferred, r.value)
  {
    CarriedIff(ifaces, Preferred, PreferredHost);
    CarriedIff(ifaces, IsLive, LiveHost);
    var preferred := FirstSome(ifaces, PreferredHost);
    if preferred.Some? then
      assert CarriedBy(ifaces, IsLive, preferred.value) by {
        var i, j :| 0 <= i < |ifaces| && 0 <= j < |ifaces[i].addresses| &&
          Preferred(ifaces[i]) && IsUsableV4(ifaces[i].addresses[j]) && ifaces[i].addresses[j].hostAddress == preferred.value;
        assert IsLive(ifaces[i]);
      }
      preferred
    else FirstSome(ifaces, LiveHost)
  }

  /** The reference choice, read off the two searches. */
  lemma EnumerationReferenceCases(ifaces: seq<NetworkInterface>)
    ensures FirstSome(ifaces, PreferredHost).Some? ==> EnumerationReference(ifaces) == FirstSome(ifaces, PreferredHost)
    ensures FirstSome(ifaces, PreferredHost).None? ==> EnumerationReference(ifaces) == FirstSome(ifaces, LiveHost)
  {
  }

  /** The inner loop of method 4 over one live interface's addresses: on a
      preferred interface the first usable address is returned at once (`hit`);
      elsewhere it becomes the fallback unless one is already set. */
  method ScanAddresses(addrs: seq<InetAddress>, name: string, fallbackIn: Option<string>)
    returns (hit: Option<string>, fallback: Option<string>)
    ensures IsPreferredName(name) ==> hit == FirstSome(addrs, UsableHost)
    ensures !IsPreferredName(name) ==> hit.None?
    ensures hit.None? ==> fallback == if fallbackIn.Some? then fallbackIn else FirstSome(addrs, UsableHost)
  {
    fallback := fallbackIn;
    var j := 0;
    while j < |addrs|
      invariant 0 <= j <= |addrs|
      invariant !IsPreferredName(name) || FirstSome(addrs[..j], UsableHost).None?
      invariant fallback == if fallbackIn.Some? then fallbackIn else FirstSome(addrs[..j], UsableHost)
    {
      var addr := addrs[j];
      FirstSomeSnoc(addrs, UsableHost, j);
      if IsUsableV4(addr) {
        if IsTetherName(name) || "wlan" <= name {
          FirstSomePrefixNone(addrs, UsableHost, j);
          FirstSomeAt(addrs, UsableHost, j);
          return Some(addr.hostAddress), fallback;
        }
        if fallback.None? {
          fallback := Some(addr.hostAddress);
        }
      }
      j := j + 1;
    }
    assert addrs[..j] == addrs;
    hit := None;
  }

  /** Method 4 as written: skip loopback and down interfaces, return the first
      usable address on a tethering or WiFi interface, and otherwise remember
      the first usable address seen as the fallback. */
  method EnumerationIp(ifaces: seq<NetworkInterface>) returns (ip: Option<string>)
    ensures ip == EnumerationReference(ifaces)
  {
    var fallback: Option<string> := None;
    var i := 0;
    while i < |ifaces|
      invariant 0 <= i <= |ifaces|
      invariant FirstSome(ifaces[..i], PreferredHost).None?
      invariant fallback == FirstSome(ifaces[..i], LiveHost)
    {
      var ni := ifaces[i];
      FirstSomeSnoc(ifaces, PreferredHost, i);
      FirstSomeSnoc(ifaces, LiveHost, i);
      if ni.isLoopback || !ni.isUp {
        i := i + 1;
        continue;
      }
      var hit;
      hit, fallback := ScanAddresses(ni.addresses, Strings.ToLower(ni.name), fallback);
      if hit.Some? {
        FirstSomePrefixNone(ifaces, PreferredHost, i);
        FirstSomeAt(ifaces, PreferredHost, i);
        EnumerationReferenceCases(ifaces);
        return hit;
      }
      i := i + 1;
    }
    assert ifaces[..i] == ifaces;
    EnumerationReferenceCases(ifaces);
    return fallback;
  }

  /** `getLocalIpAddress` stated without the control flow: hotspot first,
      then the active network, then WiFi, then enumeration. */
  function LocalIpReference(ifaces: seq<NetworkInterface>, links: Option<seq<InetAddress>>, wifi: Option<WifiInfo>): Option<string>
  {
    if HotspotIp(ifaces).Some? then HotspotIp(ifaces)
    else if ActiveNetworkIp(links).Some? then ActiveNetworkIp(links)
    else if WifiIp(wifi).Some? then WifiIp(wifi)
    else EnumerationReference(ifaces)
  }

  /** `getLocalIpAddress`, exceptions aside. */
  method LocalIpAddress(ifaces: seq<NetworkInterface>, links: Option<seq<InetAddress>>, wifi: Option<WifiInfo>)
    returns (ip: Option<string>)
    ensures ip == LocalIpReference(ifaces, links, wifi)
  {
    ip := HotspotIp(ifaces);
    if ip.Some? {
      return;
    }
    ip := ActiveNetworkIp(links);
    if ip.Some? {
      return;
    }
    ip := WifiIp(wifi);
    if ip.Some? {
      return;
    }
    ip := EnumerationIp(ifaces);
  }

  /** Every answer is a usable IPv4 address some source reported, or the
      WiFi address; and with no source reporting anything there is none. */
  lemma LocalIpIsReported(ifaces: seq<NetworkInterface>, links: Option<seq<InetAddress>>, wifi: Option<WifiInfo>)
    ensures var r := LocalIpReference(ifaces, links, wifi);
      r.Some? ==>
        CarriedBy(ifaces, IsLive, r.value) ||
        (links.Some? && exists j :: 0 <= j < |links.value| && IsUsableV4(links.value[j]) && links.value[j].hostAddress == r.value) ||
        (wifi.Some? && r.value == DottedQuad.WifiIpString(wifi.value.ipInt))
    ensures LocalIpReference(ifaces, links, wifi).None? <==>
      (!exists v :: CarriedBy(ifaces, IsLive, v)) &&
      ActiveNetworkIp(links).None? && WifiIp(wifi).None?
  {
    var h := HotspotIp(ifaces);
    if h.Some? {
      var i, j :| 0 <= i < |ifaces| && 0 <= j < |ifaces[i].addresses| &&
        HotspotEligible(ifaces[i]) && IsUsableV4(ifaces[i].addresses[j]) && ifaces[i].addresses[j].hostAddress == h.value;
      assert IsLive(ifaces[i]);
    }
  }

  /** A usable address on a hotspot interface wins over every other source. */
  lemma HotspotWins(ifaces: seq<NetworkInterface>, links: Option<seq<InetAddress>>, wifi: Option<WifiInfo>, v: string)
    requires CarriedBy(ifaces, HotspotEligible, v)
    ensures CarriedBy(ifaces, HotspotEligible, LocalIpReference(ifaces, links, wifi).value)
  {
  }

  /** `getLocalIp`: the address, or `0.0.0.0` when none was found. */
  method GetLocalIp(ifaces: seq<NetworkInterface>, links: Option<seq<InetAddress>>, wifi: Option<WifiInfo>)
    returns (reply: string)
    ensures LocalIpReference(ifaces, links, wifi).None? ==> reply == "0.0.0.0"
    ensures LocalIpReference(ifaces, links, wifi).Some? ==> reply == LocalIpReference(ifaces, links, wifi).value
    ensures reply == "0.0.0.0" <==>
      ((!exists v :: CarriedBy(ifaces, IsLive, v)) && ActiveNetworkIp(links).None? && WifiIp(wifi).None?) ||
      LocalIpReference(ifaces, links, wifi) == Some("0.0.0.0")
  {
    LocalIpIsReported(ifaces, links, wifi);
    var ip := LocalIpAddress(ifaces, links, wifi);
    reply := if ip.Some? then ip.value else "0.0.0.0";
  }
}
