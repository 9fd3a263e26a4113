/** What the Java IP helpers see of the platform: network interfaces in
    enumeration order, each with its addresses in enumeration order, and the
    "first element that yields an answer" search both helpers are built on. */
module NetInterfaces {
  import opened Common

  /** A `java.net.InetAddress`: its text, whether it is an `Inet4Address`,
      and `isLoopbackAddress()`. */
  datatype InetAddress = InetAddress(hostAddress: string, isIPv4: bool, isLoopback: bool)

  /** A `java.net.NetworkInterface` as `getName`, `isUp`, `isLoopback` and
      `getInetAddresses` report it. */
  datatype NetworkInterface = NetworkInterface(
    name: string,
    isUp: bool,
    isLoopback: bool,
    addresses: seq<InetAddress>)

  /** The answer of the first element of `s` that gives one: the shape of a
      `for` loop that `return`s from inside. */
  function FirstSome<T>(s: seq<T>, f: T -> Option<string>): (r: Option<string>)
    ensures r.None? <==> forall i :: 0 <= i < |s| ==> f(s[i]).None?
    ensures r.Some? ==> exists i :: 0 <= i < |s| && f(s[i]) == r && forall j :: 0 <= j < i ==> f(s[j]).None?
    decreases |s|
  {
    if |s| == 0 then None
    else
      var init := s[..|s| - 1];
      var p := FirstSome(init, f);
      assert forall i :: 0 <= i < |init| ==> init[i] == s[i];
      if p.Some? then p else f(s[|s| - 1])
  }

  /** One more step of the loop. */
  lemma FirstSomeSnoc<T>(s: seq<T>, f: T -> Option<string>, i: int)
    requires 0 <= i < |s|
    ensures FirstSome(s[..i + 1], f) ==
      if FirstSome(s[..i], f).Some? then FirstSome(s[..i], f) else f(s[i])
  {
    assert s[..i + 1][..i] == s[..i];
  }

  /** The loop returns at the first element that yields an answer. */
  lemma {:induction false} FirstSomeAt<T>(s: seq<T>, f: T -> Option<string>, i: int)
    requires 0 <= i < |s| && f(s[i]).Some?
    requires forall j :: 0 <= j < i ==> f(s[j]).None?
    ensures FirstSome(s, f) == f(s[i])
    decreases |s|
  {
    var init := s[..|s| - 1];
    assert forall j :: 0 <= j < |init| ==> init[j] == s[j];
    if i < |s| - 1 {
      FirstSomeAt(init, f, i);
    } else {
      assert FirstSome(init, f).None?;
    }
  }

  /** A prefix that yields nothing says so of each of its elements. */
  lemma FirstSomePrefixNone<T>(s: seq<T>, f: T -> Option<string>, i: int)
    requires 0 <= i <= |s| && FirstSome(s[..i], f).None?
    ensures forall j :: 0 <= j < i ==> f(s[j]).None?
  {
    assert forall j :: 0 <= j < i ==> s[..i][j] == s[j];
  }

  /** `addr instanceof Inet4Address && !addr.isLoopbackAddress()`. */
  predicate IsUsableV4(a: InetAddress)
  {
    a.isIPv4 && !a.isLoopback
  }

  function UsableHost(a: InetAddress): (r: Option<string>)
    ensures r.Some? <==> IsUsableV4(a)
    ensures r.Some? ==> r.value == a.hostAddress
  {
    if IsUsableV4(a) then Some(a.hostAddress) else None
  }

  /** Some interface the predicate admits carries a usable IPv4 address with
      the text `v`. */
  predicate CarriedBy(ifaces: seq<NetworkInterface>, admit: NetworkInterface -> bool, v: string)
  {
    exists i, j :: 0 <= i < |ifaces| && 0 <= j < |ifaces[i].addresses| &&
      admit(ifaces[i]) && IsUsableV4(ifaces[i].addresses[j]) && ifaces[i].addresses[j].hostAddress == v
  }
}
