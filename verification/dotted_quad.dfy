/** The dotted-quad rendering of the IPv4 address Android's `WifiManager`
    reports as a Java `int`: `String.format("%d.%d.%d.%d", ipInt & 0xff,
    ipInt >> 8 & 0xff, ipInt >> 16 & 0xff, ipInt >> 24 & 0xff)`, together
    with the parser that reads such a string back. */
module DottedQuad {
  import opened Common
  import Strings

  /** A Java `int`. */
  type Int32 = x: int | -0x8000_0000 <= x < 0x8000_0000

  const TwoTo32: int := 0x1_0000_0000

  /** The two's-complement bit pattern of a Java `int`, read unsigned. */
  function Unsigned(x: Int32): (u: nat)
    ensures u < TwoTo32
    ensures x >= 0 ==> u == x
    ensures x < 0 ==> u == x + TwoTo32
  {
    x % TwoTo32
  }

  /** The four format arguments, least significant byte first. Java's `>>` is
      an arithmetic shift, that is floor division by a power of two, which is
      what Dafny's `/` does for a positive divisor, and shifting by 16 or 24
      is shifting by 8 two or three times; `& 0xff` on a two's complement
      value is the non-negative remainder modulo 256. */
  function Octets(x: Int32): (r: seq<nat>)
    ensures |r| == 4
    ensures forall i :: 0 <= i < |r| ==> r[i] < 256
    ensures r[0] + 256 * r[1] + 65536 * r[2] + 16777216 * r[3] == Unsigned(x)
  {
    var q1 := x / 256;
    var q2 := q1 / 256;
    var q3 := q2 / 256;
    var q4 := q3 / 256;
    assert x == x % 256 + 256 * q1;
    assert q1 == q1 % 256 + 256 * q2;
    assert q2 == q2 % 256 + 256 * q3;
    assert q3 == q3 % 256 + 256 * q4;
    assert -1 <= q4 <= 0;
    [x % 256, q1 % 256, q2 % 256, q3 % 256]
  }

  /** Only the zero address renders as `0.0.0.0`. */
  lemma OctetsZero(x: Int32)
    ensures Octets(x) == [0, 0, 0, 0] <==> x == 0
  {
    var r := Octets(x);
    assert r == [0, 0, 0, 0] ==> Unsigned(x) == 0;
  }

  /** Distinct `int`s give distinct octets. */
  lemma OctetsInjective(x: Int32, y: Int32)
    requires Octets(x) == Octets(y)
    ensures x == y
  {
    assert Unsigned(x) == Unsigned(y);
  }

  /** `parts` joined with `.` between neighbours. */
  function Join(parts: seq<string>): string
    decreases |parts|
  {
    if |parts| == 0 then ""
    else if |parts| == 1 then parts[0]
    else parts[0] + "." + Join(parts[1..])
  }

  /** `s` cut at every `.`; an input without a dot is one part. */
  function Split(s: string): (r: seq<string>)
    ensures |r| >= 1
    decreases |s|
  {
    if |s| == 0 then [""]
    else if s[0] == '.' then [""] + Split(s[1..])
    else
      var t := Split(s[1..]);
      [[s[0]] + t[0]] + t[1..]
  }

  lemma {:induction false} SplitNoDot(p: string)
    requires '.' !in p
    ensures Split(p) == [p]
    decreases |p|
  {
    if |p| > 0 {
      SplitNoDot(p[1..]);
      assert [p[0]] + p[1..] == p;
    }
  }

  lemma {:induction false} SplitAfterPart(p: string, rest: string)
    requires '.' !in p
    ensures Split(p + "." + rest) == [p] + Split(rest)
    decreases |p|
  {
    if |p| == 0 {
      assert p + "." + rest == "." + rest;
      assert ("." + rest)[1..] == rest;
    } else {
      var s := p + "." + rest;
      assert s[0] == p[0] && s[1..] == p[1..] + "." + rest;
      SplitAfterPart(p[1..], rest);
      assert [p[0]] + p[1..] == p;
    }
  }

  /** Splitting undoes joining parts that hold no dot. */
  lemma {:induction false} SplitJoin(parts: seq<string>)
    requires |parts| >= 1
    requires forall i :: 0 <= i < |parts| ==> '.' !in parts[i]
    ensures Split(Join(parts)) == parts
    decreases |parts|
  {
    if |parts| == 1 {
      SplitNoDot(parts[0]);
    } else {
      SplitJoin(parts[1..]);
      SplitAfterPart(parts[0], Join(parts[1..]));
      assert [parts[0]] + parts[1..] == parts;
    }
  }

  function Render(os: seq<nat>): seq<string>
  {
    seq(|os|, i requires 0 <= i < |os| => Strings.NatToString(os[i]))
  }

  /** `%d.%d.%d.%d` applied to the octets. */
  function Format(os: seq<nat>): (s: string)
    requires |os| == 4
    ensures forall i :: 0 <= i < |s| ==> s[i] == '.' || Strings.IsDigit(s[i])
  {
    var parts := Render(os);
    JoinChars(parts);
    Join(parts)
  }

  lemma {:induction false} JoinChars(parts: seq<string>)
    requires forall i, j :: 0 <= i < |parts| && 0 <= j < |parts[i]| ==> Strings.IsDigit(parts[i][j])
    ensures forall k :: 0 <= k < |Join(parts)| ==> Join(parts)[k] == '.' || Strings.IsDigit(Join(parts)[k])
    decreases |parts|
  {
    if |parts| > 1 {
      JoinChars(parts[1..]);
      var s := Join(parts);
      var t := Join(parts[1..]);
      assert s == parts[0] + "." + t;
      forall k | 0 <= k < |s| ensures s[k] == '.' || Strings.IsDigit(s[k]) {
        if k < |parts[0]| {
          assert s[k] == parts[0][k];
        } else if k > |parts[0]| {
          assert s[k] == t[k - |parts[0]| - 1];
        }
      }
    }
  }

  /** The address as `WifiManager`'s caller prints it. */
  function WifiIpString(x: Int32): (s: string)
    ensures ':' !in s
  {
    var s := Format(Octets(x));
    assert forall i :: 0 <= i < |s| ==> s[i] != ':';
    s
  }

  predicate AllDigits(s: string)
  {
    forall i :: 0 <= i < |s| ==> Strings.IsDigit(s[i])
  }

  /** Reads a dotted quad: four non-empty decimal parts, each below 256. */
  function Parse(s: string): (r: Option<seq<nat>>)
    ensures r.Some? ==> |r.value| == 4 && forall i :: 0 <= i < 4 ==> r.value[i] < 256
  {
    var parts := Split(s);
    if |parts| == 4 && forall i :: 0 <= i < 4 ==> |parts[i]| > 0 && AllDigits(parts[i]) then
      var os := seq(4, i requires 0 <= i < 4 => Strings.ParseNat(parts[i]));
      if forall i :: 0 <= i < 4 ==> os[i] < 256 then Some(os) else None
    else None
  }

  /** Parsing a formatted quad gives back its octets. */
  lemma ParseFormat(os: seq<nat>)
    requires |os| == 4 && forall i :: 0 <= i < 4 ==> os[i] < 256
    ensures Parse(Format(os)) == Some(os)
  {
    var parts := Render(os);
    forall i | 0 <= i < |parts| ensures '.' !in parts[i] {
      assert forall j :: 0 <= j < |parts[i]| ==> Strings.IsDigit(parts[i][j]);
    }
    SplitJoin(parts);
    forall i | 0 <= i < 4 ensures Strings.ParseNat(parts[i]) == os[i] {
      Strings.ParseNatToString(os[i]);
    }
    var r := seq(4, i requires 0 <= i < 4 => Strings.ParseNat(parts[i]));
    assert r == os;
  }

  /** The WiFi address string determines the `int` it was printed from. */
  lemma WifiIpRoundTrip(x: Int32)
    ensures Parse(WifiIpString(x)) == Some(Octets(x))
    ensures var os := Octets(x); os[0] + 256 * os[1] + 65536 * os[2] + 16777216 * os[3] == Unsigned(x)
  {
    ParseFormat(Octets(x));
  }
}
