/**
 * The part of Python's `ipaddress` module the restriction manager uses, for
 * IPv4: parsing a dotted-quad address (`ip_address`), its canonical text
 * (`str` of an address), and the netmask arithmetic behind `ip_network` and
 * `address in network`. Addresses are 32-bit unsigned values.
 */
module Ipv4 {
  import opened Wrappers
  import opened Text

  const ADDRESS_SPACE: nat := 0x1_0000_0000
  const ADDRESS_BITS: nat := 32

  /**
   * One octet of a dotted quad: one to three ASCII digits, no leading zero
   * (strict parsing, as `ipaddress` does since Python 3.9.5), at most 255.
   */
  function ParseOctet(t: string): (r: Option<nat>)
    ensures r.Some? ==> r.value < 256
  {
    if |t| == 0 then None
    else if !IsDigits(t) then None
    else if |t| > 3 then None
    else if t != "0" && t[0] == '0' then None
    else if DecimalValue(t) > 255 then None
    else Some(DecimalValue(t))
  }

  /** The 32-bit value of four octets taken most significant first. */
  function FromOctets(a: nat, b: nat, c: nat, d: nat): nat
    requires a < 256 && b < 256 && c < 256 && d < 256
  {
    ((a * 256 + b) * 256 + c) * 256 + d
  }

  /** `ipaddress.IPv4Address(s)`: the address value, or None where Python raises. */
  function ParseAddress(s: string): (r: Option<nat>)
    ensures r.Some? ==> r.value < ADDRESS_SPACE
  {
    if |s| == 0 then None
    else
      var octets := Split(s, '.');
      if |octets| != 4 then None
      else
        match (ParseOctet(octets[0]), ParseOctet(octets[1]), ParseOctet(octets[2]), ParseOctet(octets[3]))
        case (Some(a), Some(b), Some(c), Some(d)) => Some(FromOctets(a, b, c, d))
        case _ => None
  }

  /** The four octets of an address, most significant first. */
  function Octets(a: nat): seq<nat>
    requires a < ADDRESS_SPACE
  {
    [a / 0x100_0000, a / 0x1_0000 % 0x100, a / 0x100 % 0x100, a % 0x100]
  }

  /** `str(IPv4Address(a))`: the canonical dotted-quad text of an address. */
  function Format(a: nat): string
    requires a < ADDRESS_SPACE
  {
    var o := Octets(a);
    Join([DecimalText(o[0]), DecimalText(o[1]), DecimalText(o[2]), DecimalText(o[3])], '.')
  }

  /** The canonical text splits at its dots into the decimal texts of the four octets. */
  lemma FormatPieces(a: nat)
    requires a < ADDRESS_SPACE
    ensures var o := Octets(a);
      Split(Format(a), '.') == [DecimalText(o[0]), DecimalText(o[1]), DecimalText(o[2]), DecimalText(o[3])]
    ensures '.' in Format(a) && !IsDigits(Format(a))
  {
    var o := Octets(a);
    var parts := [DecimalText(o[0]), DecimalText(o[1]), DecimalText(o[2]), DecimalText(o[3])];
    DigitsAvoid(parts[0], '.');
    DigitsAvoid(parts[1], '.');
    DigitsAvoid(parts[2], '.');
    DigitsAvoid(parts[3], '.');
    SplitJoin(parts, '.');
    DotsBreakDigits(Format(a));
  }

  /** The canonical text of an address is no prefix-length suffix. */
  lemma FormatNotDigits(a: nat)
    requires a < ADDRESS_SPACE
    ensures !IsDigits(Format(a))
  {
    FormatPieces(a);
  }

  /** A text holding a dot is no digit string. */
  lemma DotsBreakDigits(s: string)
    requires Count(s, '.') > 0
    ensures '.' in s && !IsDigits(s)
  {
    if IsDigits(s) {
      DigitsAvoid(s, '.');
    }
  }

  lemma OctetsRecombine(a: nat)
    requires a < ADDRESS_SPACE
    ensures var o := Octets(a); o[0] < 256 && o[1] < 256 && o[2] < 256 && o[3] < 256 && FromOctets(o[0], o[1], o[2], o[3]) == a
  {
    var q1, o3 := a / 0x100, a % 0x100;
    var q2, o2 := q1 / 0x100, q1 % 0x100;
    var o0, o1 := q2 / 0x100, q2 % 0x100;
    assert a == q1 * 0x100 + o3;
    assert q1 == q2 * 0x100 + o2;
    assert q2 == o0 * 0x100 + o1;
    assert a == q2 * 0x1_0000 + (o2 * 0x100 + o3);
    DivModUnique(a, 0x1_0000, q2, o2 * 0x100 + o3);
    assert a == o0 * 0x100_0000 + (o1 * 0x1_0000 + o2 * 0x100 + o3);
    DivModUnique(a, 0x100_0000, o0, o1 * 0x1_0000 + o2 * 0x100 + o3);
    assert o0 < 256;
  }

  lemma FromOctetsSplits(a: nat, b: nat, c: nat, d: nat)
    requires a < 256 && b < 256 && c < 256 && d < 256
    ensures FromOctets(a, b, c, d) < ADDRESS_SPACE && Octets(FromOctets(a, b, c, d)) == [a, b, c, d]
  {
    var ab := a * 0x100 + b;
    var abc := ab * 0x100 + c;
    var x := abc * 0x100 + d;
    assert x == FromOctets(a, b, c, d);
    assert ab < 0x1_0000 && abc < 0x100_0000 && x < ADDRESS_SPACE;
    DivModUnique(x, 0x100, abc, d);
    assert x == ab * 0x1_0000 + (c * 0x100 + d);
    DivModUnique(x, 0x1_0000, ab, c * 0x100 + d);
    assert x == a * 0x100_0000 + (b * 0x1_0000 + c * 0x100 + d);
    DivModUnique(x, 0x100_0000, a, b * 0x1_0000 + c * 0x100 + d);
    DivModUnique(ab, 0x100, a, b);
    DivModUnique(abc, 0x100, ab, c);
  }

  lemma OctetTextRoundTrip(n: nat)
    requires n < 256
    ensures ParseOctet(DecimalText(n)) == Some(n)
  {
    DecimalRoundTrip(n);
    var t := DecimalText(n);
    if n >= 10 {
      assert DecimalText(n / 10) == t[..|t| - 1];
      if n >= 100 {
        assert |DecimalText(n / 10 / 10)| == 1;
      }
    }
    assert |t| <= 3;
  }

  lemma OctetCanonical(t: string, n: nat)
    requires ParseOctet(t) == Some(n)
    ensures DecimalText(n) == t
  {
    DecimalCanonical(t);
  }

  /** Every address value is parsed back from its canonical text. */
  lemma ParseFormat(a: nat)
    requires a < ADDRESS_SPACE
    ensures ParseAddress(Format(a)) == Some(a)
  {
    var o := Octets(a);
    OctetsRecombine(a);
    FormatPieces(a);
    OctetTextRoundTrip(o[0]);
    OctetTextRoundTrip(o[1]);
    OctetTextRoundTrip(o[2]);
    OctetTextRoundTrip(o[3]);
    assert |Format(a)| > 0;
  }

  /** Strict parsing admits only the canonical text: a parsed address is printed back as the input. */
  lemma FormatParse(s: string, a: nat)
    requires ParseAddress(s) == Some(a)
    ensures a < ADDRESS_SPACE && Format(a) == s
  {
    var octets := Split(s, '.');
    var p, q, r, t := ParseOctet(octets[0]).value, ParseOctet(octets[1]).value,
                      ParseOctet(octets[2]).value, ParseOctet(octets[3]).value;
    FromOctetsSplits(p, q, r, t);
    OctetCanonical(octets[0], p);
    OctetCanonical(octets[1], q);
    OctetCanonical(octets[2], r);
    OctetCanonical(octets[3], t);
    assert octets == [octets[0], octets[1], octets[2], octets[3]];
  }

  /** Two texts that parse to the same address are the same text. */
  lemma ParseInjective(s: string, t: string)
    requires ParseAddress(s).Some? && ParseAddress(s) == ParseAddress(t)
    ensures s == t
  {
    FormatParse(s, ParseAddress(s).value);
    FormatParse(t, ParseAddress(t).value);
  }

  /** The canonical text of an address holds only digits and dots. */
  lemma FormatAvoids(a: nat, d: char)
    requires a < ADDRESS_SPACE && d != '.' && !IsAsciiDigit(d)
    ensures d !in Format(a)
  {
    var o := Octets(a);
    OctetsRecombine(a);
    var parts := [DecimalText(o[0]), DecimalText(o[1]), DecimalText(o[2]), DecimalText(o[3])];
    forall i | 0 <= i < 4
      ensures d !in parts[i]
    {
      DigitsAvoid(parts[i], d);
    }
    JoinAvoids(parts, '.', d);
  }

  /** The texts `ip_address` accepts are exactly the canonical texts of 32-bit values. */
  lemma AcceptedTexts(s: string)
    ensures ParseAddress(s).Some? <==> exists a: nat :: a < ADDRESS_SPACE && Format(a) == s
  {
    if ParseAddress(s).Some? {
      FormatParse(s, ParseAddress(s).value);
    }
    if exists a: nat :: a < ADDRESS_SPACE && Format(a) == s {
      var a: nat :| a < ADDRESS_SPACE && Format(a) == s;
      ParseFormat(a);
    }
  }

  function Pow2(k: nat): (r: nat)
    ensures r >= 1
  {
    if k == 0 then 1 else 2 * Pow2(k - 1)
  }

  lemma {:induction false} Pow2Add(k: nat, n: nat)
    ensures Pow2(k + n) == Pow2(k) * Pow2(n)
  {
    if k > 0 {
      Pow2Add(k - 1, n);
    }
  }

  lemma AddressSpaceIsPow2()
    ensures Pow2(ADDRESS_BITS) == ADDRESS_SPACE
  {
    assert Pow2(2) == 4;
    Pow2Add(2, 2);
    Pow2Add(4, 4);
    Pow2Add(8, 8);
    Pow2Add(16, 16);
  }

  lemma {:induction false} Pow2Monotone(k: nat, n: nat)
    requires k <= n
    ensures Pow2(k) <= Pow2(n)
  {
    if k < n {
      Pow2Monotone(k, n - 1);
    }
  }

  /** The number of addresses in a block with `prefix` network bits. */
  function BlockSize(prefix: nat): (r: nat)
    requires prefix <= ADDRESS_BITS
    ensures 1 <= r <= ADDRESS_SPACE
  {
    Pow2Monotone(ADDRESS_BITS - prefix, ADDRESS_BITS);
    AddressSpaceIsPow2();
    Pow2(ADDRESS_BITS - prefix)
  }

  /** `a & netmask`: `a` with all but its first `prefix` bits cleared. */
  function Masked(a: nat, prefix: nat): (r: nat)
    requires prefix <= ADDRESS_BITS
    ensures r <= a
  {
    ModBound(a, BlockSize(prefix));
    a - a % BlockSize(prefix)
  }

  lemma ModBound(a: nat, b: nat)
    requires b >= 1
    ensures a % b <= a && a % b < b
  {
    if a < b {
      assert a == 0 * b + a;
    } else {
      assert a == a / b * b + a % b;
    }
  }

  /** The strict check of `ip_network`: the network address has no host bit set. */
  predicate HostBitsClear(n: nat, prefix: nat)
    requires prefix <= ADDRESS_BITS
    ensures HostBitsClear(n, prefix) <==> n % BlockSize(prefix) == 0
  {
    Masked(n, prefix) == n
  }

  /** The netmask value of a prefix length: `prefix` one bits followed by zero bits. */
  function Netmask(prefix: nat): nat
    requires prefix <= ADDRESS_BITS
  {
    ADDRESS_SPACE - BlockSize(prefix)
  }

  /**
   * The prefix length whose netmask is `m`, searched among 0..`limit`: the
   * value `_prefix_from_ip_int` computes from the trailing zero bits of `m`.
   */
  function MaskPrefix(m: nat, limit: nat): (r: Option<nat>)
    requires limit <= ADDRESS_BITS
    ensures r.Some? ==> r.value <= limit && Netmask(r.value) == m
    ensures r.None? ==> forall p :: 0 <= p <= limit ==> Netmask(p) != m
  {
    if Netmask(limit) == m then Some(limit)
    else if limit == 0 then None
    else MaskPrefix(m, limit - 1)
  }

  /** `_prefix_from_prefix_string`: ASCII digits denoting at most 32. */
  function ParsePrefixLength(t: string): (r: Option<nat>)
    ensures r.Some? <==> IsDigits(t) && DecimalValue(t) <= ADDRESS_BITS
    ensures r.Some? ==> r.value == DecimalValue(t)
  {
    if !IsDigits(t) then None
    else if DecimalValue(t) > ADDRESS_BITS then None
    else Some(DecimalValue(t))
  }

  /**
   * The prefix-length suffix agrees with `str`: the decimal text of `n` is
   * read back as `n` exactly when `n` is at most 32. It reads through a
   * leading zero as `int()` does, and refuses a sign or surrounding spaces,
   * which `int()` alone would accept.
   */
  lemma PrefixLengthText(n: nat, t: string)
    ensures ParsePrefixLength(DecimalText(n)) == if n <= ADDRESS_BITS then Some(n) else None
    ensures n <= ADDRESS_BITS ==> ParsePrefixLength("0" + DecimalText(n)) == Some(n)
    ensures ParsePrefixLength("+" + t) == None && ParsePrefixLength("-" + t) == None
    ensures ParsePrefixLength(" " + t) == None && ParsePrefixLength(t + " ") == None
  {
    DecimalRoundTrip(n);
    var d := DecimalText(n);
    LeadingZeroValue(d);
    assert IsDigits("0" + d) by {
      forall i | 0 <= i < |"0" + d|
        ensures IsAsciiDigit(("0" + d)[i])
      {
        if i > 0 {
          assert ("0" + d)[i] == d[i - 1];
        }
      }
    }
    assert ("+" + t)[0] == '+' && ("-" + t)[0] == '-' && (" " + t)[0] == ' ';
    assert (t + " ")[|t|] == ' ';
  }

  /** `_prefix_from_ip_string`: a dotted-quad netmask, or else a dotted-quad hostmask. */
  function ParseMaskText(t: string): (r: Option<nat>)
    ensures r.Some? ==> r.value <= ADDRESS_BITS
  {
    match ParseAddress(t)
    case None => None
    case Some(m) =>
      match MaskPrefix(m, ADDRESS_BITS)
      case Some(p) => Some(p)
      case None => MaskPrefix(ADDRESS_SPACE - 1 - m, ADDRESS_BITS)
  }

  /** `_make_netmask` on text: a prefix length, or else a mask. */
  function ParseMask(t: string): (r: Option<nat>)
    ensures r.Some? ==> r.value <= ADDRESS_BITS
  {
    match ParsePrefixLength(t)
    case Some(p) => Some(p)
    case None => ParseMaskText(t)
  }

  lemma {:induction false} Pow2Strict(k: nat, n: nat)
    requires k < n
    ensures Pow2(k) < Pow2(n)
  {
    Pow2Monotone(k, n - 1);
  }

  /** Different prefix lengths have different netmasks. */
  lemma NetmaskInjective(p: nat, q: nat)
    requires p <= ADDRESS_BITS && q <= ADDRESS_BITS && Netmask(p) == Netmask(q)
    ensures p == q
  {
    if p < q {
      Pow2Strict(ADDRESS_BITS - q, ADDRESS_BITS - p);
    } else if q < p {
      Pow2Strict(ADDRESS_BITS - p, ADDRESS_BITS - q);
    }
  }

  /** The hostmask of a prefix length from 1 to 31 is no netmask: it is odd and below the all-ones mask. */
  lemma HostmaskIsNoNetmask(p: nat, q: nat)
    requires 1 <= p <= 31 && q <= ADDRESS_BITS
    ensures Netmask(q) != BlockSize(p) - 1
  {
    AddressSpaceIsPow2();
    assert Pow2(ADDRESS_BITS) == 2 * Pow2(31);
    assert BlockSize(p) == 2 * Pow2(ADDRESS_BITS - p - 1);
    if q == ADDRESS_BITS {
      Pow2Monotone(ADDRESS_BITS - p, 31);
    } else {
      assert BlockSize(q) == 2 * Pow2(ADDRESS_BITS - q - 1);
    }
  }

  /** The netmask search finds the prefix length of every netmask. */
  lemma MaskPrefixFinds(p: nat)
    requires p <= ADDRESS_BITS
    ensures MaskPrefix(Netmask(p), ADDRESS_BITS) == Some(p)
  {
    var r := MaskPrefix(Netmask(p), ADDRESS_BITS);
    if r.Some? {
      NetmaskInjective(r.value, p);
    }
  }

  /** A prefix-length suffix names its own value as a mask. */
  lemma MaskDecimal(p: nat)
    requires p <= ADDRESS_BITS
    ensures ParseMask(DecimalText(p)) == Some(p)
  {
    PrefixLengthText(p, "");
  }

  /** A dotted suffix whose value is a netmask names that netmask's prefix length. */
  lemma NetmaskSuffix(t: string, m: nat, p: nat)
    requires ParseAddress(t) == Some(m) && MaskPrefix(m, ADDRESS_BITS) == Some(p)
    ensures ParseMaskText(t) == Some(p)
  {
  }

  /** A dotted suffix whose value is no netmask but inverts to one is read as a hostmask. */
  lemma HostmaskSuffix(t: string, m: nat, q: nat, p: nat)
    requires ParseAddress(t) == Some(m) && MaskPrefix(m, ADDRESS_BITS) == None
    requires q == ADDRESS_SPACE - 1 - m && MaskPrefix(q, ADDRESS_BITS) == Some(p)
    ensures ParseMaskText(t) == Some(p)
  {
  }

  /** A suffix that is no digit string is read as a dotted mask. */
  lemma DottedSuffix(t: string)
    requires !IsDigits(t)
    ensures ParseMask(t) == ParseMaskText(t)
  {
  }

  /** A dotted netmask suffix names the prefix length of that netmask. */
  lemma MaskNetmaskText(p: nat)
    requires p <= ADDRESS_BITS
    ensures ParseMaskText(Format(Netmask(p))) == Some(p)
    ensures ParseMask(Format(Netmask(p))) == Some(p)
  {
    var m := Netmask(p);
    ParseFormat(m);
    FormatNotDigits(m);
    MaskPrefixFinds(p);
    NetmaskSuffix(Format(m), m, p);
    DottedSuffix(Format(m));
  }

  /** The hostmask of a prefix length from 1 to 31 is found only after inverting it. */
  lemma HostmaskPrefix(p: nat)
    requires 1 <= p <= 31
    ensures MaskPrefix(BlockSize(p) - 1, ADDRESS_BITS) == None
    ensures MaskPrefix(ADDRESS_SPACE - 1 - (BlockSize(p) - 1), ADDRESS_BITS) == Some(p)
  {
    var r := MaskPrefix(BlockSize(p) - 1, ADDRESS_BITS);
    if r.Some? {
      HostmaskIsNoNetmask(p, r.value);
    }
    assert ADDRESS_SPACE - 1 - (BlockSize(p) - 1) == Netmask(p);
    MaskPrefixFinds(p);
  }

  /** A dotted hostmask suffix of a prefix length from 1 to 31 names that prefix length. */
  lemma MaskHostmaskText(p: nat)
    requires 1 <= p <= 31
    ensures ParseMaskText(Format(BlockSize(p) - 1)) == Some(p)
    ensures ParseMask(Format(BlockSize(p) - 1)) == Some(p)
  {
    var h := BlockSize(p) - 1;
    ParseFormat(h);
    FormatNotDigits(h);
    HostmaskPrefix(p);
    HostmaskSuffix(Format(h), h, ADDRESS_SPACE - 1 - h, p);
    DottedSuffix(Format(h));
  }

  /** An IPv4 network: its network address and its prefix length. */
  datatype Network = Network(address: nat, prefix: nat)

  /** What strict `ip_network` does with a text: a network, or one of two ways to raise. */
  datatype NetworkResult = Parsed(network: Network) | Malformed | HostBits

  /** `ipaddress.ip_network(s)`, strict, for IPv4. */
  function ParseNetwork(s: string): (r: NetworkResult)
    ensures r.Parsed? ==>
      r.network.address < ADDRESS_SPACE && r.network.prefix <= ADDRESS_BITS &&
      HostBitsClear(r.network.address, r.network.prefix)
  {
    var parts := Split(s, '/');
    if |parts| > 2 then Malformed
    else
      match ParseAddress(parts[0])
      case None => Malformed
      case Some(n) =>
        var mask := if |parts| == 1 then Some(ADDRESS_BITS) else ParseMask(parts[1]);
        match mask
        case None => Malformed
        case Some(p) => if !HostBitsClear(n, p) then HostBits else Parsed(Network(n, p))
  }

  /** `address in network`. */
  predicate Contains(net: Network, a: nat)
    requires net.prefix <= ADDRESS_BITS
    ensures HostBitsClear(net.address, net.prefix) ==>
      (Contains(net, a) <==> net.address <= a < net.address + BlockSize(net.prefix))
  {
    if HostBitsClear(net.address, net.prefix) then
      MaskedMembership(a, net.address, net.prefix);
      Masked(a, net.prefix) == net.address
    else
      Masked(a, net.prefix) == net.address
  }

  lemma DivModUnique(a: nat, b: nat, q: nat, r: nat)
    requires b >= 1 && a == q * b + r && r < b
    ensures a / b == q && a % b == r
  {
    var d := q - a / b;
    assert d * b == a % b - r;
  }

  /**
   * Membership in a block masks the candidate to the network bits: it holds
   * exactly when the candidate lies in [network, network + block size), and
   * exactly when candidate and network agree on their first `prefix` bits.
   */
  lemma MaskedMembership(a: nat, n: nat, prefix: nat)
    requires prefix <= ADDRESS_BITS && HostBitsClear(n, prefix)
    ensures Masked(a, prefix) == n <==> n <= a < n + BlockSize(prefix)
    ensures Masked(a, prefix) == n <==> a / BlockSize(prefix) == n / BlockSize(prefix)
  {
    var b := BlockSize(prefix);
    assert a == a / b * b + a % b;
    assert n == n / b * b;
    if n <= a < n + b {
      DivModUnique(a, b, n / b, a - n);
    }
    if a / b == n / b {
      assert Masked(a, prefix) == a / b * b;
    }
  }
}
