/**
 * Worked cases of the restriction manager on concrete scopes and
 * candidates: the validator's boundaries, membership in a /24, the
 * admission table on small snapshots, and the inputs on which the code
 * raises.
 */
module RestrictionScenarios {
  import opened Text
  import opened Ipv4
  import opened RestrictionManager

  /** The canonical text of an address given by its four octets. */
  lemma QuadText(p: nat, q: nat, r: nat, t: nat)
    requires p < 256 && q < 256 && r < 256 && t < 256
    ensures FromOctets(p, q, r, t) < ADDRESS_SPACE
    ensures Format(FromOctets(p, q, r, t)) ==
      DecimalText(p) + "." + DecimalText(q) + "." + DecimalText(r) + "." + DecimalText(t)
  {
    FromOctetsSplits(p, q, r, t);
    JoinFour(DecimalText(p), DecimalText(q), DecimalText(r), DecimalText(t), '.');
  }

  /** The decimal texts the worked cases use. */
  lemma Decimals()
    ensures DecimalText(0) == "0"
    ensures DecimalText(1) == "1"
    ensures DecimalText(2) == "2"
    ensures DecimalText(5) == "5"
    ensures DecimalText(7) == "7"
    ensures DecimalText(8) == "8"
    ensures DecimalText(10) == "10"
    ensures DecimalText(24) == "24"
    ensures DecimalText(30) == "30"
    ensures DecimalText(31) == "31"
    ensures DecimalText(50) == "50"
    ensures DecimalText(168) == "168"
    ensures DecimalText(192) == "192"
  {
  }

  lemma Text10005()
    ensures Format(FromOctets(10, 0, 0, 5)) == "10.0.0.5"
  {
    QuadText(10, 0, 0, 5);
    Decimals();
    Spelled10005();
  }

  lemma Spelled10005()
    ensures "10" + "." + "0" + "." + "0" + "." + "5" == "10.0.0.5"
  {
  }

  lemma Text10000()
    ensures Format(FromOctets(10, 0, 0, 0)) == "10.0.0.0"
  {
    QuadText(10, 0, 0, 0);
    Decimals();
    Spelled10000();
  }

  lemma Spelled10000()
    ensures "10" + "." + "0" + "." + "0" + "." + "0" == "10.0.0.0"
  {
  }

  lemma Text10015()
    ensures Format(FromOctets(10, 0, 1, 5)) == "10.0.1.5"
  {
    QuadText(10, 0, 1, 5);
    Decimals();
    Spelled10015();
  }

  lemma Spelled10015()
    ensures "10" + "." + "0" + "." + "1" + "." + "5" == "10.0.1.5"
  {
  }

  lemma Text192168_1_0()
    ensures Format(FromOctets(192, 168, 1, 0)) == "192.168.1.0"
  {
    QuadText(192, 168, 1, 0);
    Decimals();
    Spelled192168_1_0();
  }

  lemma Spelled192168_1_0()
    ensures "192" + "." + "168" + "." + "1" + "." + "0" == "192.168.1.0"
  {
  }

  lemma Text192168_1_50()
    ensures Format(FromOctets(192, 168, 1, 50)) == "192.168.1.50"
  {
    QuadText(192, 168, 1, 50);
    Decimals();
    Spelled192168_1_50();
  }

  lemma Spelled192168_1_50()
    ensures "192" + "." + "168" + "." + "1" + "." + "50" == "192.168.1.50"
  {
  }

  lemma Text192168_2_50()
    ensures Format(FromOctets(192, 168, 2, 50)) == "192.168.2.50"
  {
    QuadText(192, 168, 2, 50);
    Decimals();
    Spelled192168_2_50();
  }

  lemma Spelled192168_2_50()
    ensures "192" + "." + "168" + "." + "2" + "." + "50" == "192.168.2.50"
  {
  }

  lemma Block24()
    ensures BlockSize(24) == 256
  {
    assert Pow2(4) == 16;
    Pow2Add(4, 4);
  }

  lemma SpelledScopes()
    ensures "10.0.0.0" + "/" + "24" == "10.0.0.0/24"
    ensures "10.0.0.0" + "/" + "8" == "10.0.0.0/8"
    ensures "10.0.0.0" + "/" + "30" == "10.0.0.0/30"
    ensures "10.0.0.0" + "/" + "7" == "10.0.0.0/7"
    ensures "10.0.0.0" + "/" + "31" == "10.0.0.0/31"
    ensures "10.0.0.0" + "/" + "0" == "10.0.0.0/0"
    ensures "10.0.0.5" + "/" + "24" == "10.0.0.5/24"
    ensures "192.168.1.0" + "/" + "24" == "192.168.1.0/24"
  {
  }

  /** The validator on the boundaries of the admitted prefix lengths. */
  lemma ValidatorExamples()
    ensures IsValidIpOrRange("10.0.0.5") == Ok(true)
    ensures IsValidIpOrRange("10.0.0.0/24") == Ok(true)
    ensures IsValidIpOrRange("10.0.0.0/8") == Ok(true)
    ensures IsValidIpOrRange("10.0.0.0/30") == Ok(true)
    ensures IsValidIpOrRange("10.0.0.0/7") == Ok(false)
    ensures IsValidIpOrRange("10.0.0.0/31") == Ok(false)
    ensures IsValidIpOrRange("10.0.0.0/0") == Ok(false)
  {
    var n := FromOctets(10, 0, 0, 0);
    ValidatorOnAddressText(FromOctets(10, 0, 0, 5), "");
    ValidatorPrefixBounds(n, 24);
    ValidatorPrefixBounds(n, 8);
    ValidatorPrefixBounds(n, 30);
    ValidatorPrefixBounds(n, 7);
    ValidatorPrefixBounds(n, 31);
    ValidatorPrefixBounds(n, 0);
    Text10000();
    Text10005();
    Decimals();
    SpelledScopes();
  }

  /** Text without a dot is no address, so the validator refuses it unless it holds a '/'. */
  lemma NoDotNoAddress(s: string)
    requires '.' !in s
    ensures !IsValidIpAddress(s)
  {
    SplitNoSeparator(s, '.');
  }

  lemma NoDotRefused(s: string)
    requires '.' !in s && '/' !in s
    ensures IsValidIpOrRange(s) == Ok(false)
  {
    NoDotNoAddress(s);
  }

  lemma NameIsNoAddress()
    ensures !IsValidIpAddress("not-an-ip")
  {
    assert '.' !in "not-an-ip";
    NoDotNoAddress("not-an-ip");
  }

  /** A name is refused by the validator. */
  lemma ValidatorRefusesName()
    ensures IsValidIpOrRange("not-an-ip") == Ok(false)
  {
    assert '.' !in "not-an-ip" && '/' !in "not-an-ip";
    NoDotRefused("not-an-ip");
  }

  /** Two '/' make the unpacking in the validator raise. */
  lemma ValidatorRaisesOnTwoSlashes()
    ensures IsValidIpOrRange("10.0.0.0/24/8") == Err(UnpackMismatch)
  {
    var x, y, z := "10.0.0.0", "24", "8";
    assert '/' !in x && '/' !in y && '/' !in z;
    assert x + "/" + y + "/" + z == "10.0.0.0/24/8";
    CountConcat(x, "/", '/');
    CountConcat(x + "/", y, '/');
    CountConcat(x + "/" + y, "/", '/');
    CountConcat(x + "/" + y + "/", z, '/');
  }

  /** A /24 holds the addresses that share its first three octets. */
  lemma MembershipExamples()
    ensures IpInRange("10.0.0.5", "10.0.0.0/24") == Ok(true)
    ensures IpInRange("10.0.1.5", "10.0.0.0/24") == Ok(false)
  {
    Block24();
    var n := FromOctets(10, 0, 0, 0);
    assert n == 167772160 && n % 256 == 0;
    assert FromOctets(10, 0, 0, 5) == 167772165;
    assert FromOctets(10, 0, 1, 5) == 167772421;
    CanonicalCidrMembership(FromOctets(10, 0, 0, 5), n, 24);
    CanonicalCidrMembership(FromOctets(10, 0, 1, 5), n, 24);
    Text10000();
    Text10005();
    Text10015();
    Decimals();
    SpelledScopes();
  }

  lemma PrivateBlockMembership()
    ensures IpInRange("192.168.1.50", "192.168.1.0/24") == Ok(true)
    ensures IpInRange("192.168.2.50", "192.168.1.0/24") == Ok(false)
  {
    Block24();
    var m := FromOctets(192, 168, 1, 0);
    assert m == 3232235776 && m % 256 == 0;
    assert FromOctets(192, 168, 1, 50) == 3232235826;
    assert FromOctets(192, 168, 2, 50) == 3232236082;
    CanonicalCidrMembership(FromOctets(192, 168, 1, 50), m, 24);
    CanonicalCidrMembership(FromOctets(192, 168, 2, 50), m, 24);
    Text192168_1_0();
    Text192168_1_50();
    Text192168_2_50();
    Decimals();
    SpelledScopes();
  }

  /** A scope the validator accepts on which the membership test raises. */
  lemma HostBitsGap()
    ensures IsValidScope("10.0.0.5/24")
    ensures IpInRange("10.0.0.5", "10.0.0.5/24") == Err(HostBitsSet)
  {
    var a := FromOctets(10, 0, 0, 5);
    CidrScopeText(a, 24);
    Block24();
    assert a == 167772165;
    assert !HostBitsClear(a, 24);
    CanonicalCidrMembership(a, a, 24);
    Text10005();
    Decimals();
    SpelledScopes();
  }

  /** A snapshot of one allow rule admits exactly what that rule's test answers. */
  lemma OneAllowRule(scope: string, inRange: string -> Result<bool>)
    ensures Decide([Rule(scope, ALLOW_TYPE)], inRange) == inRange(scope)
  {
    var rules := [Rule(scope, ALLOW_TYPE)];
    AllowOnlyDecides(rules, inRange);
    ScanFrom(rules, 0, inRange);
    assert rules[0..] == rules && rules[1..] == [];
  }

  /** Two allow rules: the second is consulted only when the first answers false. */
  lemma TwoAllowRules(first: string, second: string, inRange: string -> Result<bool>)
    ensures Decide([Rule(first, ALLOW_TYPE), Rule(second, ALLOW_TYPE)], inRange) ==
      if inRange(first) == Ok(false) then inRange(second) else inRange(first)
  {
    var rules := [Rule(first, ALLOW_TYPE), Rule(second, ALLOW_TYPE)];
    AllowOnlyDecides(rules, inRange);
    ScanFrom(rules, 0, inRange);
    ScanFrom(rules, 1, inRange);
    assert rules[0..] == rules && rules[2..] == [];
  }

  /** One allow rule for a /24: addresses inside are admitted, others refused. */
  lemma AllowListScenario()
    ensures Decide([Rule("192.168.1.0/24", ALLOW_TYPE)], Membership("192.168.1.50")) == Ok(true)
    ensures Decide([Rule("192.168.1.0/24", ALLOW_TYPE)], Membership("192.168.2.50")) == Ok(false)
  {
    PrivateBlockMembership();
    OneAllowRule("192.168.1.0/24", Membership("192.168.1.50"));
    OneAllowRule("192.168.1.0/24", Membership("192.168.2.50"));
  }

  /** An address that is both allowed and blocked is refused: the block rule wins. */
  lemma AllowedAndBlocked(host: string, inRange: string -> Result<bool>)
    requires inRange == Membership(host) && '/' !in host
    ensures Decide([Rule(host, ALLOW_TYPE), Rule(host, BLOCK_TYPE)], inRange) == Ok(false)
  {
    var rules := [Rule(host, ALLOW_TYPE), Rule(host, BLOCK_TYPE)];
    assert rules[1..][1..] == [];
    assert Gather(rules, ALLOW_TYPE) == [rules[0]];
    assert Gather(rules, BLOCK_TYPE) == [rules[1]];
    ScanFrom([rules[0]], 0, inRange);
    ScanFrom([rules[1]], 0, inRange);
  }

  /** The same address allowed and blocked: the block rule wins. */
  lemma BlockWinsScenario()
    ensures Decide([Rule("10.0.0.5", ALLOW_TYPE), Rule("10.0.0.5", BLOCK_TYPE)], Membership("10.0.0.5")) == Ok(false)
  {
    AllowedAndBlocked("10.0.0.5", Membership("10.0.0.5"));
  }

  /** A candidate that is no address, against one CIDR allow rule, makes the scan raise. */
  lemma NonAddressAgainstCidr(scope: string, ip: string, inRange: string -> Result<bool>)
    requires inRange == Membership(ip) && '/' in scope && !IsValidIpAddress(ip)
    ensures Decide([Rule(scope, ALLOW_TYPE)], inRange) == Err(CandidateNotAddress)
  {
    OneAllowRule(scope, inRange);
  }

  /** A candidate that is no address, against a CIDR allow rule, makes `allow` raise. */
  lemma UnparseableCandidateScenario()
    ensures Decide([Rule("10.0.0.0/24", ALLOW_TYPE)], Membership("not-an-ip")) == Err(CandidateNotAddress)
  {
    NameIsNoAddress();
    NonAddressAgainstCidr("10.0.0.0/24", "not-an-ip", Membership("not-an-ip"));
  }

  /** A bare address in canonical text passes the validator. */
  lemma HostScopeValid()
    ensures IsValidScope("10.0.0.5")
  {
    ValidatorOnAddressText(FromOctets(10, 0, 0, 5), "");
    Text10005();
  }

  /** The validator accepts a /24 whose address has host bits set. */
  lemma HostBitsScopeValid()
    ensures IsValidScope("10.0.0.5/24")
  {
    CidrScopeText(FromOctets(10, 0, 0, 5), 24);
    Text10005();
    Decimals();
    SpelledScopes();
  }

  lemma HostRuleFirst()
    ensures Decide([Rule("10.0.0.5", ALLOW_TYPE), Rule("10.0.0.5/24", ALLOW_TYPE)], Membership("10.0.0.5")) == Ok(true)
  {
    FirstRuleMatches("10.0.0.5", "10.0.0.5/24", Membership("10.0.0.5"));
  }

  lemma FirstRuleMatches(first: string, second: string, inRange: string -> Result<bool>)
    requires inRange == Membership(first) && '/' !in first
    ensures Decide([Rule(first, ALLOW_TYPE), Rule(second, ALLOW_TYPE)], inRange) == Ok(true)
  {
    TwoAllowRules(first, second, inRange);
  }

  lemma CidrRuleFirst()
    ensures Decide([Rule("10.0.0.5/24", ALLOW_TYPE), Rule("10.0.0.5", ALLOW_TYPE)], Membership("10.0.0.5")) == Err(HostBitsSet)
  {
    HostBitsGap();
    TwoAllowRules("10.0.0.5/24", "10.0.0.5", Membership("10.0.0.5"));
  }

  lemma TwoRulesValidated(first: string, second: string, kind: int)
    requires IsValidScope(first) && IsValidScope(second)
    ensures Validated([Rule(first, kind), Rule(second, kind)])
  {
  }

  lemma BothScopesValid()
    ensures Validated([Rule("10.0.0.5", ALLOW_TYPE), Rule("10.0.0.5/24", ALLOW_TYPE)])
  {
    HostScopeValid();
    HostBitsScopeValid();
    TwoRulesValidated("10.0.0.5", "10.0.0.5/24", ALLOW_TYPE);
  }

  /**
   * Order independence needs every test to succeed: with a scope that has
   * host bits set, the allow scan that meets the host rule first admits,
   * and the one that meets the CIDR rule first raises.
   */
  lemma OrderMattersWhenScopeRaises()
    ensures var first := [Rule("10.0.0.5", ALLOW_TYPE), Rule("10.0.0.5/24", ALLOW_TYPE)];
      var second := [Rule("10.0.0.5/24", ALLOW_TYPE), Rule("10.0.0.5", ALLOW_TYPE)];
      Validated(first) && multiset(first) == multiset(second) &&
      Decide(first, Membership("10.0.0.5")) == Ok(true) &&
      Decide(second, Membership("10.0.0.5")) == Err(HostBitsSet)
  {
    BothScopesValid();
    HostRuleFirst();
    CidrRuleFirst();
  }
}
