/**
 * The access decision of SnitchDNS's `RestrictionManager`: validation of a
 * rule's address scope, membership of a candidate address in a scope, and
 * the reconciliation of a zone's enabled allow and block rules into one
 * verdict.
 *
 * The rule store is replaced by the snapshot of enabled rules it would
 * return. Python exceptions that the code lets escape become `Err` results.
 */
module RestrictionManager {
  import opened Wrappers
  import opened Text
  import opened Ipv4

  /** Type code of an allow rule. */
  const ALLOW_TYPE: int := 1
  /** Type code of a block rule. */
  const BLOCK_TYPE: int := 2
  /** The smallest and largest prefix length a scope may carry. */
  const MIN_PREFIX: nat := 8
  const MAX_PREFIX: nat := 30

  /** The exceptions the core lets escape. */
  datatype Error =
    | UnpackMismatch       // `ip, bits = ip_range.split('/')` on more than one '/'
    | CandidateNotAddress  // `ipaddress.ip_address(ip)` on a text that is no address
    | ScopeNotNetwork      // `ipaddress.ip_network(ip_range)` on a text that is no network
    | HostBitsSet          // strict `ipaddress.ip_network(ip_range)` on a scope with host bits set

  datatype Result<+T> = Ok(value: T) | Err(error: Error)

  /** One enabled restriction of a zone: its scope text and its type code. */
  datatype Rule = Rule(ipRange: string, kind: int)

  /**
   * `__is_valid_ip_address`: `ipaddress.ip_address` accepts the text, which
   * happens exactly on the canonical texts of 32-bit values.
   */
  predicate IsValidIpAddress(ip: string)
    ensures IsValidIpAddress(ip) <==> exists a: nat :: a < ADDRESS_SPACE && Format(a) == ip
  {
    AcceptedTexts(ip);
    ParseAddress(ip).Some?
  }

  /** The text after '/' is a prefix length the product admits. */
  predicate IsAdmittedPrefix(bits: string) {
    IsDigits(bits) && MIN_PREFIX <= DecimalValue(bits) <= MAX_PREFIX
  }

  /** `is_valid_ip_or_range`. */
  function IsValidIpOrRange(ipRange: string): (r: Result<bool>)
    ensures r.Err? <==> Count(ipRange, '/') >= 2
    ensures r.Err? ==> r.error == UnpackMismatch
    ensures Count(ipRange, '/') == 0 ==> r == Ok(IsValidIpAddress(ipRange))
    ensures Count(ipRange, '/') == 1 ==>
      r == Ok(IsValidIpAddress(Before(ipRange, '/')) && IsAdmittedPrefix(After(ipRange, '/')))
  {
    if '/' in ipRange then
      var parts := Split(ipRange, '/');
      if |parts| != 2 then Err(UnpackMismatch)
      else
        SplitSingle(ipRange, '/');
        var ip, bits := parts[0], parts[1];
        if !IsValidIpAddress(ip) then Ok(false)
        else if !IsDigits(bits) then Ok(false)
        else if DecimalValue(bits) < MIN_PREFIX || DecimalValue(bits) > MAX_PREFIX then Ok(false)
        else Ok(true)
    else
      Ok(IsValidIpAddress(ipRange))
  }

  /**
   * On an address in canonical text, the validator accepts the bare address,
   * and accepts it with a '/' suffix exactly when the suffix is an admitted
   * prefix length.
   */
  lemma ValidatorOnAddressText(a: nat, bits: string)
    requires a < ADDRESS_SPACE && '/' !in bits
    ensures IsValidIpOrRange(Format(a)) == Ok(true)
    ensures IsValidIpOrRange(Format(a) + "/" + bits) == Ok(IsAdmittedPrefix(bits))
  {
    FormatAvoids(a, '/');
    ParseFormat(a);
    var x := Format(a);
    CountAfterFirst(x, bits, '/');
    IndexOfFirst(x, bits, '/');
    var s := x + "/" + bits;
    assert Count(s, '/') == 1;
    assert Before(s, '/') == x;
    assert After(s, '/') == bits;
  }

  /** A CIDR scope written as canonical address, '/', prefix length: its parts as the membership test reads them. */
  lemma CidrScopeText(n: nat, prefix: nat)
    requires n < ADDRESS_SPACE && MIN_PREFIX <= prefix <= MAX_PREFIX
    ensures var s := Format(n) + "/" + DecimalText(prefix);
      IsValidScope(s) && '/' in s && ScopeNetwork(s) == n && ScopePrefix(s) == prefix
  {
    var x, y := Format(n), DecimalText(prefix);
    var s := x + "/" + y;
    DigitsAvoid(y, '/');
    FormatAvoids(n, '/');
    DecimalRoundTrip(prefix);
    assert IsAdmittedPrefix(y);
    ValidatorOnAddressText(n, y);
    IndexOfFirst(x, y, '/');
    assert s[|x|] == '/';
    assert Before(s, '/') == x;
    assert After(s, '/') == y;
    ParseFormat(n);
  }

  /** Prefix lengths 8 to 30 are admitted; /7, /31 and every other length are not. */
  lemma ValidatorPrefixBounds(a: nat, prefix: nat)
    requires a < ADDRESS_SPACE
    ensures IsValidIpOrRange(Format(a) + "/" + DecimalText(prefix)) == Ok(MIN_PREFIX <= prefix <= MAX_PREFIX)
  {
    DigitsAvoid(DecimalText(prefix), '/');
    ValidatorOnAddressText(a, DecimalText(prefix));
    DecimalRoundTrip(prefix);
  }

  /** A scope that passed the validator, as every stored rule's scope has. */
  predicate IsValidScope(ipRange: string) {
    IsValidIpOrRange(ipRange) == Ok(true)
  }

  /** The network address of a validated CIDR scope. */
  function ScopeNetwork(ipRange: string): (n: nat)
    requires IsValidScope(ipRange) && '/' in ipRange
    ensures n < ADDRESS_SPACE
  {
    ParseAddress(Before(ipRange, '/')).value
  }

  /** The prefix length of a validated CIDR scope. */
  function ScopePrefix(ipRange: string): (bits: nat)
    requires IsValidScope(ipRange) && '/' in ipRange
    ensures MIN_PREFIX <= bits <= MAX_PREFIX
  {
    DecimalValue(After(ipRange, '/'))
  }


  /**
   * `ip_in_range`: a host scope is compared as raw text; for a CIDR scope the
   * candidate is parsed first, then the scope as a strict network, and the
   * candidate is tested for membership.
   */
  function IpInRange(ip: string, ipRange: string): (r: Result<bool>)
    ensures '/' !in ipRange ==> r == Ok(ip == ipRange)
    ensures '/' in ipRange ==> (r == Err(CandidateNotAddress) <==> !IsValidIpAddress(ip))
  {
    if '/' in ipRange then
      match ParseAddress(ip)
      case None => Err(CandidateNotAddress)
      case Some(a) =>
        match ParseNetwork(ipRange)
        case Malformed => Err(ScopeNotNetwork)
        case HostBits => Err(HostBitsSet)
        case Parsed(net) => Ok(Contains(net, a))
    else
      Ok(ip == ipRange)
  }

  /** A validated CIDR scope always parses as a network, unless host bits are set in it. */
  lemma ValidScopeNetwork(ipRange: string)
    requires IsValidScope(ipRange) && '/' in ipRange
    ensures ParseNetwork(ipRange) ==
      if HostBitsClear(ScopeNetwork(ipRange), ScopePrefix(ipRange))
      then Parsed(Network(ScopeNetwork(ipRange), ScopePrefix(ipRange)))
      else HostBits
  {
    SplitSingle(ipRange, '/');
    var parts := Split(ipRange, '/');
    assert |parts| == 2 && parts[0] == Before(ipRange, '/') && parts[1] == After(ipRange, '/');
    var n, p := ScopeNetwork(ipRange), ScopePrefix(ipRange);
    assert ParseAddress(parts[0]) == Some(n);
    assert ParsePrefixLength(parts[1]) == Some(p);
    assert ParseMask(parts[1]) == Some(p);
  }

  /**
   * Membership in a validated CIDR scope: it raises only when the candidate
   * is no address or the scope has host bits set; otherwise the candidate is
   * inside exactly when it lies in the block, that is, when its first
   * `prefix` bits are those of the network address.
   */
  lemma CidrMembership(ip: string, ipRange: string)
    requires IsValidScope(ipRange) && '/' in ipRange && IsValidIpAddress(ip)
    ensures var n, p, a := ScopeNetwork(ipRange), ScopePrefix(ipRange), ParseAddress(ip).value;
      IpInRange(ip, ipRange) ==
        if !HostBitsClear(n, p) then Err(HostBitsSet) else Ok(n <= a < n + BlockSize(p))
    ensures var n, p, a := ScopeNetwork(ipRange), ScopePrefix(ipRange), ParseAddress(ip).value;
      HostBitsClear(n, p) ==> IpInRange(ip, ipRange) == Ok(a / BlockSize(p) == n / BlockSize(p))
  {
    ValidScopeNetwork(ipRange);
    if HostBitsClear(ScopeNetwork(ipRange), ScopePrefix(ipRange)) {
      MaskedMembership(ParseAddress(ip).value, ScopeNetwork(ipRange), ScopePrefix(ipRange));
    }
  }

  /** Membership of a canonical address in a CIDR scope written in canonical text. */
  lemma CanonicalCidrMembership(a: nat, n: nat, prefix: nat)
    requires a < ADDRESS_SPACE && n < ADDRESS_SPACE && MIN_PREFIX <= prefix <= MAX_PREFIX
    ensures IpInRange(Format(a), Format(n) + "/" + DecimalText(prefix)) ==
      if !HostBitsClear(n, prefix) then Err(HostBitsSet) else Ok(n <= a < n + BlockSize(prefix))
  {
    CidrScopeText(n, prefix);
    ParseFormat(a);
    CidrMembership(Format(a), Format(n) + "/" + DecimalText(prefix));
  }

  /**
   * For a validated host scope the raw text comparison is address equality:
   * strict IPv4 parsing admits one text per address, so no canonicalisation
   * is missed.
   */
  lemma HostScopeIsAddressEquality(ip: string, ipRange: string)
    requires IsValidScope(ipRange) && '/' !in ipRange
    ensures IpInRange(ip, ipRange) == Ok(IsValidIpAddress(ip) && ParseAddress(ip) == ParseAddress(ipRange))
  {
    if IsValidIpAddress(ip) && ParseAddress(ip) == ParseAddress(ipRange) {
      ParseInjective(ip, ipRange);
    }
  }

  /** `restrictions.gather(kind)`: the rules of one type code, in snapshot order. */
  function Gather(rules: seq<Rule>, kind: int): (r: seq<Rule>)
    ensures forall x :: x in r <==> x in rules && x.kind == kind
    ensures |r| <= |rules|
  {
    if |rules| == 0 then []
    else (if rules[0].kind == kind then [rules[0]] else []) + Gather(rules[1..], kind)
  }

  /** The membership test `allow` applies to every rule scope: `ip_in_range(ip, scope)`. */
  function Membership(ip: string): string -> Result<bool> {
    ipRange => IpInRange(ip, ipRange)
  }

  /**
   * The outcome of one `for rule in ...: if ip_in_range(...): break` loop of
   * `allow`, for a membership test `inRange`: the first test that does not
   * answer false decides, whether it answers true or raises.
   */
  function ScanRules(rules: seq<Rule>, inRange: string -> Result<bool>): (r: Result<bool>)
    ensures r == Ok(false) <==> forall i :: 0 <= i < |rules| ==> inRange(rules[i].ipRange) == Ok(false)
    ensures r != Ok(false) ==>
      exists i :: 0 <= i < |rules| && inRange(rules[i].ipRange) == r &&
        forall j :: 0 <= j < i ==> inRange(rules[j].ipRange) == Ok(false)
  {
    if |rules| == 0 then Ok(false)
    else
      var m := inRange(rules[0].ipRange);
      if m != Ok(false) then m
      else
        var rest := ScanRules(rules[1..], inRange);
        assert forall i :: 1 <= i < |rules| ==> rules[1..][i - 1] == rules[i];
        rest
  }

  /** The verdict `allow` reaches on a snapshot of enabled rules with membership test `inRange`. */
  function Decide(rules: seq<Rule>, inRange: string -> Result<bool>): (r: Result<bool>)
    ensures |rules| == 0 ==> r == Ok(true)
    ensures r.Err? ==> exists x :: x in rules && inRange(x.ipRange) == r
  {
    if |rules| == 0 then Ok(true)
    else
      var allowRules := Gather(rules, ALLOW_TYPE);
      var blockRules := Gather(rules, BLOCK_TYPE);
      var allowScan := ScanRules(allowRules, inRange);
      if |allowRules| > 0 && allowScan.Err? then allowScan
      else if |allowRules| > 0 && !allowScan.value then Ok(false)
      else if |blockRules| == 0 then Ok(true)
      else
        match ScanRules(blockRules, inRange)
        case Err(e) => Err(e)
        case Ok(blocked) => Ok(!blocked)
  }

  /** Some rule of type code `kind` exists. */
  ghost predicate HasKind(rules: seq<Rule>, kind: int) {
    exists x :: x in rules && x.kind == kind
  }

  /** Some rule of type code `kind` contains the candidate. */
  ghost predicate MatchesKind(rules: seq<Rule>, kind: int, inRange: string -> Result<bool>) {
    exists x :: x in rules && x.kind == kind && inRange(x.ipRange) == Ok(true)
  }

  /** Every membership test on a rule of type code `kind` answers without raising. */
  ghost predicate NoErrorsOn(rules: seq<Rule>, kind: int, inRange: string -> Result<bool>) {
    forall x :: x in rules && x.kind == kind ==> inRange(x.ipRange).Ok?
  }

  ghost predicate NoErrors(rules: seq<Rule>, inRange: string -> Result<bool>) {
    NoErrorsOn(rules, ALLOW_TYPE, inRange) && NoErrorsOn(rules, BLOCK_TYPE, inRange)
  }

  /**
   * The intended decision table: the four rows that admit. Every other
   * combination refuses.
   */
  ghost predicate DecisionTable(allowPresent: bool, allowMatch: bool, blockPresent: bool, blockMatch: bool) {
    || (!allowPresent && !blockPresent)
    || (!allowPresent && blockPresent && !blockMatch)
    || (allowPresent && allowMatch && !blockPresent)
    || (allowPresent && allowMatch && blockPresent && !blockMatch)
  }

  /** The table row a snapshot and a membership test select. */
  ghost predicate TableVerdict(rules: seq<Rule>, inRange: string -> Result<bool>) {
    DecisionTable(HasKind(rules, ALLOW_TYPE), MatchesKind(rules, ALLOW_TYPE, inRange),
                  HasKind(rules, BLOCK_TYPE), MatchesKind(rules, BLOCK_TYPE, inRange))
  }

  /**
   * One `for rule in rules: if self.ip_in_range(ip, rule.ip_range): ... break`
   * loop of `allow`, with `inRange` the membership test of the candidate: the
   * answer of the first test that does not answer false, or false when every
   * test does.
   */
  method FindMatch(rules: seq<Rule>, inRange: string -> Result<bool>) returns (r: Result<bool>)
    ensures r == ScanRules(rules, inRange)
  {
    var i := 0;
    assert rules[i..] == rules;
    while i < |rules|
      invariant 0 <= i <= |rules|
      invariant ScanRules(rules[i..], inRange) == ScanRules(rules, inRange)
    {
      ScanFrom(rules, i, inRange);
      var m := inRange(rules[i].ipRange);
      if m.Err? {
        return m;
      }
      if m.value {
        return Ok(true);
      }
      i := i + 1;
    }
    return Ok(false);
  }

  /** `allow(zone_id, ip)` over the zone's snapshot of enabled rules. */
  method Allow(rules: seq<Rule>, ip: string) returns (r: Result<bool>)
    ensures r == Decide(rules, Membership(ip))
    ensures |rules| == 0 ==> r == Ok(true)
    ensures NoErrors(rules, Membership(ip)) ==> r == Ok(TableVerdict(rules, Membership(ip)))
  {
    if NoErrors(rules, Membership(ip)) {
      DecideFollowsTable(rules, Membership(ip));
    }
    if |rules| == 0 {
      return Ok(true);
    }

    var allow := false;
    var allowRules := Gather(rules, ALLOW_TYPE);
    var blockRules := Gather(rules, BLOCK_TYPE);

    if |allowRules| > 0 {
      var found := FindMatch(allowRules, Membership(ip));
      if found.Err? {
        return found;
      }
      allow := found.value;
      // With allow rules present, a candidate none of them contains is refused outright.
      if !allow {
        return Ok(false);
      }
    } else {
      allow := true;
    }

    if |blockRules| > 0 {
      var found := FindMatch(blockRules, Membership(ip));
      if found.Err? {
        return found;
      }
      if found.value {
        allow := false;
      }
    } else {
      allow := true;
    }
    return Ok(allow);
  }

  /** One step of the scan loop: the test at position `i` decides, or the scan goes on at `i + 1`. */
  lemma ScanFrom(rules: seq<Rule>, i: nat, inRange: string -> Result<bool>)
    requires i < |rules|
    ensures var m := inRange(rules[i].ipRange);
      ScanRules(rules[i..], inRange) == if m != Ok(false) then m else ScanRules(rules[i + 1..], inRange)
  {
    assert rules[i..][0] == rules[i];
    assert rules[i..][1..] == rules[i + 1..];
  }

  /** Scanning the rules of one type code finds a match exactly when one exists, when nothing raises. */
  lemma {:induction false} ScanGathered(rules: seq<Rule>, kind: int, inRange: string -> Result<bool>)
    requires NoErrorsOn(rules, kind, inRange)
    ensures ScanRules(Gather(rules, kind), inRange) == Ok(MatchesKind(rules, kind, inRange))
  {
    if |rules| > 0 {
      var head, rest := rules[0], rules[1..];
      assert forall x :: x in rest ==> x in rules;
      ScanGathered(rest, kind, inRange);
      assert rules == [head] + rest;
      var headMatches := head.kind == kind && inRange(head.ipRange) == Ok(true);
      if MatchesKind(rules, kind, inRange) && !headMatches {
        var x :| x in rules && x.kind == kind && inRange(x.ipRange) == Ok(true);
        assert x in rest;
      }
      assert MatchesKind(rules, kind, inRange) == (headMatches || MatchesKind(rest, kind, inRange));
      var g, g' := Gather(rules, kind), Gather(rest, kind);
      if head.kind == kind {
        assert head in rules;
        var m := inRange(head.ipRange);
        assert m.Ok?;
        assert g == [head] + g';
        ScanFrom(g, 0, inRange);
        assert g[0] == head && g[0..] == g && g[1..] == g';
        if m.value {
          assert m == Ok(true) && ScanRules(g, inRange) == m;
        } else {
          assert m == Ok(false) && ScanRules(g, inRange) == ScanRules(g', inRange);
        }
      } else {
        assert g == g';
      }
    }
  }

  lemma GatherEmpty(rules: seq<Rule>, kind: int)
    ensures |Gather(rules, kind)| > 0 <==> HasKind(rules, kind)
  {
    var g := Gather(rules, kind);
    if |g| > 0 {
      assert g[0] in g;
    }
  }

  /** When no membership test raises, `allow` answers exactly as the decision table. */
  lemma DecideFollowsTable(rules: seq<Rule>, inRange: string -> Result<bool>)
    requires NoErrors(rules, inRange)
    ensures Decide(rules, inRange) == Ok(TableVerdict(rules, inRange))
  {
    ScanGathered(rules, ALLOW_TYPE, inRange);
    ScanGathered(rules, BLOCK_TYPE, inRange);
    GatherEmpty(rules, ALLOW_TYPE);
    GatherEmpty(rules, BLOCK_TYPE);
    if |rules| == 0 {
      assert !HasKind(rules, ALLOW_TYPE) && !HasKind(rules, BLOCK_TYPE);
    }
  }

  /** Gathering a snapshot of one type code keeps all of it, and gathering another keeps nothing. */
  lemma {:induction false} GatherUniform(rules: seq<Rule>, kind: int, other: int)
    requires forall i :: 0 <= i < |rules| ==> rules[i].kind == kind
    ensures Gather(rules, kind) == rules
    ensures other != kind ==> Gather(rules, other) == []
  {
    if |rules| > 0 {
      GatherUniform(rules[1..], kind, other);
      assert rules == [rules[0]] + rules[1..];
    }
  }

  /** With allow rules only, the verdict is the outcome of the allow scan. */
  lemma AllowOnlyDecides(rules: seq<Rule>, inRange: string -> Result<bool>)
    requires |rules| > 0 && forall i :: 0 <= i < |rules| ==> rules[i].kind == ALLOW_TYPE
    ensures Decide(rules, inRange) == ScanRules(rules, inRange)
  {
    GatherUniform(rules, ALLOW_TYPE, BLOCK_TYPE);
  }

  /**
   * Once an allow rule exists, a candidate that none of them contains is
   * refused, whatever the block rules are: they are not consulted, so even
   * tests that would raise on them do not matter.
   */
  lemma AllowListGates(rules: seq<Rule>, inRange: string -> Result<bool>)
    requires HasKind(rules, ALLOW_TYPE)
    requires forall x :: x in rules && x.kind == ALLOW_TYPE ==> inRange(x.ipRange) == Ok(false)
    ensures Decide(rules, inRange) == Ok(false)
  {
    GatherEmpty(rules, ALLOW_TYPE);
    var g := Gather(rules, ALLOW_TYPE);
    forall i | 0 <= i < |g|
      ensures inRange(g[i].ipRange) == Ok(false)
    {
      assert g[i] in g;
    }
    assert ScanRules(g, inRange) == Ok(false);
    assert |rules| > 0 && |g| > 0;
  }

  /** Without allow rules, a candidate is admitted exactly when no block rule contains it. */
  lemma BlockListOnly(rules: seq<Rule>, inRange: string -> Result<bool>)
    requires !HasKind(rules, ALLOW_TYPE) && NoErrorsOn(rules, BLOCK_TYPE, inRange)
    ensures Decide(rules, inRange) == Ok(!MatchesKind(rules, BLOCK_TYPE, inRange))
  {
    GatherEmpty(rules, ALLOW_TYPE);
    GatherEmpty(rules, BLOCK_TYPE);
    ScanGathered(rules, BLOCK_TYPE, inRange);
    if |rules| == 0 {
      assert !MatchesKind(rules, BLOCK_TYPE, inRange);
    }
  }

  /**
   * A candidate that an allow rule contains is admitted exactly when no block
   * rule contains it: a block rule overrides an allow rule.
   */
  lemma BlockOverridesAllow(rules: seq<Rule>, inRange: string -> Result<bool>)
    requires NoErrors(rules, inRange) && MatchesKind(rules, ALLOW_TYPE, inRange)
    ensures Decide(rules, inRange) == Ok(!MatchesKind(rules, BLOCK_TYPE, inRange))
  {
    DecideFollowsTable(rules, inRange);
  }

  /**
   * Rules whose type code is neither allow nor block restrict nothing: a
   * snapshot holding only such rules admits every candidate.
   */
  lemma OtherTypeCodesAdmit(rules: seq<Rule>, inRange: string -> Result<bool>)
    requires !HasKind(rules, ALLOW_TYPE) && !HasKind(rules, BLOCK_TYPE)
    ensures Decide(rules, inRange) == Ok(true)
  {
    GatherEmpty(rules, ALLOW_TYPE);
    GatherEmpty(rules, BLOCK_TYPE);
  }

  /**
   * The order of the snapshot does not change the verdict as long as no
   * membership test raises: the early `break`s only cut the scans short.
   */
  lemma OrderIndependent(rules: seq<Rule>, permuted: seq<Rule>, inRange: string -> Result<bool>)
    requires multiset(rules) == multiset(permuted) && NoErrors(rules, inRange)
    ensures Decide(rules, inRange) == Decide(permuted, inRange)
  {
    assert forall x :: x in rules <==> x in permuted by {
      forall x ensures x in rules <==> x in permuted {
        assert x in rules <==> x in multiset(rules);
        assert x in permuted <==> x in multiset(permuted);
      }
    }
    assert |rules| == |multiset(rules)| == |permuted|;
    DecideFollowsTable(rules, inRange);
    DecideFollowsTable(permuted, inRange);
    assert HasKind(rules, ALLOW_TYPE) == HasKind(permuted, ALLOW_TYPE);
    assert HasKind(rules, BLOCK_TYPE) == HasKind(permuted, BLOCK_TYPE);
    assert MatchesKind(rules, ALLOW_TYPE, inRange) == MatchesKind(permuted, ALLOW_TYPE, inRange);
    assert MatchesKind(rules, BLOCK_TYPE, inRange) == MatchesKind(permuted, BLOCK_TYPE, inRange);
  }

  /** Every rule of the snapshot carries a scope that passed the validator. */
  ghost predicate Validated(rules: seq<Rule>) {
    forall x :: x in rules ==> IsValidScope(x.ipRange)
  }

  /** Some rule of type code `kind` has a CIDR scope. */
  ghost predicate HasCidrKind(rules: seq<Rule>, kind: int) {
    exists x :: x in rules && x.kind == kind && '/' in x.ipRange
  }

  /**
   * A scan in which every test answers false or raises one and the same
   * error raises exactly when some test raises.
   */
  lemma ScanFalseOrError(rules: seq<Rule>, inRange: string -> Result<bool>, e: Error)
    requires forall i :: 0 <= i < |rules| ==> inRange(rules[i].ipRange) == Ok(false) || inRange(rules[i].ipRange) == Err(e)
    ensures ScanRules(rules, inRange) ==
      if exists i :: 0 <= i < |rules| && inRange(rules[i].ipRange) == Err(e) then Err(e) else Ok(false)
  {
  }

  /**
   * A candidate that is no address matches no validated host scope, and
   * makes the first CIDR scope scanned raise: `allow` raises when the scan
   * it reaches holds a CIDR rule, and otherwise refuses when allow rules
   * exist and admits when none do.
   */
  lemma UnparseableCandidate(rules: seq<Rule>, ip: string)
    requires Validated(rules) && !IsValidIpAddress(ip)
    ensures Decide(rules, Membership(ip)) ==
      if HasKind(rules, ALLOW_TYPE) then
        (if HasCidrKind(rules, ALLOW_TYPE) then Err(CandidateNotAddress) else Ok(false))
      else if HasCidrKind(rules, BLOCK_TYPE) then Err(CandidateNotAddress)
      else Ok(true)
  {
    var inRange := Membership(ip);
    forall x | x in rules
      ensures inRange(x.ipRange) == if '/' in x.ipRange then Err(CandidateNotAddress) else Ok(false)
    {
      if '/' !in x.ipRange {
        assert IsValidIpAddress(x.ipRange);
        assert ip != x.ipRange;
      }
    }
    GatherEmpty(rules, ALLOW_TYPE);
    GatherEmpty(rules, BLOCK_TYPE);
    CidrScan(rules, ALLOW_TYPE, inRange, CandidateNotAddress);
    CidrScan(rules, BLOCK_TYPE, inRange, CandidateNotAddress);
  }

  /** Scanning the rules of one type code when CIDR scopes raise `e` and host scopes answer false. */
  lemma CidrScan(rules: seq<Rule>, kind: int, inRange: string -> Result<bool>, e: Error)
    requires forall x :: x in rules ==> inRange(x.ipRange) == if '/' in x.ipRange then Err(e) else Ok(false)
    ensures ScanRules(Gather(rules, kind), inRange) == if HasCidrKind(rules, kind) then Err(e) else Ok(false)
  {
    var g := Gather(rules, kind);
    forall i | 0 <= i < |g|
      ensures inRange(g[i].ipRange) == if '/' in g[i].ipRange then Err(e) else Ok(false)
    {
      assert g[i] in g;
    }
    ScanFalseOrError(g, inRange, e);
    if HasCidrKind(rules, kind) {
      var x :| x in rules && x.kind == kind && '/' in x.ipRange;
      assert x in g;
      var i :| 0 <= i < |g| && g[i] == x;
      assert inRange(g[i].ipRange) == Err(e);
    } else {
      forall i | 0 <= i < |g|
        ensures inRange(g[i].ipRange) == Ok(false)
      {
        assert g[i] in g;
      }
    }
  }

  /**
   * A candidate that is an address never makes a validated scope raise,
   * unless the scope is a CIDR block with host bits set.
   */
  lemma CleanInputsNeverRaise(rules: seq<Rule>, ip: string)
    requires IsValidIpAddress(ip)
    requires forall x :: x in rules ==>
      IsValidScope(x.ipRange) && ('/' in x.ipRange ==> HostBitsClear(ScopeNetwork(x.ipRange), ScopePrefix(x.ipRange)))
    ensures NoErrors(rules, Membership(ip))
  {
    forall x | x in rules && '/' in x.ipRange
      ensures IpInRange(ip, x.ipRange).Ok?
    {
      CidrMembership(ip, x.ipRange);
    }
  }
}
