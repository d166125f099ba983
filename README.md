# SnitchDNS restriction manager, modelled in Dafny

SnitchDNS lets each DNS zone carry access rules. Each rule is a scope
(one address, or a CIDR block) and a type code: 1 allows the scope and 2
blocks it. `RestrictionManager` does three things:

- It validates a scope before it is stored (`is_valid_ip_or_range`).
- It tests whether a candidate address lies in a scope (`ip_in_range`).
- It reconciles a zone's enabled rules into one admit/refuse verdict
  (`allow`).

This project models those three operations and proves what they promise.

The modules are:

- `Wrappers` holds `Option`.
- `Text` holds the Python string operations the code relies on:
  `str.split` with a one-character separator, `'/' in s`, `str.isdigit()`
  and `int()`. It also holds their round-trip lemmas.
- `Ipv4` holds the part of Python's `ipaddress` module that is used:
  - strict dotted-quad parsing (`ip_address`);
  - the canonical text of an address;
  - strict `ip_network`, including netmask and hostmask suffixes and the
    "host bits set" rejection;
  - `address in network`.
- `RestrictionManager` models the validator, the membership test, the
  decision as a function (`Decide`) and `allow` as a method with the
  source's two early-exit loops. `Allow` is proved equal to `Decide`.
  `Decide` is then proved against the intended decision table below and
  its properties.
- `RestrictionScenarios` works through concrete cases. It includes the
  inputs on which the code raises.

The rule store is replaced by the snapshot of enabled rules it returns, a
`seq<Rule>` in store order. An exception that the code lets escape becomes
an `Err` result, named by where it is raised:

| `Err` value | raised by |
|---|---|
| `UnpackMismatch` | the 2-tuple unpacking of `split('/')` |
| `CandidateNotAddress` | `ip_address(ip)` |
| `ScopeNotNetwork` | `ip_network(ip_range)` on a text that is no network |
| `HostBitsSet` | `ip_network(ip_range)` on a scope with host bits set |

`Decide`, the scan loop `FindMatch` and their lemmas take the membership test as a parameter
`inRange`. `Allow` uses `Membership(ip)`, which is `ip_in_range(ip, ·)`. So
the decision properties hold for any membership test, and for the real one
in particular.

The intended policy for `allow` is this decision table. "Match" means that
some rule of that type code contains the candidate.

| allow rules | allow match | block rules | block match | verdict |
|---|---|---|---|---|
| none | - | none | - | admit |
| none | - | some | no | admit |
| none | - | some | yes | refuse |
| some | no | any | any | refuse |
| some | yes | none | - | admit |
| some | yes | some | no | admit |
| some | yes | some | yes | refuse |

The intended policy also says four more things:
- the validator never raises;
- a candidate that is no address matches no rule;
- the verdict does not depend on rule order;
- host scopes are compared as addresses.

Where the code departs from that policy, the model follows the code:

- **Two slashes.** The intended validator answers false on any malformed
  scope. In the code, `ip, bits = ip_range.split('/')` raises on a scope
  with two or more '/' (`UnpackMismatch`). `IsValidIpOrRange` states
  exactly when that happens, and `ValidatorRaisesOnTwoSlashes` shows a case.
- **Unparseable candidate.** The intended policy has a candidate that is no
  address match no rule, so it never makes `allow` fail. In the code,
  `ip_address(ip)` raises as soon as a CIDR scope is scanned.
  `UnparseableCandidate` states exactly when that happens.
- **Order independence.** The intended verdict does not depend on rule
  order. In the code that holds only while no membership test raises.
  `OrderIndependent` proves it under that condition, and
  `OrderMattersWhenScopeRaises` shows two orders of the same validated
  rules with different outcomes.
- **Host bits set.** The validator accepts a CIDR scope whose address has
  host bits set, such as `10.0.0.5/24`. Strict `ip_network` rejects that
  same scope, so matching against it raises (`HostBitsGap`).
- **Host scope comparison.** The intended policy compares host scopes as
  address values, but the code compares raw text. For IPv4 the two agree
  on every validated scope, because strict parsing admits exactly one text
  per address (`HostScopeIsAddressEquality`, `AcceptedTexts`).

## Model

| member | source | states |
|---|---|---|
| RestrictionManager.IsValidIpAddress | app/lib/dns/restriction_manager.py:77-83 | `ip_address` accepts a text exactly when it is the canonical text of some 32-bit value |
| RestrictionManager.IsValidIpOrRange | app/lib/dns/restriction_manager.py:63-75 | the validator raises exactly when the scope holds two or more '/'; with no '/' it accepts exactly the addresses; with one '/' it accepts exactly when the text before it is an address and the text after it is digits denoting 8 to 30 |
| RestrictionManager.ValidatorOnAddressText | app/lib/dns/restriction_manager.py:63-75 | for every address in canonical text, the bare address is accepted, and for every suffix without '/', address + '/' + suffix is accepted exactly when the suffix is an admitted prefix length |
| RestrictionManager.ValidatorPrefixBounds | app/lib/dns/restriction_manager.py:68-73 | address/p is accepted exactly when 8 <= p <= 30 (so /7 and /31 are refused, /8 and /30 accepted) |
| RestrictionManager.CidrScopeText | app/lib/dns/restriction_manager.py:63-73 | a canonical address, '/', and a prefix in 8..30 form a valid scope whose network and prefix are that address and that prefix |
| Ipv4.ParseAddress | app/lib/dns/restriction_manager.py:77-83 | an accepted address is a 32-bit value |
| Ipv4.ParseOctet | app/lib/dns/restriction_manager.py:79 | an accepted octet is below 256 |
| Ipv4.OctetTextRoundTrip | app/lib/dns/restriction_manager.py:79 | every value below 256 is accepted back from its decimal text |
| Ipv4.OctetCanonical | app/lib/dns/restriction_manager.py:79 | an accepted octet text is the decimal text of its value, so it has no leading zero |
| Ipv4.Format | app/lib/dns/restriction_manager.py:79 | the canonical text of an address; `FormatPieces`, `ParseFormat` and `FormatParse` state its properties |
| Ipv4.FormatPieces | app/lib/dns/restriction_manager.py:79 | the canonical text cuts at its dots into the decimal texts of the four octets, and is no digit string |
| Ipv4.ParseFormat | app/lib/dns/restriction_manager.py:77-83 | every 32-bit value is accepted back from its canonical text |
| Ipv4.FormatParse | app/lib/dns/restriction_manager.py:77-83 | strict parsing accepts only canonical text: a parsed text is the canonical text of its value |
| Ipv4.ParseInjective | app/lib/dns/restriction_manager.py:77-83 | two texts parsed to the same address are the same text |
| Ipv4.AcceptedTexts | app/lib/dns/restriction_manager.py:77-83 | the texts `ip_address` accepts are exactly the canonical texts of 32-bit values |
| Ipv4.ParseNetwork | app/lib/dns/restriction_manager.py:124 | a parsed network has a 32-bit address, a prefix of at most 32, and no host bits set |
| Ipv4.MaskPrefix | app/lib/dns/restriction_manager.py:124 | a found prefix has the given netmask; a failed search means no prefix up to the limit has it |
| Ipv4.PrefixLengthText | app/lib/dns/restriction_manager.py:124 | a prefix-length suffix agrees with `str`: the decimal text of n is read back as n exactly when n is at most 32; a leading zero is read through, as `int()` does; a sign or a surrounding space is refused |
| Ipv4.MaskDecimal | app/lib/dns/restriction_manager.py:124 | a decimal suffix of at most 32 names that prefix length as the mask |
| Ipv4.MaskNetmaskText | app/lib/dns/restriction_manager.py:124 | the dotted netmask of every prefix length names that prefix length, as a mask text and as a suffix |
| Ipv4.MaskHostmaskText | app/lib/dns/restriction_manager.py:124 | the dotted hostmask of a prefix length from 1 to 31 names that prefix length, after the netmask reading fails |
| Ipv4.ParseMask | app/lib/dns/restriction_manager.py:124 | a suffix is read as a prefix length or else as a dotted mask, and never names more than 32 bits |
| Ipv4.ParseMaskText | app/lib/dns/restriction_manager.py:124 | a dotted mask is read as a netmask or else as a hostmask, and never names more than 32 bits |
| Ipv4.HostBitsClear | app/lib/dns/restriction_manager.py:124 | the strict check passes exactly when the network address is a multiple of the block size 2^(32 - prefix); `MaskedMembership` is its partner: with host bits clear, masking a candidate gives the network exactly when the candidate lies in the block |
| Ipv4.Contains | app/lib/dns/restriction_manager.py:124 | for a network without host bits set, `address in network` holds exactly when the address lies in [network, network + block size) |
| Ipv4.MaskedMembership | app/lib/dns/restriction_manager.py:124 | with host bits clear, an address is in the network exactly when it lies in [network, network + block size), and exactly when its first prefix bits equal the network's |
| RestrictionManager.IpInRange | app/lib/dns/restriction_manager.py:122-126 | for a host scope, the answer is raw text equality; for a CIDR scope, the test raises CandidateNotAddress exactly when the candidate is no address |
| RestrictionManager.ValidScopeNetwork | app/lib/dns/restriction_manager.py:124 | a validated CIDR scope parses as its network and prefix, or is refused for host bits set; it is never malformed |
| RestrictionManager.CidrMembership | app/lib/dns/restriction_manager.py:122-124 | against a validated CIDR scope, an address raises only for host bits set; otherwise it is inside exactly when it lies in the block |
| RestrictionManager.CanonicalCidrMembership | app/lib/dns/restriction_manager.py:122-124 | the same membership, for scopes written as canonical address/prefix |
| RestrictionManager.HostScopeIsAddressEquality | app/lib/dns/restriction_manager.py:125-126 | for a validated host scope, raw text equality is equality of parsed addresses |
| RestrictionManager.CleanInputsNeverRaise | app/lib/dns/restriction_manager.py:122-124 | an address candidate against validated scopes without host bits set never makes a test raise |
| RestrictionManager.Gather | app/lib/dns/restriction_manager.py:94-95 | the gathered rules are exactly the rules of that type code, and no more than the snapshot |
| RestrictionManager.GatherUniform | app/lib/dns/restriction_manager.py:94-95 | gathering a snapshot of one type code keeps all of it in order; gathering another code keeps nothing |
| RestrictionManager.AllowOnlyDecides | app/lib/dns/restriction_manager.py:97-118 | with allow rules only, the verdict is the outcome of the allow scan |
| RestrictionManager.GatherEmpty | app/lib/dns/restriction_manager.py:97 | the gathered list is non-empty exactly when a rule of that type code exists |
| RestrictionManager.ScanRules | app/lib/dns/restriction_manager.py:98-101 | a scan answers false exactly when every test answers false; otherwise it returns the answer of the first test that does not answer false (a match or an exception) |
| RestrictionManager.ScanFrom | app/lib/dns/restriction_manager.py:98-101 | one loop step: the test at position i decides, or the scan goes on at i + 1 |
| RestrictionManager.ScanGathered | app/lib/dns/restriction_manager.py:94-101 | when no test on the rules of a type code raises, scanning them answers whether one of them contains the candidate |
| RestrictionManager.FindMatch | app/lib/dns/restriction_manager.py:98-101 | for any membership test, the loop returns what the scan defines: the first test result that is not false, or false |
| RestrictionManager.Decide | app/lib/dns/restriction_manager.py:85-120 | the verdict as a function of the snapshot and the membership test: an empty snapshot admits, and an error verdict is what the membership test raised on some rule of the snapshot |
| RestrictionManager.Allow | app/lib/dns/restriction_manager.py:85-120 | run with `FindMatch` over `Membership(ip)`, the loops return the verdict `Decide` defines; an empty snapshot admits; when no test raises, the verdict is the decision table's row for the snapshot |
| RestrictionManager.DecideFollowsTable | app/lib/dns/restriction_manager.py:85-120 | when no test raises, the verdict admits exactly in the four table rows: no rules of either class; only block rules and no block match; an allow match and no block rules; an allow match and no block match |
| RestrictionManager.AllowListGates | app/lib/dns/restriction_manager.py:97-106 | once an allow rule exists and every allow test answers false, the verdict is refusal, whatever the block rules are, even block rules whose tests would raise |
| RestrictionManager.BlockListOnly | app/lib/dns/restriction_manager.py:107-119 | without allow rules, and when no membership test on the block rules raises, the candidate is admitted exactly when no block rule contains it |
| RestrictionManager.BlockOverridesAllow | app/lib/dns/restriction_manager.py:111-116 | when no membership test on the allow or block rules raises, a candidate that an allow rule contains is admitted exactly when no block rule contains it |
| RestrictionManager.OtherTypeCodesAdmit | app/lib/dns/restriction_manager.py:88-118 | a snapshot without rules of type code 1 or 2 admits every candidate |
| RestrictionManager.OrderIndependent | app/lib/dns/restriction_manager.py:94-116 | two orders of the same rules give the same verdict when no test raises |
| RestrictionManager.UnparseableCandidate | app/lib/dns/restriction_manager.py:97-126 | against validated rules, a candidate that is no address: with allow rules, the verdict raises CandidateNotAddress when some allow rule is a CIDR scope and is refusal otherwise; without allow rules, it raises when some block rule is a CIDR scope and is admission otherwise |
| Text.Split | app/lib/dns/restriction_manager.py:65 | `split` yields one piece more than there are separators; no piece holds one; joining the pieces gives the text back |
| Text.CountAround | app/lib/dns/restriction_manager.py:65 | the first separator cuts the text into its before and after parts and accounts for one occurrence |
| Text.SplitSingle | app/lib/dns/restriction_manager.py:65 | with exactly one separator, `split` yields the texts before and after it |
| Text.SplitJoin | app/lib/dns/restriction_manager.py:65 | splitting undoes joining pieces that hold no separator |
| Text.DecimalRoundTrip | app/lib/dns/restriction_manager.py:70 | `int(str(n)) == n` |
| Text.DecimalCanonical | app/lib/dns/restriction_manager.py:70 | a digit string without leading zeros is `str` of its `int` |
| Text.LeadingZeroValue | app/lib/dns/restriction_manager.py:70 | `int()` of a digit string is unchanged by a leading zero |
| RestrictionScenarios.ValidatorExamples | app/lib/dns/restriction_manager.py:63-75 | 10.0.0.5, 10.0.0.0/24, /8 and /30 are accepted; /7, /31 and /0 are refused |
| RestrictionScenarios.NoDotNoAddress | app/lib/dns/restriction_manager.py:77-83 | a text without a dot is no address |
| RestrictionScenarios.ValidatorRefusesName | app/lib/dns/restriction_manager.py:74-83 | "not-an-ip" is refused |
| RestrictionScenarios.ValidatorRaisesOnTwoSlashes | app/lib/dns/restriction_manager.py:65 | "10.0.0.0/24/8" makes the unpacking raise |
| RestrictionScenarios.MembershipExamples | app/lib/dns/restriction_manager.py:122-124 | 10.0.0.5 is in 10.0.0.0/24 and 10.0.1.5 is not |
| RestrictionScenarios.PrivateBlockMembership | app/lib/dns/restriction_manager.py:122-124 | 192.168.1.50 is in 192.168.1.0/24 and 192.168.2.50 is not |
| RestrictionScenarios.HostBitsGap | app/lib/dns/restriction_manager.py:63-73 | 10.0.0.5/24 passes the validator, yet testing 10.0.0.5 against it raises HostBitsSet |
| RestrictionScenarios.AllowListScenario | app/lib/dns/restriction_manager.py:97-106 | with the one allow rule 192.168.1.0/24, 192.168.1.50 is admitted and 192.168.2.50 refused |
| RestrictionScenarios.AllowedAndBlocked | app/lib/dns/restriction_manager.py:97-120 | a host address that both an allow and a block rule name is refused |
| RestrictionScenarios.BlockWinsScenario | app/lib/dns/restriction_manager.py:112-116 | 10.0.0.5 both allowed and blocked is refused |
| RestrictionScenarios.NonAddressAgainstCidr | app/lib/dns/restriction_manager.py:98-99 | a candidate that is no address, against one CIDR allow rule, makes `allow` raise CandidateNotAddress |
| RestrictionScenarios.UnparseableCandidateScenario | app/lib/dns/restriction_manager.py:98-99 | "not-an-ip" against a CIDR allow rule makes `allow` raise |
| RestrictionScenarios.OneAllowRule | app/lib/dns/restriction_manager.py:97-109 | a snapshot of one allow rule gives exactly that rule's test result |
| RestrictionScenarios.TwoAllowRules | app/lib/dns/restriction_manager.py:98-101 | with two allow rules, the second is consulted only when the first answers false |
| RestrictionScenarios.FirstRuleMatches | app/lib/dns/restriction_manager.py:98-101 | a scan whose first host rule is the candidate admits without consulting the second rule |
| RestrictionScenarios.OrderMattersWhenScopeRaises | app/lib/dns/restriction_manager.py:98-101 | two orders of the same two validated allow rules give Ok(true) and Err(HostBitsSet) for 10.0.0.5 |

## Left out

- Rule storage (`__get`, `__load`, `get_zone_restrictions`, `create`, `save`) is left out. It is CRUD over the database. `allow` receives the snapshot of enabled rules that `get_zone_restrictions(zone_id, enabled=True)` would return, in store order.
- `RestrictionCollection` and `DNSZoneRestriction` are not part of this model. The model keeps only what `allow` reads from them: `count()`, `gather(type)` as filtering in order, and each rule's `ip_range` and `type`.
- IPv6 is left out; only IPv4 is modelled. In the code, `ip_address` also accepts IPv6 text, and IPv6 membership against an IPv4 network answers false. In the model, an IPv6 candidate or scope counts as no address.
- `str.isdigit()` is modelled on ASCII digits only. Python also counts other Unicode digits, and `int()` reads many of them. So the code's validator accepts a scope such as `10.0.0.0/٢٤` (Arabic-Indic 24), and strict `ip_network`, which demands ASCII digits, then raises on it at line 124. That is a second case in which the validator accepts and the membership test raises, besides host bits set. `ValidScopeNetwork`'s promise that a validated scope is never malformed holds for ASCII text only. Some other digits, such as the superscript `²`, pass `isdigit()`, yet `int()` raises on them. So `is_valid_ip_or_range("10.0.0.0/²")` raises at line 70, which is a second way the validator raises besides two slashes. The model, reading ASCII digits only, refuses that scope.
- IPv4 parsing is modelled as strict, the way `ipaddress` behaves since Python 3.9.5. Earlier versions accepted leading zeros in octets.
- `Ipv4.MaskPrefix`: a netmask's prefix length is found by searching prefix lengths, not by counting trailing zero bits with bit operations. The result is the same: the prefix whose netmask equals the value, or none.
- Ipv4.Masked: `a & netmask` is modelled arithmetically, as `a - a % 2^(32 - prefix)`, and the netmask as `2^32 - 2^(32 - prefix)`, not with bitwise operations on 32-bit words. No lemma proves these equal to the bitwise `&` of the strict host-bits check and of `address in network`. `Ipv4.HostBitsClear`, `Ipv4.Netmask` and `Ipv4.Contains` inherit this.
- Exceptions are reduced to the four `Err` values above. Python's exception class hierarchy, and catching in code outside `allow`, are left out.
- Candidates and scopes are always strings. A non-string argument to `ip_address` is not modelled.
