# Zone-migration rule engines, modelled in Dafny

Three scripts prepare Palo Alto firewall rulebases for a zone migration.
This project models the rule-rewriting and command-building core of each
one and proves what they promise.

- **becu** (`becu/becu.py`, module `Intrazone`): `modify_rules` copies every
  security rule. For each direction it passes the zone field and the address
  field to `modify`. Every legacy private zone found there is replaced by the
  new intra-zone zone. An `any` address is narrowed to the address object
  mapped to that legacy zone. Zones that are not legacy ones produce a
  "zone not found" notice. A candidate configuration in a zone field
  (`TypeError`) ends the run, and so does a failed `list.remove("any")`.
- **eastwest-helper** (`eastwest-helper/sdk-ew/sdk-ew.py`, modules
  `EastwestLookup` and `EastwestClone`):
  - address objects and one level of address groups are resolved to addresses;
  - `addr_obj_check` decides whether an address lies in a trust subnet;
  - `should_be_cloned` decides, per direction, whether a rule on the trust
    zone needs an east-west copy, and builds that copy;
  - `eastwest_addnew_zone` puts each copy just before its original;
  - single-IP mode is derived from the trust subnets.
- **gARP** (`gARP/garp.py`, module `Garp`): turns NAT rules into
  `test arp gratuitous ip <ip> interface <if>` commands. It looks up
  translated addresses among the address objects and finds the interface
  whose network holds each one. Rules it cannot handle become review notes.
  The global `mem` object is the class `Garp.Mem`.

`Shapes` holds the Python list and string operations the scripts rely on.
`IpCalc` keeps the `ipcalc` library abstract: parsing a network may fail,
and so may the containment test `a in network`, which parses `a`.

Each loop of the scripts is a `method` proved equal to a specification
function: a fold over the input, written in the order the script runs. The
lemmas then state what the scripts promise about those functions. The `mem`
object of gARP, whose fields the script updates in place, is a class whose
methods state their whole new state.

Where the written description of the system and the code disagree, the
model follows the code:
- Single-IP mode is switched on by any trust subnet ending in "/32", not
  only when every subnet is a /32 (`sdk-ew.py:289-291`).
- In the east-west helper, an address object of another type resolves to
  the placeholder `1.1.1.1` without a review entry; the call that would add
  one is commented out (`sdk-ew.py:110`).

## Model

| member | source | states |
|---|---|---|
| Shapes.RemoveFirst | becu/becu.py:189 | `list.remove(x)` succeeds exactly when `x` is in the list |
| Shapes.RemoveFirstCount | becu/becu.py:189 | `list.remove(x)` removes one occurrence of `x` and leaves every other element's count as it was |
| Shapes.SwapKeepsAtMostOnce | becu/becu.py:189-191 | removing a zone and then appending the new zone only when it is absent puts the new zone in, and never makes it occur more than once or more often than before |
| Shapes.SplitWsPlainName | becu/becu.py:204 | `str.split()` of a non-empty name without whitespace is that name alone |
| Intrazone.ZoneStep | becu/becu.py:186-215 | one zone of the loop keeps the address field's shape: a list stays a list, `count == 1` means a bare name, `count >= 2` means a list |
| Intrazone.ZoneWalk | becu/becu.py:186-215 | the whole zone loop keeps that shape invariant |
| Intrazone.RuleRewrite | becu/becu.py:247-257 | the rewritten copy keeps the rule's name and every field other than the four member fields; it succeeds exactly when both the from/source and the to/destination rewrite succeed |
| Intrazone.ReplaceAny | becu/becu.py:197-200 | the `for x in x_addr` loop computes `AnySwap`: each old "any" is removed from the copy and the object appended; a missing "any" is a `ListRemoveFailed` abort |
| Intrazone.Modify | becu/becu.py:171-242 | `modify` computes `SideRewrite` for one direction: zone field, address field and notices, or the abort |
| Intrazone.ModifyRules | becu/becu.py:244-260 | `modify_rules` computes `BatchRewrite`: one rewritten copy per rule, in order, or the first abort |
| Intrazone.BatchAbortIsFinal | becu/becu.py:238-240 | once a rule aborts the run, the rules after it change nothing |
| Intrazone.BatchSucceedsIffEveryRule | becu/becu.py:246-260 | the batch succeeds exactly when every rule's rewrite succeeds |
| Intrazone.BatchOneToOne | becu/becu.py:246-257 | a successful batch has one output rule per input rule, in input order, each the rewrite of its input |
| Intrazone.BatchFirstAbort | becu/becu.py:238-240 | an aborted batch carries the reason of the first rule that aborts, and every earlier rule succeeds |
| Intrazone.Keep | becu/becu.py:186-191 | every zone the rewrite keeps comes from the list and is not a legacy zone |
| Intrazone.DroppedZoneIsMapped | becu/becu.py:187-189 | a zone that disappears from the list is a legacy zone |
| Intrazone.MappedStepZones | becu/becu.py:187-191 | a legacy zone is removed from its own place and the new zone appended at the end when missing |
| Intrazone.ZoneWalkZones | becu/becu.py:186-191 | during the loop the copy's zones are the zones kept so far, then the zones not yet visited, then the new zone once it has been appended; each legacy zone's step is the remove-then-append-if-missing of the zone list (the unfolding `StepZones`) |
| Intrazone.ZoneWalkNotices | becu/becu.py:211-215 | the loop's notices are exactly the zones outside the mapping, in order: one zone adds a notice exactly when it is not a legacy zone (the unfolding `StepNotices`) |
| Intrazone.ListZonesRewritten | becu/becu.py:184-215 | a list zone field becomes its non-legacy zones in order, plus the new zone once if a legacy zone was found and the new zone is not already kept; the notices name every non-legacy zone; only a field of plain names is rewritten |
| Intrazone.NewZoneAtMostOnce | becu/becu.py:190-191 | the new zone occurs at most once in a rewritten list that did not already repeat it |
| Intrazone.ZoneWalkUnmapped | becu/becu.py:186-215 | a loop that meets no legacy zone changes nothing but the notices |
| Intrazone.UnmappedFieldUntouched | becu/becu.py:184-236 | a zone field without a legacy zone leaves both the zone and its address untouched, with one notice per zone |
| Intrazone.AnySwapShift | becu/becu.py:197-200 | the swap loop moves every "any" out of its place and appends the object once per "any", at the tail |
| Intrazone.AnySwapNarrows | becu/becu.py:196-200 | on a fresh copy of the address list the swap loop gives the list without "any", followed by the object once per dropped "any" |
| Intrazone.AnySwapWithoutAny | becu/becu.py:197-198 | without an "any" in the old list the swap loop changes nothing |
| Intrazone.AnySwapFailsWithoutAny | becu/becu.py:198-199 | when the old list held "any" but the copy no longer does, `remove("any")` raises |
| Intrazone.ScalarZoneRewritten | becu/becu.py:217-230 | a bare legacy zone becomes the new zone, its address is narrowed by the zone's object, and there is no notice |
| Intrazone.SecondSwapFails | becu/becu.py:186-200 | once "any" has been swapped out of a list address, any further legacy zone makes the loop raise |
| Intrazone.FirstSwapThenFail | becu/becu.py:186-200 | a list address with "any" and two or more legacy zones in the zone list always ends in `ListRemoveFailed` |
| Intrazone.WalkAddrAfterSwap | becu/becu.py:196-200 | after the swap, a surviving loop meets no further legacy zone and keeps the address |
| Intrazone.WalkAddrWithAny | becu/becu.py:196-200 | a surviving loop over a list address with "any" met at most one legacy zone, and the address is narrowed by that zone's object or left as it was |
| Intrazone.WalkAddrWithoutAny | becu/becu.py:196-200 | a list address without "any" comes out of the loop unchanged |
| Intrazone.ListAddressRewritten | becu/becu.py:184-200 | a list address without "any" is kept; with "any" it is narrowed by the single legacy zone's object; two legacy zones make the run abort |
| Intrazone.ScalarAnyWalk | becu/becu.py:201-210 | during the loop a bare "any" address becomes the accumulation of the legacy objects met so far |
| Intrazone.ScalarAnyWalkMapped | becu/becu.py:201-210 | the same when the next zone is a legacy zone: the `count` branches extend the accumulation by its object |
| Intrazone.ScalarAnyCollectsMappedObjects | becu/becu.py:201-210 | a bare "any" is: kept with no legacy zone; the object with one; with more, the whitespace split of the first object followed by the other objects in zone order |
| Intrazone.AccumulatedPlainNames | becu/becu.py:202-207 | with objects named without whitespace, the address collects exactly those objects |
| Intrazone.AnnotatedZoneAborts | becu/becu.py:238-240 | a candidate-configuration entry in a zone field aborts the rewrite |
| Intrazone.CandidateConfigAbortsRun | becu/becu.py:238-240 | such an entry in any rule aborts the whole run |
| Intrazone.RewrittenZoneHasNoLegacyZone | becu/becu.py:184-230 | a rewritten zone field holds no legacy zone, as long as the new zone is not itself one |
| Intrazone.RewriteIdempotent | becu/becu.py:162-260 | rewriting an already rewritten rule succeeds and changes nothing |
| EastwestLookup.LastObject | eastwest-helper/sdk-ew/sdk-ew.py:102-103 | the index found is the last object with that name; none means no object has it |
| EastwestLookup.AddressLookup | eastwest-helper/sdk-ew/sdk-ew.py:92-119 | `address_lookup` computes `LookupAddress`: the last matching object's value, the placeholder for a non-ip-netmask object, the entry itself when nothing matches, always as a list |
| EastwestLookup.LookupLastMatchWins | eastwest-helper/sdk-ew/sdk-ew.py:102-109 | an object with another name changes no lookup, and an object with the name takes it over |
| EastwestLookup.LookupOutcomes | eastwest-helper/sdk-ew/sdk-ew.py:100-119 | the three outcomes: no match gives `[entry]`; a last match gives its value when an ip-netmask, else `["1.1.1.1"]` |
| EastwestLookup.LastStaticGroup | eastwest-helper/sdk-ew/sdk-ew.py:74-78 | the group found is the last with that name and a static value; none means there is no such group |
| EastwestLookup.AddressGroupLookup | eastwest-helper/sdk-ew/sdk-ew.py:70-89 | `address_group_lookup` computes `LookupGroup`: None without a static group, else its members' addresses concatenated |
| EastwestLookup.ResolveMembers | eastwest-helper/sdk-ew/sdk-ew.py:85-89 | the member loop concatenates each member's address lookup, in member order |
| EastwestLookup.ResolveAllAppend | eastwest-helper/sdk-ew/sdk-ew.py:85-87 | resolving a member list resolves its parts independently |
| EastwestLookup.ResolveAllUnknown | eastwest-helper/sdk-ew/sdk-ew.py:85-87 | members that name no object resolve to themselves |
| EastwestLookup.LookupUnknown | eastwest-helper/sdk-ew/sdk-ew.py:111-117 | a name no object carries resolves to the list of itself |
| EastwestLookup.AddrObjCheck | eastwest-helper/sdk-ew/sdk-ew.py:122-149 | `addr_obj_check` answers exactly `Trusted`: the candidates are tried in order with one `found` flag carried across them; a candidate that fails to parse is skipped, a subnet test that raises ends that candidate's subnet loop and skips its `if found`, and the first candidate whose subnet loop ends without raising and with `found` set answers True |
| EastwestLookup.CheckCandidates | eastwest-helper/sdk-ew/sdk-ew.py:128-149 | the candidate loop computes `CheckFrom` from a clear flag: the carried `found`, the skipped candidates, and the first clean subnet loop with `found` set |
| EastwestLookup.ContainsSubnet | eastwest-helper/sdk-ew/sdk-ew.py:136-138 | the subnet loop on one parsed network, entered with the carried `found`: it raises exactly when some trust subnet cannot be tested against the network; otherwise it ends with `found` set exactly when it came in set or a trust subnet lies in the network |
| EastwestLookup.SubnetScanMeaning | eastwest-helper/sdk-ew/sdk-ew.py:136-138 | the same for the subnet loop's specification: raising exactly when a test raises, and otherwise the flag set exactly when it came in set or a subnet lies in the network |
| EastwestLookup.CheckFromInTrust | eastwest-helper/sdk-ew/sdk-ew.py:129-146 | a candidate in trust (it parses, every trust subnet can be tested against it, and one lies in it) makes the candidate loop answer True, whatever the flag carried into it |
| EastwestLookup.CheckFromOnlyInTrust | eastwest-helper/sdk-ew/sdk-ew.py:129-146 | where no subnet test raises, the candidate loop entered with the flag clear answers True only through a candidate in trust |
| EastwestLookup.InTrustTrusted | eastwest-helper/sdk-ew/sdk-ew.py:122-149 | an address with a candidate in trust is trusted, even when subnet tests on other candidates raise |
| EastwestLookup.TrustedIffInTrust | eastwest-helper/sdk-ew/sdk-ew.py:122-149 | where no subnet test raises, an address is trusted exactly when one of its candidates is in trust |
| EastwestLookup.CheckFromUntestable | eastwest-helper/sdk-ew/sdk-ew.py:129-146 | a trust subnet that cannot be tested against any network makes every subnet loop raise, so the candidate loop never answers True |
| EastwestLookup.UntestableSubnetNothingTrusted | eastwest-helper/sdk-ew/sdk-ew.py:129-149 | a trust subnet that ipcalc can never test (a malformed subnet) makes `addr_obj_check` False for every address |
| EastwestLookup.CheckFromNoSubnets | eastwest-helper/sdk-ew/sdk-ew.py:128-146 | with no trust subnets and the flag clear, the candidate loop never answers True |
| EastwestLookup.NoSubnetsNothingTrusted | eastwest-helper/sdk-ew/sdk-ew.py:128-149 | with no trust subnets, no address is trusted |
| EastwestLookup.PlainAddressTrusted | eastwest-helper/sdk-ew/sdk-ew.py:124-138 | a plain address named by no group and no object is trusted exactly when it parses as a network that every trust subnet can be tested against and that contains one of them; a raising subnet test makes it untrusted |
| EastwestLookup.DeriveSingleIp | eastwest-helper/sdk-ew/sdk-ew.py:289-291 | the flag is set exactly when some trust subnet ends with "/32" |
| EastwestLookup.SingleIpFromAnyHostSubnet | eastwest-helper/sdk-ew/sdk-ew.py:289-291 | one "/32" subnet switches single-IP mode on, whatever the other subnets are |
| EastwestClone.ShouldBeCloned | eastwest-helper/sdk-ew/sdk-ew.py:152-224 | `should_be_cloned` computes `Decide`: the flag and the copy, renamed with "-cloned" when the flag is set |
| EastwestClone.ExamineAddresses | eastwest-helper/sdk-ew/sdk-ew.py:177-214 | the address loop for one trust zone computes `AddrWalk` |
| EastwestClone.ExamineAddress | eastwest-helper/sdk-ew/sdk-ew.py:178-214 | one address computes `AddrStep`: a trigger rezones the copy, making it on demand; another concrete address is dropped from an existing copy |
| EastwestClone.RuleClone | eastwest-helper/sdk-ew/sdk-ew.py:240-246 | the source pass, then the destination pass on its copy, give `CloneOf` |
| EastwestClone.EastwestAddNewZone | eastwest-helper/sdk-ew/sdk-ew.py:227-257 | the rulebase after the run is `WithClones`: each rule preceded by its clone, if it has one |
| EastwestClone.InsertBeforeOriginal | eastwest-helper/sdk-ew/sdk-ew.py:248-250 | adding a clone and moving it before its original extends the rulebase built so far by that rule |
| EastwestClone.AddrWalkKeepsCopy | eastwest-helper/sdk-ew/sdk-ew.py:177-208 | the address loop sets the flag, and makes a copy, exactly when some address triggers; a copy once made stays |
| EastwestClone.ZoneWalkKeepsCopy | eastwest-helper/sdk-ew/sdk-ew.py:175-214 | the zone loop sets the flag exactly when the trust zone is present and some address triggers |
| EastwestClone.AddrWalkOutside | eastwest-helper/sdk-ew/sdk-ew.py:177-214 | the address loop touches only this direction's zones and addresses of the copy |
| EastwestClone.ZoneWalkOutside | eastwest-helper/sdk-ew/sdk-ew.py:175-214 | so does the zone loop |
| EastwestClone.AddrWalkZones | eastwest-helper/sdk-ew/sdk-ew.py:177-208 | each triggering address rezones the copy once more, and any other address leaves its zones alone (the unfolding `AddrStepZones`) |
| EastwestClone.ZoneWalkZones | eastwest-helper/sdk-ew/sdk-ew.py:175-214 | the copy is rezoned (number of trust-zone entries) times (number of triggering addresses) times |
| EastwestClone.ZoneHeadZones | eastwest-helper/sdk-ew/sdk-ew.py:175-177 | one more trust-zone entry adds one rezoning per triggering address |
| EastwestClone.RezoneNProperties | eastwest-helper/sdk-ew/sdk-ew.py:185-188 | rezoning at least as often as the trust zone occurs removes it entirely, puts the new zone in, and never repeats the new zone beyond once or beyond its old count |
| EastwestClone.RezoneListProperties | eastwest-helper/sdk-ew/sdk-ew.py:185-188 | one rezoning removes one trust-zone entry, puts the new zone in, and never repeats the new zone beyond once or beyond its old count |
| EastwestClone.NoTrustZoneNoClone | eastwest-helper/sdk-ew/sdk-ew.py:175-176 | a direction without the trust zone returns False and leaves the copy passed in as it was |
| EastwestClone.NoTrustZoneWalk | eastwest-helper/sdk-ew/sdk-ew.py:175-217 | the zone loop over zones without the trust zone changes nothing |
| EastwestClone.CloneIffTriggered | eastwest-helper/sdk-ew/sdk-ew.py:175-224 | a direction is cloned exactly when it holds the trust zone and some address on it is "any" (outside single-IP mode) or trusted; a copy exists afterwards exactly when one was passed in or the flag is set |
| EastwestClone.CloneRezoned | eastwest-helper/sdk-ew/sdk-ew.py:175-224 | in a clone the trust zone is gone, the new zone is present at most once (or no more often than before), the name has "-cloned" added, and nothing outside this direction's zones and addresses changes |
| EastwestClone.WalkRezoned | eastwest-helper/sdk-ew/sdk-ew.py:175-214 | a zone loop that clones leaves the copy rezoned that way, before the renaming |
| EastwestClone.CloneNames | eastwest-helper/sdk-ew/sdk-ew.py:220-246 | a rule cloned in both directions is named "<name>-cloned-cloned", in one direction "<name>-cloned" |
| EastwestClone.CloneNamed | eastwest-helper/sdk-ew/sdk-ew.py:220-224 | a pass adds "-cloned" to the copy's name exactly when its flag is set |
| EastwestClone.CloneOfIff | eastwest-helper/sdk-ew/sdk-ew.py:238-248 | a rule gets a clone exactly when one of its directions is cloned |
| EastwestClone.AddressOrderMatters | eastwest-helper/sdk-ew/sdk-ew.py:177-214 | an instance of `CloneAddresses`: with the trust zone once in `fromzone`, an untrusted concrete address stays in the clone when it comes before the triggering address (`[a, b]` stays `[a, b]`) and is removed when it comes after (`[b, a]` becomes `[b]`) |
| EastwestClone.DestinationStripsSourceClone | eastwest-helper/sdk-ew/sdk-ew.py:210-246 | the destination pass can strip an address from the source clone while returning False, and the caller keeps that stripped clone |
| EastwestClone.AddrWalkAddrs | eastwest-helper/sdk-ew/sdk-ew.py:177-214 | with a copy to work on, the address loop removes from it the first occurrence of each concrete address that does not trigger, in the order examined; "any" and triggering addresses leave its addresses alone |
| EastwestClone.AddrWalkFirstCopy | eastwest-helper/sdk-ew/sdk-ew.py:177-214 | without a copy, nothing happens before the first triggering address, which copies the original; only the addresses after it are stripped from that copy |
| EastwestClone.ZoneWalkAddrs | eastwest-helper/sdk-ew/sdk-ew.py:175-214 | with a copy, each trust-zone entry runs that stripping once more |
| EastwestClone.ZoneWalkFirstCopy | eastwest-helper/sdk-ew/sdk-ew.py:175-214 | without a copy, the first trust-zone entry makes it at the first triggering address, and each later trust-zone entry strips once more |
| EastwestClone.PassStripsCopy | eastwest-helper/sdk-ew/sdk-ew.py:175-220 | a pass given a copy (the destination pass on a source clone) returns it with the untriggering concrete addresses stripped once per trust-zone entry, whether or not it sets the flag |
| EastwestClone.CloneAddresses | eastwest-helper/sdk-ew/sdk-ew.py:175-220 | a pass without a copy on a direction holding the trust zone, whose first triggering address is number k, clones; the clone holds the original's addresses with the untriggering concrete ones after k stripped, once more per further trust-zone entry, and every address before k kept |
| EastwestClone.StripAllCount | eastwest-helper/sdk-ew/sdk-ew.py:210-214 | stripping leaves each untriggering concrete address with its count less the number of times it is examined, down to zero, and every other address ("any", a triggering one) with all its occurrences |
| EastwestClone.SplicedLength | eastwest-helper/sdk-ew/sdk-ew.py:248-250 | the rulebase grows by exactly one rule per clone |
| EastwestClone.OriginalAt | eastwest-helper/sdk-ew/sdk-ew.py:248-250 | each original keeps its content at its new position, and its clone sits just before it |
| EastwestClone.OriginalsKeepPlace | eastwest-helper/sdk-ew/sdk-ew.py:238-250 | after the run every original keeps its content and relative order, its clone sits just before it, and the length grows by the number of clones |
| Garp.GetFirst | gARP/garp.py:100-101 | a key is found exactly when it is present, with the value of its first occurrence |
| Garp.IterdictSound | gARP/garp.py:66-72 | what `iterdict` returns is held by a key containing the search string, at some depth; with no such key it returns None |
| Garp.IterdictFirstMatch | gARP/garp.py:66-68 | a matching top-level key is found when every earlier item is neither a match nor a dictionary |
| Garp.IterdictIgnoresLater | gARP/garp.py:66-72 | once a match or a nested dictionary is reached, later items are never looked at |
| Garp.DictUpdateMaps | gARP/garp.py:143-144 | after `update({ip: ifname})` the ip maps to the interface, every other key keeps its value, keys stay unique, and an existing key keeps its position |
| Garp.DictUpdateKeys | gARP/garp.py:143-144 | the update adds no key but the one given |
| Garp.InterfaceLookupFirst | gARP/garp.py:81-84 | `interface_lookup` gives the interface of the first table entry whose network holds the ip, every earlier entry being tested without raising; it raises exactly when the test on an entry before any holder raises, because the key or the ip itself does not parse |
| Garp.BeforeSlash | gARP/garp.py:146 | the host part is a prefix of the ip without "/", and is the whole ip or is followed by "/" |
| Garp.BeforeSlashOfHost | gARP/garp.py:146 | a slash-free host followed by nothing or by "/..." gives back that host |
| Garp.GarpCommandDropsMask | gARP/garp.py:145-147 | `a.b.c.d/n` and `a.b.c.d` give the same command line, and that line is the fixed prefix, the host, " interface " and the interface |
| Garp.GarpCommandPrefix | gARP/garp.py:147 | every command starts with "test arp gratuitous ip " |
| Garp.ScanRaises | gARP/garp.py:99-100 | the address-object loop raises exactly when some object is not a dictionary or `entry in obj.get("@name")` raises on it: a missing or None name, a non-string searched for in a string name, a dictionary or list looked up in a dictionary name |
| Garp.ScanFindsLast | gARP/garp.py:99-103 | without a raise, an ip-netmask match is found exactly when one exists, and the value kept is the last one's |
| Garp.ScanNotes | gARP/garp.py:99-105 | without a raise, the review notes name the matching objects without an ip-netmask, in order |
| Garp.LookupAddressAnswer | gARP/garp.py:95-114 | `address_lookup` answers the entry itself, made a list, when no match has an ip-netmask, the last such match's addresses otherwise, and notes each non-ip-netmask match by its printed name |
| Garp.ScanRaisedStays | gARP/garp.py:99-100 | once an object raises, the objects after it change nothing |
| Garp.TranslatedNoneStays | gARP/garp.py:243-245 | once an interface lookup raises, later addresses change nothing |
| Garp.TranslatedCommandsEach | gARP/garp.py:243-248 | the translated-address commands are one per address, in order, each on the interface found for it or "INTERFACE NOT FOUND"; there are none when any lookup raises |
| Garp.InterfaceCommandsEach | gARP/garp.py:270-271 | the interface-address commands are one per address, in order, all on the named interface |
| Garp.TranslatedGarp | gARP/garp.py:240-248 | the translated-address branch gives only gratuitous-ARP commands |
| Garp.ViaInterfaceGarp | gARP/garp.py:264-274 | the interface-address branch gives only gratuitous-ARP commands |
| Garp.SourceNatWithShape | gARP/garp.py:231-279 | whatever the two branches give, as long as each gives only gratuitous-ARP commands, the source-translation part never answers None: it gives a non-empty list of such commands or the misconfiguration error about this very translation |
| Garp.SourceNatShape | gARP/garp.py:231-279 | the same for the branches as the script runs them |
| Garp.NatRuleShape | gARP/garp.py:221-281 | a disabled rule gives one review note and None; an enabled rule gives None exactly when it has no source translation; commands are never empty and all are gratuitous-ARP commands; the error names the rule's own source translation |
| Garp.DnatNoted | gARP/garp.py:229-230 | a destination translation only puts its review note in front; the rule is otherwise processed as if it had none |
| Garp.RunHaltStays | gARP/garp.py:313-314 | once a rule halts the run, later rules change nothing |
| Garp.RunWithEach | gARP/garp.py:312-314 | a run succeeds exactly when every rule does, with one result per rule in order; otherwise it stops with the error of the first rule that halts |
| Garp.BuildEdges | gARP/garp.py:292-321 | an unsupported input type exits; a supported type with no entries gives `[]` |
| Garp.BuildRuleList | gARP/garp.py:304-317 | a list of NAT rules gives one result per rule, in order, and halts when a rule halts |
| Garp.BuildOneRule | gARP/garp.py:307-310 | a single NAT rule gives a list of its one result |
| Garp.Mem.constructor | gARP/garp.py:55-58 | the table and the review notes start empty and the address objects unset |
| Garp.Mem.AddReviewEntry | gARP/garp.py:117-124 | one note, of the kind's wording, is appended; nothing else changes |
| Garp.Mem.AddGarpCommand | gARP/garp.py:136-148 | the command for the ip's host part on the interface; the ip is recorded in the table only outside NAT processing |
| Garp.Mem.AddressLookup | gARP/garp.py:87-114 | `address_lookup` gives `LookupAddress` on the objects as a list, appends its notes, and leaves the objects normalised to a list |
| Garp.Mem.ScanObjects | gARP/garp.py:98-105 | the object loop computes `ScanAll`: whether an object raised, the last ip-netmask match when none did, and the notes appended on the way; nothing else changes |
| Garp.Mem.TranslatedAddressCommands | gARP/garp.py:239-248 | the translated-address branch: its result, notes and normalisation are those of the specification |
| Garp.Mem.AddressCommands | gARP/garp.py:243-248 | the per-address loop computes `TranslatedCommands` and changes no state |
| Garp.Mem.InterfaceAddressCommands | gARP/garp.py:264-274 | the interface-address branch: its result, notes and normalisation are those of the specification |
| Garp.Mem.SourceTranslation | gARP/garp.py:231-279 | the source-translation part computes `SourceNatWith`: result, notes, and normalisation; the table is never touched |
| Garp.Mem.ProcessNatEntry | gARP/garp.py:221-281 | `process_nat_entry` computes `ProcessNat`: result, notes, and normalisation; the table is never touched; a rule that is not a dictionary answers None unless one of its three key tests holds or raises, which crashes |
| Garp.Mem.RuleEntry | gARP/garp.py:225-231 | the disabled and destination-translation checks, then the source-translation part, as `RuleWith` states |
| Garp.Mem.SnatEntry | gARP/garp.py:231-281 | no source translation gives None; otherwise the source-translation part |
| Garp.Mem.BuildGarpCommands | gARP/garp.py:284-321 | `build_garp_commands` computes `Build`: the results, the notes appended, and the objects' normalisation |
| Garp.Mem.ProcessNatEntries | gARP/garp.py:312-317 | the loop over a list of NAT rules computes `RunWith`, stopping at the first rule that halts |

## Left out

- Printing, prompts, timing and the connection to the device are not modelled. The becu notices become `Notice` values; the gARP prints are dropped.
- The panos SDK calls `rulebase.add`, `move` and `apply_similar` are not modelled. The rulebase is a sequence, and `move('before')` is insertion just before the original.
- `ipcalc` is kept abstract. Network parsing and the containment test are parameters, either of which may raise; which strings ipcalc accepts, and which networks contain which addresses, is not modelled.
- Garp.Mem.BuildGarpCommands: `process_interface_entry` is not part of this model. A non-empty interface-type entry list ends in `Unmodelled`.
- Garp.ProcessNat: the dynamic-PAT fallback after a failed translated-address lookup (garp.py:249-263) is not modelled. That case ends in `Unmodelled`.
- `pa_api.create_xml_files` (garp.py:131) writes review files to disk and is not modelled.
- Garp.ProcessNat: the misconfiguration message is kept as the translation value itself (`Misconfigured(snat)`), not Python's printed form of it.
- Garp: these uncaught exceptions are modelled together as `Crashed`, without their exception types:
  - a NAT rule that is not a dictionary, when one of its three key tests holds (indexing it then fails) or raises;
  - a disabled or DNAT rule without `@name`;
  - a source translation that is not a dictionary, an interface address that is not a dictionary or has no `interface`;
  - an interface-address lookup that raises, or that gives a non-string address.
- Garp.Repr: the printed form of a dictionary or list name or interface is Python's `repr` without its string escapes and quote choice: strings are always put in single quotes.
- Garp.Within: a list is searched by structural equality of values, so two dictionaries with the same items in another order count as different, where Python compares them as equal.
- Intrazone.ModifyRules: notices printed before an abort are not part of the aborted result.
- `add_tag` in `should_be_cloned` is never called (its calls are commented out) and is not modelled.
- Rules are modelled as values. The copy that `should_be_cloned` mutates in place is passed in and returned, and no aliasing is modelled.
- Strings are sequences of characters, with no encoding or Unicode normalisation.
- Some loops are their own methods so that each proof stays small: `ContainsSubnet`, `CheckCandidates`, `ResolveMembers`, `RuleClone`, `ExamineAddresses`, `ExamineAddress`, `Mem.ScanObjects` and `Mem.AddressCommands`.
- Garp.ReviewNote: the model does not prove that different kinds or names give different note lines.
