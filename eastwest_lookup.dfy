/** Address resolution of the east-west helper
    (eastwest-helper/sdk-ew/sdk-ew.py): address objects, one level of
    address groups, the trust-subnet test of an address and the single-IP
    mode flag. */
module EastwestLookup {
  import opened Shapes
  import opened IpCalc

  /** An address object fetched from the device: its name, its type
      ("ip-netmask", "fqdn", ...) and its value. */
  datatype AddressObject = AddressObject(name: string, kind: string, value: Value)

  /** An address group; an empty static value is a dynamic group. */
  datatype AddressGroup = AddressGroup(name: string, staticValue: seq<string>)

  /** `mem.address_object_entries` and `mem.address_group_entries`. */
  datatype Directory = Directory(objects: seq<AddressObject>, groups: seq<AddressGroup>)

  /** The stand-in address given to a matched object that is not an ip-netmask. */
  const Placeholder: string := "1.1.1.1"

  // ---------------------------------------------------------------------------
  // address_lookup

  /** The index of the last object named `entry`, if any. */
  function LastObject(objs: seq<AddressObject>, entry: string): (r: Option<nat>)
    ensures r.Some? ==> r.value < |objs| && objs[r.value].name == entry &&
                        forall j :: r.value < j < |objs| ==> objs[j].name != entry
    ensures r.None? ==> forall j :: 0 <= j < |objs| ==> objs[j].name != entry
    decreases |objs|
  {
    if objs == [] then None
    else if objs[|objs| - 1].name == entry then Some(|objs| - 1)
    else LastObject(objs[..|objs| - 1], entry)
  }

  /** What one matching object resolves to, before list normalisation. */
  function ObjectValue(o: AddressObject): Value {
    if o.kind == "ip-netmask" then o.value else List([Placeholder])
  }

  /** `address_lookup(entry)`: the addresses of the last object named
      `entry`, or `entry` itself when no object has that name. */
  function LookupAddress(objs: seq<AddressObject>, entry: string): seq<string> {
    match LastObject(objs, entry)
    case None => [entry]
    case Some(i) => AsList(ObjectValue(objs[i]))
  }

  /** The lookup loop of `address_lookup`, with its `found` and `ips` variables. */
  method AddressLookup(objs: seq<AddressObject>, entry: string) returns (ips: seq<string>)
    ensures ips == LookupAddress(objs, entry)
  {
    var found := false;
    var hit: Value := Single(entry);
    var i := 0;
    while i < |objs|
      invariant 0 <= i <= |objs|
      invariant found == LastObject(objs[..i], entry).Some?
      invariant found ==> hit == ObjectValue(objs[LastObject(objs[..i], entry).value])
    {
      assert objs[..i + 1][..i] == objs[..i];
      if entry == objs[i].name {
        if objs[i].kind == "ip-netmask" {
          found := true;
          hit := objs[i].value;
        } else {
          found := true;
          hit := List([Placeholder]);
        }
      }
      i := i + 1;
    }
    assert objs[..|objs|] == objs;
    if !found {
      hit := Single(entry);
    }
    ips := AsList(hit);
  }

  /** An object with another name appended after the others does not change
      a lookup, and one with the name takes it over: the last match wins. */
  lemma LookupLastMatchWins(objs: seq<AddressObject>, o: AddressObject, entry: string)
    ensures o.name != entry ==> LookupAddress(objs + [o], entry) == LookupAddress(objs, entry)
    ensures o.name == entry ==> LookupAddress(objs + [o], entry) == AsList(ObjectValue(o))
  {
    assert (objs + [o])[..|objs|] == objs;
  }

  /** The three outcomes of `address_lookup`: the value of an ip-netmask
      object, the placeholder for another type, the entry for no match. */
  lemma LookupOutcomes(objs: seq<AddressObject>, entry: string)
    ensures (forall j :: 0 <= j < |objs| ==> objs[j].name != entry) ==> LookupAddress(objs, entry) == [entry]
    ensures forall i :: 0 <= i < |objs| && objs[i].name == entry &&
                        (forall j :: i < j < |objs| ==> objs[j].name != entry) ==>
              LookupAddress(objs, entry) ==
                (if objs[i].kind == "ip-netmask" then AsList(objs[i].value) else [Placeholder])
  {
  }

  // ---------------------------------------------------------------------------
  // address_group_lookup

  /** The index of the last group named `entry` with a static value. */
  function LastStaticGroup(groups: seq<AddressGroup>, entry: string): (r: Option<nat>)
    ensures r.Some? ==> r.value < |groups| && groups[r.value].name == entry &&
                        groups[r.value].staticValue != [] &&
                        forall j :: r.value < j < |groups| ==> groups[j].name != entry || groups[j].staticValue == []
    ensures r.None? ==> forall j :: 0 <= j < |groups| ==> groups[j].name != entry || groups[j].staticValue == []
    decreases |groups|
  {
    if groups == [] then None
    else
      var g := groups[|groups| - 1];
      if g.name == entry && g.staticValue != [] then Some(|groups| - 1)
      else LastStaticGroup(groups[..|groups| - 1], entry)
  }

  /** The addresses of the members `ms`, each looked up as an address
      object, concatenated in member order. */
  function ResolveAll(objs: seq<AddressObject>, ms: seq<string>): seq<string>
    decreases |ms|
  {
    if ms == [] then [] else ResolveAll(objs, ms[..|ms| - 1]) + LookupAddress(objs, ms[|ms| - 1])
  }

  /** `address_group_lookup(entry)`: None when no group of that name has a
      static value, otherwise its members' addresses. */
  function LookupGroup(dir: Directory, entry: string): Option<seq<string>> {
    match LastStaticGroup(dir.groups, entry)
    case None => None
    case Some(i) => Some(ResolveAll(dir.objects, dir.groups[i].staticValue))
  }

  method AddressGroupLookup(dir: Directory, entry: string) returns (r: Option<seq<string>>)
    ensures r == LookupGroup(dir, entry)
  {
    var found := false;
    var members: seq<string> := [];
    var i := 0;
    while i < |dir.groups|
      invariant 0 <= i <= |dir.groups|
      invariant found == LastStaticGroup(dir.groups[..i], entry).Some?
      invariant found ==> members == dir.groups[LastStaticGroup(dir.groups[..i], entry).value].staticValue
    {
      assert dir.groups[..i + 1][..i] == dir.groups[..i];
      var g := dir.groups[i];
      if entry == g.name && g.staticValue != [] {
        found := true;
        members := g.staticValue;
      }
      i := i + 1;
    }
    assert dir.groups[..|dir.groups|] == dir.groups;
    if !found {
      return None;
    }
    var ips := ResolveMembers(dir.objects, members);
    return Some(ips);
  }

  /** The member loop of `address_group_lookup`: `ips += address_lookup(member)`. */
  method ResolveMembers(objs: seq<AddressObject>, members: seq<string>) returns (ips: seq<string>)
    ensures ips == ResolveAll(objs, members)
  {
    ips := [];
    var j := 0;
    while j < |members|
      invariant 0 <= j <= |members|
      invariant ips == ResolveAll(objs, members[..j])
    {
      assert members[..j + 1][..j] == members[..j];
      var more := AddressLookup(objs, members[j]);
      ips := ips + more;
      j := j + 1;
    }
    assert members[..|members|] == members;
  }

  /** Resolving a member list resolves its parts independently. */
  lemma {:induction false} ResolveAllAppend(objs: seq<AddressObject>, ms1: seq<string>, ms2: seq<string>)
    ensures ResolveAll(objs, ms1 + ms2) == ResolveAll(objs, ms1) + ResolveAll(objs, ms2)
    decreases |ms2|
  {
    if ms2 == [] {
      assert ms1 + ms2 == ms1;
    } else {
      var n := |ms2| - 1;
      var last := LookupAddress(objs, ms2[n]);
      assert (ms1 + ms2)[..|ms1 + ms2| - 1] == ms1 + ms2[..n];
      assert (ms1 + ms2)[|ms1 + ms2| - 1] == ms2[n];
      assert ResolveAll(objs, ms1 + ms2) == ResolveAll(objs, ms1 + ms2[..n]) + last;
      ResolveAllAppend(objs, ms1, ms2[..n]);
      Regroup(ResolveAll(objs, ms1 + ms2), ResolveAll(objs, ms1 + ms2[..n]), ResolveAll(objs, ms1),
              ResolveAll(objs, ms2[..n]), ResolveAll(objs, ms2), last);
    }
  }

  /** Members that name no address object stand for themselves. */
  lemma {:induction false} ResolveAllUnknown(objs: seq<AddressObject>, ms: seq<string>)
    requires forall i, j :: 0 <= i < |ms| && 0 <= j < |objs| ==> objs[j].name != ms[i]
    ensures ResolveAll(objs, ms) == ms
    decreases |ms|
  {
    if ms != [] {
      var n := |ms| - 1;
      var init := ms[..n];
      ResolveAllUnknown(objs, init);
      LookupUnknown(objs, ms[n]);
      assert ResolveAll(objs, ms) == ResolveAll(objs, init) + [ms[n]];
      assert init + [ms[n]] == ms;
    }
  }

  /** A name no object carries resolves to itself. */
  lemma LookupUnknown(objs: seq<AddressObject>, entry: string)
    requires forall j :: 0 <= j < |objs| ==> objs[j].name != entry
    ensures LookupAddress(objs, entry) == [entry]
  {
    assert LastObject(objs, entry).None?;
  }

  // ---------------------------------------------------------------------------
  // addr_obj_check

  /** The addresses `addr_obj_check` tries for `addrobj`: a group's resolved
      members when that is non-empty, else the address lookup. */
  function Candidates(dir: Directory, addrobj: string): seq<string> {
    match LookupGroup(dir, addrobj)
    case Some(ips) => if ips != [] then ips else LookupAddress(dir.objects, addrobj)
    case None => LookupAddress(dir.objects, addrobj)
  }

  /** What is handed to `ipcalc.Network` for one candidate: the resolution
      of a group of that name when non-empty (one level of nesting), else
      the candidate itself. */
  function TipOf(dir: Directory, ip: string): Value {
    match LookupGroup(dir, ip)
    case Some(t) => if t != [] then List(t) else Single(ip)
    case None => Single(ip)
  }

  /** What the subnet loop of `addr_obj_check` leaves behind on one parsed
      network: the `found` flag, and whether a containment test raised,
      which ends the loop and skips the `if found` test. */
  datatype Probe = Probe(found: bool, raised: bool)

  /** The subnet loop on network `n`, entered with the flag `found`. */
  function SubnetScan<N>(lib: Calc<N>, n: N, subnets: seq<string>, found: bool): Probe
    decreases |subnets|
  {
    if subnets == [] then Probe(found, false)
    else match lib.contains(n, subnets[0])
      case None => Probe(found, true)
      case Some(b) => SubnetScan(lib, n, subnets[1..], found || b)
  }

  /** The loop over the candidates `ips`, with the `found` flag carried over
      from the candidates before: true as soon as a subnet loop ends without
      raising and with the flag set; a candidate that does not parse, or
      whose subnet loop raises, is passed over. */
  predicate CheckFrom<N>(dir: Directory, lib: Calc<N>, subnets: seq<string>, ips: seq<string>, found: bool)
    decreases |ips|
  {
    ips != [] &&
    match lib.network(TipOf(dir, ips[0]))
    case None => CheckFrom(dir, lib, subnets, ips[1..], found)
    case Some(n) =>
      var p := SubnetScan(lib, n, subnets, found);
      (!p.raised && p.found) || CheckFrom(dir, lib, subnets, ips[1..], p.found)
  }

  /** `addr_obj_check(addrobj)`. */
  predicate Trusted<N>(dir: Directory, lib: Calc<N>, subnets: seq<string>, addrobj: string) {
    CheckFrom(dir, lib, subnets, Candidates(dir, addrobj), false)
  }

  /** `tip` parses as a network, every trust subnet can be tested against
      it, and one of them lies in it. */
  predicate InTrust<N>(lib: Calc<N>, subnets: seq<string>, tip: Value) {
    match lib.network(tip)
    case None => false
    case Some(n) =>
      (forall s :: s in subnets ==> lib.contains(n, s).Some?) &&
      exists s :: s in subnets && lib.contains(n, s) == Some(true)
  }

  /** No subnet of `subnets` can be tested against any network a candidate
      of `ips` parses as. */
  predicate NeverRaises<N>(dir: Directory, lib: Calc<N>, subnets: seq<string>, ips: seq<string>) {
    forall ip, s :: ip in ips && s in subnets && lib.network(TipOf(dir, ip)).Some? ==>
      lib.contains(lib.network(TipOf(dir, ip)).value, s).Some?
  }

  method AddrObjCheck<N>(dir: Directory, lib: Calc<N>, subnets: seq<string>, addrobj: string) returns (b: bool)
    ensures b == Trusted(dir, lib, subnets, addrobj)
  {
    var ips := AddressGroupLookup(dir, addrobj);
    var candidates: seq<string>;
    if ips.None? || ips.value == [] {
      candidates := AddressLookup(dir.objects, addrobj);
    } else {
      candidates := ips.value;
    }
    b := CheckCandidates(dir, lib, subnets, candidates);
  }

  /** The candidate loop of `addr_obj_check`. */
  method CheckCandidates<N>(dir: Directory, lib: Calc<N>, subnets: seq<string>, candidates: seq<string>) returns (b: bool)
    ensures b == CheckFrom(dir, lib, subnets, candidates, false)
  {
    var found := false;
    var i := 0;
    while i < |candidates|
      invariant 0 <= i <= |candidates|
      invariant CheckFrom(dir, lib, subnets, candidates, false) == CheckFrom(dir, lib, subnets, candidates[i..], found)
    {
      CheckFromStep(dir, lib, subnets, candidates[i..], found);
      assert candidates[i..][1..] == candidates[i + 1..];
      var ip := candidates[i];
      var group := AddressGroupLookup(dir, ip);
      var tip: Value := if group.None? || group.value == [] then Single(ip) else List(group.value);
      assert tip == TipOf(dir, ip);
      var iprange := lib.network(tip);
      if iprange.Some? {
        var raised;
        found, raised := ContainsSubnet(lib, iprange.value, subnets, found);
        if !raised && found {
          return true;
        }
      }
      i := i + 1;
    }
    return false;
  }

  /** One turn of the candidate loop. */
  lemma CheckFromStep<N>(dir: Directory, lib: Calc<N>, subnets: seq<string>, ips: seq<string>, found: bool)
    requires ips != []
    ensures lib.network(TipOf(dir, ips[0])).None? ==>
              CheckFrom(dir, lib, subnets, ips, found) == CheckFrom(dir, lib, subnets, ips[1..], found)
    ensures lib.network(TipOf(dir, ips[0])).Some? ==>
              var p := SubnetScan(lib, lib.network(TipOf(dir, ips[0])).value, subnets, found);
              CheckFrom(dir, lib, subnets, ips, found) == ((!p.raised && p.found) || CheckFrom(dir, lib, subnets, ips[1..], p.found))
  {
  }

  /** The subnet loop of `addr_obj_check` on one parsed network. */
  method ContainsSubnet<N>(lib: Calc<N>, network: N, subnets: seq<string>, found0: bool) returns (found: bool, raised: bool)
    ensures Probe(found, raised) == SubnetScan(lib, network, subnets, found0)
    ensures raised <==> exists s :: s in subnets && lib.contains(network, s).None?
    ensures !raised ==> (found <==> found0 || exists s :: s in subnets && lib.contains(network, s) == Some(true))
  {
    found, raised := found0, false;
    var k := 0;
    while k < |subnets|
      invariant 0 <= k <= |subnets|
      invariant SubnetScan(lib, network, subnets, found0) == SubnetScan(lib, network, subnets[k..], found)
    {
      assert subnets[k..][1..] == subnets[k + 1..];
      var t := lib.contains(network, subnets[k]);
      if t.None? {
        raised := true;
        break;
      }
      if t.value {
        found := true;
      }
      k := k + 1;
    }
    SubnetScanMeaning(lib, network, subnets, found0);
  }

  /** The subnet loop raises exactly when some subnet cannot be tested; when
      none raises it ends with the flag set exactly when it came in set or a
      subnet lies in the network. */
  lemma {:induction false} SubnetScanMeaning<N>(lib: Calc<N>, n: N, subnets: seq<string>, found: bool)
    ensures SubnetScan(lib, n, subnets, found).raised <==> exists s :: s in subnets && lib.contains(n, s).None?
    ensures !SubnetScan(lib, n, subnets, found).raised ==>
      (SubnetScan(lib, n, subnets, found).found <==> found || exists s :: s in subnets && lib.contains(n, s) == Some(true))
    decreases |subnets|
  {
    if subnets != [] {
      var c := lib.contains(n, subnets[0]);
      if c.Some? {
        SubnetScanMeaning(lib, n, subnets[1..], found || c.value);
        forall s | s in subnets ensures s == subnets[0] || s in subnets[1..] {
          var i :| 0 <= i < |subnets| && subnets[i] == s;
          if i > 0 { assert subnets[1..][i - 1] == s; }
        }
      }
    }
  }

  /** A candidate in trust makes the loop succeed, whatever comes before it. */
  lemma {:induction false} CheckFromInTrust<N>(dir: Directory, lib: Calc<N>, subnets: seq<string>, ips: seq<string>, found: bool, i: nat)
    requires i < |ips| && InTrust(lib, subnets, TipOf(dir, ips[i]))
    ensures CheckFrom(dir, lib, subnets, ips, found)
    decreases i
  {
    match lib.network(TipOf(dir, ips[0]))
    case None =>
      CheckFromInTrust(dir, lib, subnets, ips[1..], found, i - 1);
    case Some(n) =>
      var p := SubnetScan(lib, n, subnets, found);
      SubnetScanMeaning(lib, n, subnets, found);
      if i == 0 {
        var s :| s in subnets && lib.contains(n, s) == Some(true);
      } else if !(!p.raised && p.found) {
        CheckFromInTrust(dir, lib, subnets, ips[1..], p.found, i - 1);
      }
  }

  /** When no test raises, the loop (entered with the flag clear) succeeds
      only through a candidate in trust. */
  lemma {:induction false} CheckFromOnlyInTrust<N>(dir: Directory, lib: Calc<N>, subnets: seq<string>, ips: seq<string>)
    requires NeverRaises(dir, lib, subnets, ips)
    requires CheckFrom(dir, lib, subnets, ips, false)
    ensures exists ip :: ip in ips && InTrust(lib, subnets, TipOf(dir, ip))
    decreases |ips|
  {
    assert ips[0] in ips;
    var rest := ips[1..];
    assert NeverRaises(dir, lib, subnets, rest) by {
      forall ip | ip in rest ensures ip in ips { }
    }
    match lib.network(TipOf(dir, ips[0]))
    case None =>
      CheckFromOnlyInTrust(dir, lib, subnets, rest);
      var ip :| ip in rest && InTrust(lib, subnets, TipOf(dir, ip));
    case Some(n) =>
      SubnetScanMeaning(lib, n, subnets, false);
      var p := SubnetScan(lib, n, subnets, false);
      assert !p.raised;
      if p.found {
        var s :| s in subnets && lib.contains(n, s) == Some(true);
        assert InTrust(lib, subnets, TipOf(dir, ips[0]));
      } else {
        CheckFromOnlyInTrust(dir, lib, subnets, rest);
        var ip :| ip in rest && InTrust(lib, subnets, TipOf(dir, ip));
      }
  }

  /** A candidate that parses as a network containing a trust subnet, with
      every subnet testable against it, makes the address trusted. */
  lemma InTrustTrusted<N>(dir: Directory, lib: Calc<N>, subnets: seq<string>, addrobj: string, ip: string)
    requires ip in Candidates(dir, addrobj) && InTrust(lib, subnets, TipOf(dir, ip))
    ensures Trusted(dir, lib, subnets, addrobj)
  {
    var ips := Candidates(dir, addrobj);
    var i :| 0 <= i < |ips| && ips[i] == ip;
    CheckFromInTrust(dir, lib, subnets, ips, false, i);
  }

  /** Where no containment test raises, an address is trusted exactly when
      one of its candidates is in trust. */
  lemma TrustedIffInTrust<N>(dir: Directory, lib: Calc<N>, subnets: seq<string>, addrobj: string)
    requires NeverRaises(dir, lib, subnets, Candidates(dir, addrobj))
    ensures Trusted(dir, lib, subnets, addrobj) <==>
            exists ip :: ip in Candidates(dir, addrobj) && InTrust(lib, subnets, TipOf(dir, ip))
  {
    if Trusted(dir, lib, subnets, addrobj) {
      CheckFromOnlyInTrust(dir, lib, subnets, Candidates(dir, addrobj));
    }
    if exists ip :: ip in Candidates(dir, addrobj) && InTrust(lib, subnets, TipOf(dir, ip)) {
      var ip :| ip in Candidates(dir, addrobj) && InTrust(lib, subnets, TipOf(dir, ip));
      InTrustTrusted(dir, lib, subnets, addrobj, ip);
    }
  }

  /** With the flag clear and no trust subnets, the loop never succeeds. */
  lemma {:induction false} CheckFromNoSubnets<N>(dir: Directory, lib: Calc<N>, ips: seq<string>)
    ensures !CheckFrom(dir, lib, [], ips, false)
    decreases |ips|
  {
    if ips != [] {
      CheckFromNoSubnets(dir, lib, ips[1..]);
    }
  }

  /** Without trust subnets no address is ever trusted. */
  lemma NoSubnetsNothingTrusted<N>(dir: Directory, lib: Calc<N>, addrobj: string)
    ensures !Trusted(dir, lib, [], addrobj)
  {
    CheckFromNoSubnets(dir, lib, Candidates(dir, addrobj));
  }

  /** A trust subnet that cannot be tested against any network makes every
      subnet loop raise, so nothing is trusted. */
  lemma {:induction false} CheckFromUntestable<N>(dir: Directory, lib: Calc<N>, subnets: seq<string>, s: string, ips: seq<string>, found: bool)
    requires s in subnets && forall n :: lib.contains(n, s).None?
    ensures !CheckFrom(dir, lib, subnets, ips, found)
    decreases |ips|
  {
    if ips != [] {
      match lib.network(TipOf(dir, ips[0]))
      case None =>
        CheckFromUntestable(dir, lib, subnets, s, ips[1..], found);
      case Some(n) =>
        SubnetScanMeaning(lib, n, subnets, found);
        CheckFromUntestable(dir, lib, subnets, s, ips[1..], SubnetScan(lib, n, subnets, found).found);
    }
  }

  /** A trust subnet that never parses as an address disables the check. */
  lemma UntestableSubnetNothingTrusted<N>(dir: Directory, lib: Calc<N>, subnets: seq<string>, s: string, addrobj: string)
    requires s in subnets && forall n :: lib.contains(n, s).None?
    ensures !Trusted(dir, lib, subnets, addrobj)
  {
    CheckFromUntestable(dir, lib, subnets, s, Candidates(dir, addrobj), false);
  }

  /** A plain address, named by no group and no object, is trusted exactly
      when it parses as a network that every trust subnet can be tested
      against and that contains one of them. */
  lemma PlainAddressTrusted<N>(dir: Directory, lib: Calc<N>, subnets: seq<string>, ip: string)
    requires forall j :: 0 <= j < |dir.objects| ==> dir.objects[j].name != ip
    requires forall j :: 0 <= j < |dir.groups| ==> dir.groups[j].name != ip
    ensures Trusted(dir, lib, subnets, ip) <==> InTrust(lib, subnets, Single(ip))
  {
    assert Candidates(dir, ip) == [ip];
    assert TipOf(dir, ip) == Single(ip);
    assert [ip][1..] == [];
    CheckFromStep(dir, lib, subnets, [ip], false);
    if lib.network(Single(ip)).Some? {
      SubnetScanMeaning(lib, lib.network(Single(ip)).value, subnets, false);
    }
  }

  // ---------------------------------------------------------------------------
  // Single-IP mode (eastwest-helper/sdk-ew/sdk-ew.py:289-291)

  /** Some trust subnet is a single host. */
  predicate SingleIpMode(subnets: seq<string>) {
    exists s :: s in subnets && EndsWith(s, "/32")
  }

  method DeriveSingleIp(subnets: seq<string>) returns (singleip: bool)
    ensures singleip == SingleIpMode(subnets)
  {
    singleip := false;
    var i := 0;
    while i < |subnets|
      invariant 0 <= i <= |subnets|
      invariant singleip <==> exists s :: s in subnets[..i] && EndsWith(s, "/32")
    {
      assert subnets[..i + 1] == subnets[..i] + [subnets[i]];
      if EndsWith(subnets[i], "/32") {
        singleip := true;
      }
      i := i + 1;
    }
    assert subnets[..|subnets|] == subnets;
  }

  /** One single-host subnet switches the mode on, whatever the others are:
      the flag is set by any "/32" subnet, not only when all are. */
  lemma SingleIpFromAnyHostSubnet(subnets: seq<string>, i: nat)
    requires i < |subnets| && EndsWith(subnets[i], "/32")
    ensures SingleIpMode(subnets)
  {
    assert subnets[i] in subnets;
  }
}
