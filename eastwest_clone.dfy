/** The east-west clone decision of eastwest-helper/sdk-ew/sdk-ew.py: for
    each direction of a security rule, a rule whose trust-zone side carries
    "any" (outside single-IP mode) or an address inside a trust subnet gets a
    copy, placed just before it, whose trust zone is replaced by the new
    east-west zone. */
module EastwestClone {
  import opened Shapes
  import opened IpCalc
  import opened EastwestLookup

  /** A security rule: the fields the clone decision reads and writes, and
      every other field in `others`. */
  datatype EwRule = EwRule(
    name: string,
    fromzone: seq<string>,
    tozone: seq<string>,
    source: seq<string>,
    destination: seq<string>,
    others: map<string, string>)

  /** "src" reads fromzone/source, "dst" reads tozone/destination. */
  datatype Direction = Src | Dst

  function Other(d: Direction): Direction {
    if d == Src then Dst else Src
  }

  function Zones(r: EwRule, d: Direction): seq<string> {
    if d == Src then r.fromzone else r.tozone
  }

  function Addrs(r: EwRule, d: Direction): seq<string> {
    if d == Src then r.source else r.destination
  }

  function WithZones(r: EwRule, d: Direction, zs: seq<string>): (r': EwRule)
    ensures Zones(r', d) == zs && Addrs(r', d) == Addrs(r, d) && SameOutside(r', r, d)
  {
    if d == Src then r.(fromzone := zs) else r.(tozone := zs)
  }

  function WithAddrs(r: EwRule, d: Direction, addrs: seq<string>): (r': EwRule)
    ensures Addrs(r', d) == addrs && Zones(r', d) == Zones(r, d) && SameOutside(r', r, d)
  {
    if d == Src then r.(source := addrs) else r.(destination := addrs)
  }

  /** `a` and `b` agree on the name, the other direction and every other field. */
  predicate SameOutside(a: EwRule, b: EwRule, d: Direction) {
    && a.name == b.name
    && a.others == b.others
    && Zones(a, Other(d)) == Zones(b, Other(d))
    && Addrs(a, Other(d)) == Addrs(b, Other(d))
  }

  /** The fixed inputs of a run: the fetched objects and groups, the ipcalc
      operations, EXISTING_TRUST_ZONE, NEW_EASTWEST_ZONE,
      EXISTING_TRUST_SUBNET and the single-IP flag derived from it. */
  datatype Env<!N> = Env(
    dir: Directory,
    lib: Calc<N>,
    trustZone: string,
    newZone: string,
    trustSubnets: seq<string>,
    singleIp: bool)

  /** What the clone decision needs of the run: the trust zone, the new
      zone, the single-IP flag and the answer `addr_obj_check` gives for an
      address. */
  datatype Policy = Policy(trustZone: string, newZone: string, singleIp: bool, trusted: string -> bool)

  function PolicyOf<N>(env: Env<N>): Policy {
    Policy(env.trustZone, env.newZone, env.singleIp, a => Trusted(env.dir, env.lib, env.trustSubnets, a))
  }

  /** An address on the trust zone that makes the rule a clone: "any" unless
      in single-IP mode, or an address `addr_obj_check` places in a trust
      subnet. */
  predicate Triggers(p: Policy, a: string) {
    if a == "any" then !p.singleIp else p.trusted(a)
  }

  /** The `clone` flag and the lazily made copy `new_rule`. */
  datatype Pass = Pass(clone: bool, work: Option<EwRule>)

  /** The rule edits are made on: the copy once there is one. */
  function Current(st: Pass, orig: EwRule): EwRule {
    st.work.GetOr(orig)
  }

  /** The trust zone removed from the copy's zones and the new zone
      appended unless present. */
  function RezoneList(zs: seq<string>, zone: string, newZone: string): seq<string> {
    AppendMissing(RemoveIfPresent(zs, zone), newZone)
  }

  /** One address examined on a trust zone (sdk-ew.py:177-214). */
  function AddrStep(p: Policy, orig: EwRule, d: Direction, st: Pass, a: string): Pass {
    if Triggers(p, a) then
      var w := Current(st, orig);
      Pass(true, Some(WithZones(w, d, RezoneList(Zones(w, d), p.trustZone, p.newZone))))
    else if a == "any" || st.work.None? then st
    else
      var w := st.work.value;
      Pass(st.clone, Some(WithAddrs(w, d, RemoveIfPresent(Addrs(w, d), a))))
  }

  /** The address loop, run once per trust zone. */
  function AddrWalk(p: Policy, orig: EwRule, d: Direction, st: Pass, addrs: seq<string>): Pass
    decreases |addrs|
  {
    if addrs == [] then st else AddrWalk(p, orig, d, AddrStep(p, orig, d, st, addrs[0]), addrs[1..])
  }

  /** One zone examined: only the trust zone runs the address loop. */
  function ZoneHead(p: Policy, orig: EwRule, d: Direction, st: Pass, z: string): Pass {
    if z == p.trustZone then AddrWalk(p, orig, d, st, Addrs(orig, d)) else st
  }

  /** The zone loop (sdk-ew.py:175-214). */
  function ZoneWalk(p: Policy, orig: EwRule, d: Direction, st: Pass, zs: seq<string>): Pass
    decreases |zs|
  {
    if zs == [] then st else ZoneWalk(p, orig, d, ZoneHead(p, orig, d, st, zs[0]), zs[1..])
  }

  /** `should_be_cloned(old_rule, srcdst, new_rule)`: the returned flag and
      the copy, renamed with "-cloned" when the flag is set. */
  function Decide(p: Policy, orig: EwRule, d: Direction, work: Option<EwRule>): Pass {
    var st := ZoneWalk(p, orig, d, Pass(false, work), Zones(orig, d));
    if st.clone then
      var w := Current(st, orig);
      Pass(true, Some(w.(name := w.name + "-cloned")))
    else st
  }

  /** The clone `eastwest_addnew_zone` adds for `orig`, if any: the source
      pass, then the destination pass on the source clone when there is
      one. */
  function CloneOf(p: Policy, orig: EwRule): Option<EwRule> {
    var src := Decide(p, orig, Src, None);
    if src.clone then
      Decide(p, orig, Dst, src.work).work
    else
      var dst := Decide(p, orig, Dst, None);
      if dst.clone then dst.work else None
  }

  /** The rulebase after the run: each clone just before its original. */
  function WithClones(p: Policy, rules: seq<EwRule>): seq<EwRule> {
    Spliced(orig => CloneOf(p, orig), rules)
  }

  /** `rules` with `cloneOf(r)`, where there is one, inserted before each `r`. */
  function Spliced(cloneOf: EwRule -> Option<EwRule>, rules: seq<EwRule>): seq<EwRule>
    decreases |rules|
  {
    if rules == [] then []
    else
      var orig := rules[|rules| - 1];
      Spliced(cloneOf, rules[..|rules| - 1]) + Emitted(cloneOf(orig), orig)
  }

  function Emitted(clone: Option<EwRule>, orig: EwRule): seq<EwRule> {
    match clone
    case None => [orig]
    case Some(c) => [c, orig]
  }

  // ---------------------------------------------------------------------------
  // The methods, as the script runs them

  /** `should_be_cloned`: the zone loop; the address loop for each trust
      zone is `ExamineAddresses`. */
  method ShouldBeCloned<N>(env: Env<N>, orig: EwRule, d: Direction, newRule: Option<EwRule>)
    returns (clone: bool, work: Option<EwRule>)
    ensures Pass(clone, work) == Decide(PolicyOf(env), orig, d, newRule)
  {
    ghost var p := PolicyOf(env);
    clone := false;
    work := newRule;
    var zones := Zones(orig, d);
    var i := 0;
    while i < |zones|
      invariant 0 <= i <= |zones|
      invariant ZoneWalk(p, orig, d, Pass(false, newRule), zones) == ZoneWalk(p, orig, d, Pass(clone, work), zones[i..])
    {
      assert zones[i..][0] == zones[i] && zones[i..][1..] == zones[i + 1..];
      if zones[i] == env.trustZone {
        clone, work := ExamineAddresses(env, orig, d, clone, work);
      }
      i := i + 1;
    }
    ZoneWalkKeepsCopy(p, orig, d, Pass(false, newRule), zones);
    if clone {
      work := Some(work.value.(name := work.value.name + "-cloned"));
    }
  }

  /** The address loop of `should_be_cloned`, run for one trust zone. */
  method ExamineAddresses<N>(env: Env<N>, orig: EwRule, d: Direction, clone0: bool, work0: Option<EwRule>)
    returns (clone: bool, work: Option<EwRule>)
    ensures Pass(clone, work) == AddrWalk(PolicyOf(env), orig, d, Pass(clone0, work0), Addrs(orig, d))
  {
    ghost var p := PolicyOf(env);
    clone, work := clone0, work0;
    var addrs := Addrs(orig, d);
    var j := 0;
    while j < |addrs|
      invariant 0 <= j <= |addrs|
      invariant AddrWalk(p, orig, d, Pass(clone0, work0), addrs) == AddrWalk(p, orig, d, Pass(clone, work), addrs[j..])
    {
      assert addrs[j..][0] == addrs[j] && addrs[j..][1..] == addrs[j + 1..];
      clone, work := ExamineAddress(env, orig, d, clone, work, addrs[j]);
      j := j + 1;
    }
  }

  /** One address on a trust zone: a trigger rezones the copy, made on
      demand; any other concrete address is dropped from an existing copy. */
  method ExamineAddress<N>(env: Env<N>, orig: EwRule, d: Direction, clone0: bool, work0: Option<EwRule>, addrobj: string)
    returns (clone: bool, work: Option<EwRule>)
    ensures Pass(clone, work) == AddrStep(PolicyOf(env), orig, d, Pass(clone0, work0), addrobj)
  {
    ghost var p := PolicyOf(env);
    clone, work := clone0, work0;
    var tag := false;
    if addrobj == "any" {
      tag := !env.singleIp;
    } else {
      tag := AddrObjCheck(env.dir, env.lib, env.trustSubnets, addrobj);
    }
    assert tag == Triggers(p, addrobj);
    if tag {
      clone := true;
      if work.None? {
        work := Some(orig);
      }
      var zs := Zones(work.value, d);
      if env.trustZone in zs {
        zs := RemoveFirst(zs, env.trustZone).value;
      }
      if env.newZone !in zs {
        zs := zs + [env.newZone];
      }
      work := Some(WithZones(work.value, d, zs));
    } else if addrobj != "any" && work.Some? {
      var kept := Addrs(work.value, d);
      if addrobj in kept {
        kept := RemoveFirst(kept, addrobj).value;
      }
      work := Some(WithAddrs(work.value, d, kept));
    }
  }

  /** `eastwest_addnew_zone`: each clone is added to the rulebase and moved
      before its original. */
  method EastwestAddNewZone<N>(env: Env<N>, rules: seq<EwRule>) returns (rulebase: seq<EwRule>)
    ensures rulebase == WithClones(PolicyOf(env), rules)
  {
    ghost var p := PolicyOf(env);
    ghost var cloneOf := orig => CloneOf(p, orig);
    rulebase := rules;
    var added := 0;
    var i := 0;
    while i < |rules|
      invariant 0 <= i <= |rules|
      invariant rulebase == Spliced(cloneOf, rules[..i]) + rules[i..]
      invariant |Spliced(cloneOf, rules[..i])| == i + added
    {
      var newRule := RuleClone(env, rules[i]);
      var pos := i + added;
      InsertBeforeOriginal(cloneOf, rules, i, rulebase, pos);
      if newRule.Some? {
        rulebase := rulebase[..pos] + [newRule.value] + rulebase[pos..];
        added := added + 1;
      }
      i := i + 1;
    }
    assert rules[..|rules|] == rules;
  }

  /** The source pass, then the destination pass on its copy: the clone of
      one rule, if it has one. */
  method RuleClone<N>(env: Env<N>, oldrule: EwRule) returns (newRule: Option<EwRule>)
    ensures newRule == CloneOf(PolicyOf(env), oldrule)
  {
    var srcClone, srcWork := ShouldBeCloned(env, oldrule, Src, None);
    if srcClone {
      var dstClone, dstWork := ShouldBeCloned(env, oldrule, Dst, srcWork);
      newRule := dstWork;
    } else {
      var dstClone, dstWork := ShouldBeCloned(env, oldrule, Dst, None);
      newRule := if dstClone then dstWork else None;
    }
  }

  /** Putting rule `i`'s clone at its original's place extends the rulebase
      built so far by that rule. */
  lemma InsertBeforeOriginal(cloneOf: EwRule -> Option<EwRule>, rules: seq<EwRule>, i: nat, rulebase: seq<EwRule>, pos: nat)
    requires i < |rules|
    requires rulebase == Spliced(cloneOf, rules[..i]) + rules[i..]
    requires |Spliced(cloneOf, rules[..i])| == pos
    ensures var c := cloneOf(rules[i]);
            var next := if c.Some? then rulebase[..pos] + [c.value] + rulebase[pos..] else rulebase;
            next == Spliced(cloneOf, rules[..i + 1]) + rules[i + 1..] &&
            |Spliced(cloneOf, rules[..i + 1])| == pos + (if c.Some? then 2 else 1)
  {
    assert rules[..i + 1][..i] == rules[..i];
    assert rules[i..] == [rules[i]] + rules[i + 1..];
    assert Spliced(cloneOf, rules[..i + 1]) == Spliced(cloneOf, rules[..i]) + Emitted(cloneOf(rules[i]), rules[i]);
    EmitAt(Spliced(cloneOf, rules[..i]), rules[i], rules[i + 1..], cloneOf(rules[i]));
  }

  /** Inserting the clone between the rules done and rule `x` itself. */
  lemma EmitAt(done: seq<EwRule>, x: EwRule, rest: seq<EwRule>, c: Option<EwRule>)
    ensures var rb := done + ([x] + rest);
            && (if c.Some? then rb[..|done|] + [c.value] + rb[|done|..] else rb) == done + Emitted(c, x) + rest
            && |done + Emitted(c, x)| == |done| + (if c.Some? then 2 else 1)
  {
    var rb := done + ([x] + rest);
    assert rb[..|done|] == done && rb[|done|..] == [x] + rest;
  }

  // ---------------------------------------------------------------------------
  // Walk facts

  /** Once made, the copy stays, and the flag is only ever set with a copy. */
  lemma {:induction false} AddrWalkKeepsCopy(p: Policy, orig: EwRule, d: Direction, st: Pass, addrs: seq<string>)
    ensures var r := AddrWalk(p, orig, d, st, addrs);
            && (r.clone <==> st.clone || exists a :: a in addrs && Triggers(p, a))
            && (r.work.Some? <==> st.work.Some? || exists a :: a in addrs && Triggers(p, a))
    decreases |addrs|
  {
    if addrs != [] {
      AddrWalkKeepsCopy(p, orig, d, AddrStep(p, orig, d, st, addrs[0]), addrs[1..]);
      assert forall a :: a in addrs <==> a == addrs[0] || a in addrs[1..];
    }
  }

  lemma {:induction false} ZoneWalkKeepsCopy(p: Policy, orig: EwRule, d: Direction, st: Pass, zs: seq<string>)
    ensures var r := ZoneWalk(p, orig, d, st, zs);
            var fires := p.trustZone in zs && exists a :: a in Addrs(orig, d) && Triggers(p, a);
            && (r.clone <==> st.clone || fires)
            && (r.work.Some? <==> st.work.Some? || fires)
    decreases |zs|
  {
    if zs != [] {
      if zs[0] == p.trustZone {
        AddrWalkKeepsCopy(p, orig, d, st, Addrs(orig, d));
        ZoneWalkKeepsCopy(p, orig, d, AddrWalk(p, orig, d, st, Addrs(orig, d)), zs[1..]);
      } else {
        ZoneWalkKeepsCopy(p, orig, d, st, zs[1..]);
      }
      assert forall z :: z in zs <==> z == zs[0] || z in zs[1..];
    }
  }

  /** The walks touch only the copy's zones and addresses of direction `d`. */
  lemma {:induction false} AddrWalkOutside(p: Policy, orig: EwRule, d: Direction, st: Pass, addrs: seq<string>)
    ensures SameOutside(Current(AddrWalk(p, orig, d, st, addrs), orig), Current(st, orig), d)
    decreases |addrs|
  {
    if addrs != [] {
      AddrWalkOutside(p, orig, d, AddrStep(p, orig, d, st, addrs[0]), addrs[1..]);
    }
  }

  lemma {:induction false} ZoneWalkOutside(p: Policy, orig: EwRule, d: Direction, st: Pass, zs: seq<string>)
    ensures SameOutside(Current(ZoneWalk(p, orig, d, st, zs), orig), Current(st, orig), d)
    decreases |zs|
  {
    if zs != [] {
      if zs[0] == p.trustZone {
        AddrWalkOutside(p, orig, d, st, Addrs(orig, d));
        ZoneWalkOutside(p, orig, d, AddrWalk(p, orig, d, st, Addrs(orig, d)), zs[1..]);
      } else {
        ZoneWalkOutside(p, orig, d, st, zs[1..]);
      }
    }
  }

  /** The number of addresses that trigger a clone. */
  function TriggerCount(p: Policy, addrs: seq<string>): (n: nat)
    ensures n <= |addrs|
  {
    if addrs == [] then 0 else (if Triggers(p, addrs[0]) then 1 else 0) + TriggerCount(p, addrs[1..])
  }

  /** `f` applied `n` times. */
  function Iterate<T>(f: T -> T, x: T, n: nat): T
    decreases n
  {
    if n == 0 then x else Iterate(f, f(x), n - 1)
  }

  lemma {:induction false} IterateAdd<T>(f: T -> T, x: T, a: nat, b: nat)
    ensures Iterate(f, Iterate(f, x, a), b) == Iterate(f, x, a + b)
    decreases a
  {
    if a > 0 {
      IterateAdd(f, f(x), a - 1, b);
    }
  }

  function Rezoner(zone: string, newZone: string): seq<string> -> seq<string> {
    zs => RezoneList(zs, zone, newZone)
  }

  /** `RezoneList` applied `n` times. */
  function RezoneN(zs: seq<string>, zone: string, newZone: string, n: nat): seq<string> {
    Iterate(Rezoner(zone, newZone), zs, n)
  }

  lemma RezoneNStep(zs: seq<string>, zone: string, newZone: string, n: nat)
    ensures RezoneN(zs, zone, newZone, n + 1) == RezoneN(RezoneList(zs, zone, newZone), zone, newZone, n)
  {
  }

  lemma RezoneNAdd(zs: seq<string>, zone: string, newZone: string, a: nat, b: nat)
    ensures RezoneN(RezoneN(zs, zone, newZone, a), zone, newZone, b) == RezoneN(zs, zone, newZone, a + b)
  {
    IterateAdd(Rezoner(zone, newZone), zs, a, b);
  }

  /** Every triggering address rezones the copy once more. */
  lemma {:induction false} AddrWalkZones(p: Policy, orig: EwRule, d: Direction, st: Pass, addrs: seq<string>)
    ensures Zones(Current(AddrWalk(p, orig, d, st, addrs), orig), d) ==
            RezoneN(Zones(Current(st, orig), d), p.trustZone, p.newZone, TriggerCount(p, addrs))
    decreases |addrs|
  {
    if addrs != [] {
      var st' := AddrStep(p, orig, d, st, addrs[0]);
      AddrWalkZones(p, orig, d, st', addrs[1..]);
      assert AddrWalk(p, orig, d, st, addrs) == AddrWalk(p, orig, d, st', addrs[1..]);
      var b := Triggers(p, addrs[0]);
      AddrStepZones(p, orig, d, st, addrs[0]);
      assert TriggerCount(p, addrs) == TriggerCount(p, addrs[1..]) + (if b then 1 else 0);
      IterateStep(Rezoner(p.trustZone, p.newZone), Zones(Current(st, orig), d), Zones(Current(st', orig), d),
                  Zones(Current(AddrWalk(p, orig, d, st, addrs), orig), d), b,
                  TriggerCount(p, addrs[1..]), TriggerCount(p, addrs));
    }
  }

  /** A triggering address rezones the copy; any other leaves its zones. */
  lemma AddrStepZones(p: Policy, orig: EwRule, d: Direction, st: Pass, a: string)
    ensures var z := Zones(Current(st, orig), d);
            Zones(Current(AddrStep(p, orig, d, st, a), orig), d) ==
              if Triggers(p, a) then Rezoner(p.trustZone, p.newZone)(z) else z
  {
  }

  /** Applying `f` once more, when `b` holds, before `n` applications. */
  lemma IterateStep<T>(f: T -> T, x: T, y: T, z: T, b: bool, n: nat, total: nat)
    requires y == if b then f(x) else x
    requires z == Iterate(f, y, n)
    requires total == n + if b then 1 else 0
    ensures z == Iterate(f, x, total)
  {
  }

  /** Every trust zone runs the address loop once, so the copy is rezoned
      (trust zones) x (triggering addresses) times. */
  lemma {:induction false} ZoneWalkZones(p: Policy, orig: EwRule, d: Direction, st: Pass, zs: seq<string>)
    ensures Zones(Current(ZoneWalk(p, orig, d, st, zs), orig), d) ==
            RezoneN(Zones(Current(st, orig), d), p.trustZone, p.newZone,
                    multiset(zs)[p.trustZone] * TriggerCount(p, Addrs(orig, d)))
    decreases |zs|
  {
    if zs != [] {
      var st' := ZoneHead(p, orig, d, st, zs[0]);
      var k := multiset(zs[1..])[p.trustZone];
      var t := TriggerCount(p, Addrs(orig, d));
      assert zs == [zs[0]] + zs[1..];
      assert multiset(zs)[p.trustZone] == k + (if zs[0] == p.trustZone then 1 else 0);
      ZoneWalkZones(p, orig, d, st', zs[1..]);
      ZoneHeadZones(p, orig, d, st, zs[0], k);
      assert ZoneWalk(p, orig, d, st, zs) == ZoneWalk(p, orig, d, st', zs[1..]);
    }
  }

  /** One more trust zone rezones the copy once per triggering address more. */
  lemma ZoneHeadZones(p: Policy, orig: EwRule, d: Direction, st: Pass, z: string, k: nat)
    ensures var t := TriggerCount(p, Addrs(orig, d));
            RezoneN(Zones(Current(ZoneHead(p, orig, d, st, z), orig), d), p.trustZone, p.newZone, k * t) ==
            RezoneN(Zones(Current(st, orig), d), p.trustZone, p.newZone, (k + (if z == p.trustZone then 1 else 0)) * t)
  {
    var t := TriggerCount(p, Addrs(orig, d));
    if z == p.trustZone {
      AddrWalkZones(p, orig, d, st, Addrs(orig, d));
      RezoneNAdd(Zones(Current(st, orig), d), p.trustZone, p.newZone, t, k * t);
      assert (k + 1) * t == t + k * t;
    }
  }

  /** Rezoning at least as often as the trust zone occurs removes it, puts
      the new zone in, and never makes the new zone occur more than once or
      more often than it did. */
  lemma {:induction false} RezoneNProperties(zs: seq<string>, zone: string, newZone: string, n: nat)
    requires zone != newZone
    ensures multiset(RezoneN(zs, zone, newZone, n))[zone] == if n >= multiset(zs)[zone] then 0 else multiset(zs)[zone] - n
    ensures n >= 1 ==> newZone in RezoneN(zs, zone, newZone, n)
    ensures multiset(RezoneN(zs, zone, newZone, n))[newZone] <=
              if multiset(zs)[newZone] <= 1 then 1 else multiset(zs)[newZone]
    decreases n
  {
    if n == 0 {
      assert RezoneN(zs, zone, newZone, 0) == zs;
    } else {
      var zs' := RezoneList(zs, zone, newZone);
      RezoneListProperties(zs, zone, newZone);
      RezoneNStep(zs, zone, newZone, n - 1);
      RezoneNProperties(zs', zone, newZone, n - 1);
      if n == 1 {
        assert RezoneN(zs', zone, newZone, 0) == zs';
      }
      var r := RezoneN(zs, zone, newZone, n);
      assert r == RezoneN(zs', zone, newZone, n - 1);
      assert multiset(r)[zone] == multiset(RezoneN(zs', zone, newZone, n - 1))[zone];
      assert multiset(r)[newZone] == multiset(RezoneN(zs', zone, newZone, n - 1))[newZone];
    }
  }

  /** One rezoning: one trust zone fewer, the new zone present, and the new
      zone no more frequent than once or than before. */
  lemma RezoneListProperties(zs: seq<string>, zone: string, newZone: string)
    requires zone != newZone
    ensures var r := RezoneList(zs, zone, newZone);
            && multiset(r)[zone] == (if multiset(zs)[zone] == 0 then 0 else multiset(zs)[zone] - 1)
            && newZone in r
            && multiset(r)[newZone] <= if multiset(zs)[newZone] <= 1 then 1 else multiset(zs)[newZone]
  {
    var m := RemoveIfPresent(zs, zone);
    if zone in zs {
      RemoveFirstCount(zs, zone);
    }
    assert multiset(m)[zone] == if multiset(zs)[zone] == 0 then 0 else multiset(zs)[zone] - 1;
    if newZone !in m {
      assert multiset(m + [newZone]) == multiset(m) + multiset{newZone};
    }
    SwapKeepsAtMostOnce(zs, zone, newZone);
  }

  lemma {:induction false} TriggerCountPositive(p: Policy, addrs: seq<string>)
    ensures TriggerCount(p, addrs) >= 1 <==> exists a :: a in addrs && Triggers(p, a)
    decreases |addrs|
  {
    if addrs != [] {
      TriggerCountPositive(p, addrs[1..]);
      assert forall a :: a in addrs <==> a == addrs[0] || a in addrs[1..];
    }
  }

  // ---------------------------------------------------------------------------
  // What the clone decision promises

  /** A direction without the trust zone returns False and makes no copy. */
  lemma {:induction false} NoTrustZoneNoClone(p: Policy, orig: EwRule, d: Direction, work: Option<EwRule>)
    requires p.trustZone !in Zones(orig, d)
    ensures Decide(p, orig, d, work) == Pass(false, work)
  {
    NoTrustZoneWalk(p, orig, d, Pass(false, work), Zones(orig, d));
  }

  lemma {:induction false} NoTrustZoneWalk(p: Policy, orig: EwRule, d: Direction, st: Pass, zs: seq<string>)
    requires p.trustZone !in zs
    ensures ZoneWalk(p, orig, d, st, zs) == st
    decreases |zs|
  {
    if zs != [] {
      assert zs[0] != p.trustZone;
      assert forall z :: z in zs[1..] ==> z in zs;
      NoTrustZoneWalk(p, orig, d, st, zs[1..]);
    }
  }

  /** `should_be_cloned` returns a clone exactly when the direction holds the
      trust zone and an address on it triggers; a copy exists afterwards
      exactly when one was passed in or the flag is set. */
  lemma CloneIffTriggered(p: Policy, orig: EwRule, d: Direction, work: Option<EwRule>)
    ensures var r := Decide(p, orig, d, work);
            && (r.clone <==> p.trustZone in Zones(orig, d) && exists a :: a in Addrs(orig, d) && Triggers(p, a))
            && (r.work.Some? <==> work.Some? || r.clone)
  {
    ZoneWalkKeepsCopy(p, orig, d, Pass(false, work), Zones(orig, d));
  }

  /** In a clone the trust zone is gone, the new east-west zone is there and
      occurs at most once (or no more often than before), and the name is
      the one the pass started from with "-cloned" added; nothing outside
      this direction's zones and addresses changes. */
  lemma CloneRezoned(p: Policy, orig: EwRule, d: Direction, work: Option<EwRule>)
    requires p.trustZone != p.newZone
    requires work.Some? ==> Zones(work.value, d) == Zones(orig, d)
    requires Decide(p, orig, d, work).clone
    ensures var c := Decide(p, orig, d, work).work;
            var start := work.GetOr(orig);
            && c.Some?
            && p.trustZone !in Zones(c.value, d)
            && p.newZone in Zones(c.value, d)
            && multiset(Zones(c.value, d))[p.newZone] <=
                 (if multiset(Zones(orig, d))[p.newZone] <= 1 then 1 else multiset(Zones(orig, d))[p.newZone])
            && c.value.name == start.name + "-cloned"
            && c.value.others == start.others
            && Zones(c.value, Other(d)) == Zones(start, Other(d))
            && Addrs(c.value, Other(d)) == Addrs(start, Other(d))
  {
    var r := ZoneWalk(p, orig, d, Pass(false, work), Zones(orig, d));
    WalkRezoned(p, orig, d, work);
    var w := Current(r, orig);
    assert Decide(p, orig, d, work).work == Some(w.(name := w.name + "-cloned"));
  }

  /** The zone loop of a pass that clones leaves a copy rezoned as
      `CloneRezoned` states, before the renaming. */
  lemma WalkRezoned(p: Policy, orig: EwRule, d: Direction, work: Option<EwRule>)
    requires p.trustZone != p.newZone
    requires work.Some? ==> Zones(work.value, d) == Zones(orig, d)
    requires ZoneWalk(p, orig, d, Pass(false, work), Zones(orig, d)).clone
    ensures var r := ZoneWalk(p, orig, d, Pass(false, work), Zones(orig, d));
            var zs := Zones(Current(r, orig), d);
            && r.work.Some?
            && p.trustZone !in zs
            && p.newZone in zs
            && multiset(zs)[p.newZone] <=
                 (if multiset(Zones(orig, d))[p.newZone] <= 1 then 1 else multiset(Zones(orig, d))[p.newZone])
            && SameOutside(Current(r, orig), work.GetOr(orig), d)
  {
    var st0 := Pass(false, work);
    var zs := Zones(orig, d);
    var addrs := Addrs(orig, d);
    ZoneWalkKeepsCopy(p, orig, d, st0, zs);
    ZoneWalkZones(p, orig, d, st0, zs);
    ZoneWalkOutside(p, orig, d, st0, zs);
    TriggerCountPositive(p, addrs);
    var k := multiset(zs)[p.trustZone];
    var t := TriggerCount(p, addrs);
    assert k >= 1 && t >= 1;
    AtLeastOnce(k, t);
    RezoneNProperties(zs, p.trustZone, p.newZone, k * t);
    var r := ZoneWalk(p, orig, d, st0, zs);
    assert Zones(Current(r, orig), d) == RezoneN(zs, p.trustZone, p.newZone, k * t);
  }

  lemma AtLeastOnce(k: nat, t: nat)
    requires t >= 1
    ensures k * t >= k
  {
  }

  /** A rule cloned in both directions is named "<name>-cloned-cloned"; in
      one direction only, "<name>-cloned". */
  lemma CloneNames(p: Policy, orig: EwRule)
    ensures var src := Decide(p, orig, Src, None);
            && (src.clone && Decide(p, orig, Dst, src.work).clone ==>
                  CloneOf(p, orig).Some? && CloneOf(p, orig).value.name == orig.name + "-cloned-cloned")
            && (src.clone && !Decide(p, orig, Dst, src.work).clone ==>
                  CloneOf(p, orig).Some? && CloneOf(p, orig).value.name == orig.name + "-cloned")
            && (!src.clone && Decide(p, orig, Dst, None).clone ==>
                  CloneOf(p, orig).Some? && CloneOf(p, orig).value.name == orig.name + "-cloned")
  {
    var src := Decide(p, orig, Src, None);
    CloneIffTriggered(p, orig, Src, None);
    CloneNamed(p, orig, Src, None);
    if src.clone {
      var dst := Decide(p, orig, Dst, src.work);
      CloneIffTriggered(p, orig, Dst, src.work);
      CloneNamed(p, orig, Dst, src.work);
      assert src.work.value.name == orig.name + "-cloned";
      if dst.clone {
        assert dst.work.value.name == orig.name + "-cloned" + "-cloned";
        assert orig.name + "-cloned" + "-cloned" == orig.name + "-cloned-cloned";
      } else {
        assert dst.work.value.name == orig.name + "-cloned" + "";
        assert orig.name + "-cloned" + "" == orig.name + "-cloned";
      }
    } else {
      CloneIffTriggered(p, orig, Dst, None);
      CloneNamed(p, orig, Dst, None);
    }
  }

  /** The name after one pass: "-cloned" added exactly when the flag is set. */
  lemma CloneNamed(p: Policy, orig: EwRule, d: Direction, work: Option<EwRule>)
    ensures var r := Decide(p, orig, d, work);
            r.work.Some? ==> r.work.value.name == work.GetOr(orig).name + (if r.clone then "-cloned" else "")
  {
    var st0 := Pass(false, work);
    ZoneWalkKeepsCopy(p, orig, d, st0, Zones(orig, d));
    ZoneWalkOutside(p, orig, d, st0, Zones(orig, d));
    var r := Decide(p, orig, d, work);
    if !r.clone {
      assert work.GetOr(orig).name + "" == work.GetOr(orig).name;
    }
  }

  /** A rule gets a clone exactly when one of its directions triggers. */
  lemma CloneOfIff(p: Policy, orig: EwRule)
    ensures CloneOf(p, orig).Some? <==>
              Decide(p, orig, Src, None).clone || Decide(p, orig, Dst, None).clone
  {
    var src := Decide(p, orig, Src, None);
    CloneIffTriggered(p, orig, Src, None);
    CloneIffTriggered(p, orig, Dst, src.work);
    CloneIffTriggered(p, orig, Dst, None);
  }

  /** Order matters: a concrete address outside the trust subnets is kept
      in the clone when it comes before the first triggering address, and
      removed from it when it comes after. */
  lemma AddressOrderMatters(p: Policy, orig: EwRule, a: string, b: string)
    requires orig.fromzone == [p.trustZone]
    requires a != "any" && !Triggers(p, a) && Triggers(p, b)
    ensures var c := Decide(p, orig.(source := [a, b]), Src, None).work;
            c.Some? && c.value.source == [a, b]
    ensures var c := Decide(p, orig.(source := [b, a]), Src, None).work;
            c.Some? && c.value.source == [b]
  {
    var st0 := Pass(false, None);
    var zs := RezoneList([p.trustZone], p.trustZone, p.newZone);
    var r1 := orig.(source := [a, b]);
    assert AddrStep(p, r1, Src, st0, a) == st0;
    var w1 := WithZones(r1, Src, zs);
    assert AddrStep(p, r1, Src, st0, b) == Pass(true, Some(w1));
    assert AddrWalk(p, r1, Src, st0, [a, b]) == AddrWalk(p, r1, Src, st0, [b]);
    assert AddrWalk(p, r1, Src, st0, [b]) == AddrWalk(p, r1, Src, Pass(true, Some(w1)), []);
    assert ZoneWalk(p, r1, Src, st0, [p.trustZone]) == ZoneWalk(p, r1, Src, Pass(true, Some(w1)), []);

    var r2 := orig.(source := [b, a]);
    var w2 := WithZones(r2, Src, zs);
    assert AddrStep(p, r2, Src, st0, b) == Pass(true, Some(w2));
    assert a != b && [b, a][1..] == [a] && [a][1..] == [];
    assert RemoveFirst([a], a) == Some([]);
    assert RemoveFirst([b, a], a) == Some([b] + []);
    assert Addrs(w2, Src) == [b, a];
    assert RemoveIfPresent(Addrs(w2, Src), a) == [b];
    var w3 := WithAddrs(w2, Src, [b]);
    assert AddrStep(p, r2, Src, Pass(true, Some(w2)), a) == Pass(true, Some(w3));
    assert AddrWalk(p, r2, Src, st0, [b, a]) == AddrWalk(p, r2, Src, Pass(true, Some(w2)), [a]);
    assert AddrWalk(p, r2, Src, Pass(true, Some(w2)), [a]) == AddrWalk(p, r2, Src, Pass(true, Some(w3)), []);
    assert ZoneWalk(p, r2, Src, st0, [p.trustZone]) == ZoneWalk(p, r2, Src, Pass(true, Some(w3)), []);
  }

  /** The destination pass can strip an address from the source clone while
      returning False; the caller keeps that stripped source clone. */
  lemma DestinationStripsSourceClone(p: Policy, orig: EwRule, a: string)
    requires Decide(p, orig, Src, None).clone
    requires orig.tozone == [p.trustZone] && orig.destination == [a]
    requires a != "any" && !Triggers(p, a)
    ensures !Decide(p, orig, Dst, Decide(p, orig, Src, None).work).clone
    ensures CloneOf(p, orig) == Some(Decide(p, orig, Src, None).work.value.(destination := []))
  {
    var src := Decide(p, orig, Src, None);
    var st0 := Pass(false, None);
    CloneIffTriggered(p, orig, Src, None);
    ZoneWalkOutside(p, orig, Src, st0, orig.fromzone);
    var w := src.work.value;
    assert w.destination == [a];
    var st1 := Pass(false, Some(w));
    assert [a][1..] == [];
    assert RemoveFirst([a], a) == Some([]);
    var w' := w.(destination := []);
    assert AddrStep(p, orig, Dst, st1, a) == Pass(false, Some(w'));
    assert AddrWalk(p, orig, Dst, st1, [a]) == AddrWalk(p, orig, Dst, Pass(false, Some(w')), []);
    assert ZoneWalk(p, orig, Dst, st1, [p.trustZone]) == ZoneWalk(p, orig, Dst, Pass(false, Some(w')), []);
  }

  // ---------------------------------------------------------------------------
  // The addresses of a clone

  /** An address the loop strips from an existing copy: a concrete address
      that does not trigger. */
  predicate Strips(p: Policy, a: string) {
    a != "any" && !Triggers(p, a)
  }

  /** `xs` with the first occurrence of each stripping address of `addrs`
      removed, in the order of `addrs`. */
  function StripAll(p: Policy, xs: seq<string>, addrs: seq<string>): seq<string>
    decreases |addrs|
  {
    if addrs == [] then xs
    else StripAll(p, if Strips(p, addrs[0]) then RemoveIfPresent(xs, addrs[0]) else xs, addrs[1..])
  }

  function Stripper(p: Policy, addrs: seq<string>): seq<string> -> seq<string> {
    xs => StripAll(p, xs, addrs)
  }

  /** With a copy to work on, the address loop strips from it each concrete
      address that does not trigger; a triggering address or "any" leaves
      its addresses alone. */
  lemma {:induction false} AddrWalkAddrs(p: Policy, orig: EwRule, d: Direction, st: Pass, addrs: seq<string>)
    requires st.work.Some?
    ensures var r := AddrWalk(p, orig, d, st, addrs);
            r.work.Some? && Addrs(r.work.value, d) == StripAll(p, Addrs(st.work.value, d), addrs)
    decreases |addrs|
  {
    if addrs != [] {
      AddrWalkAddrs(p, orig, d, AddrStep(p, orig, d, st, addrs[0]), addrs[1..]);
    }
  }

  /** Without a copy, nothing happens before the first triggering address
      `addrs[k]`, which copies the original; the addresses after it are then
      stripped from that copy, and those before it never are. */
  lemma {:induction false} AddrWalkFirstCopy(p: Policy, orig: EwRule, d: Direction, st: Pass, addrs: seq<string>, k: nat)
    requires st.work.None?
    requires k < |addrs| && Triggers(p, addrs[k]) && forall j :: 0 <= j < k ==> !Triggers(p, addrs[j])
    ensures var r := AddrWalk(p, orig, d, st, addrs);
            r.work.Some? && Addrs(r.work.value, d) == StripAll(p, Addrs(orig, d), addrs[k + 1..])
    decreases k
  {
    var st' := AddrStep(p, orig, d, st, addrs[0]);
    if k == 0 {
      AddrWalkAddrs(p, orig, d, st', addrs[1..]);
    } else {
      assert st' == st;
      forall j | 0 <= j < k - 1 ensures !Triggers(p, addrs[1..][j]) {
        assert addrs[1..][j] == addrs[j + 1];
      }
      AddrWalkFirstCopy(p, orig, d, st', addrs[1..], k - 1);
      assert addrs[1..][k..] == addrs[k + 1..];
    }
  }

  /** With a copy, each trust-zone entry strips the addresses once more. */
  lemma {:induction false} ZoneWalkAddrs(p: Policy, orig: EwRule, d: Direction, st: Pass, zs: seq<string>)
    requires st.work.Some?
    ensures var r := ZoneWalk(p, orig, d, st, zs);
            r.work.Some? &&
            Addrs(r.work.value, d) == Iterate(Stripper(p, Addrs(orig, d)), Addrs(st.work.value, d), multiset(zs)[p.trustZone])
    decreases |zs|
  {
    if zs != [] {
      var st' := ZoneHead(p, orig, d, st, zs[0]);
      assert zs == [zs[0]] + zs[1..];
      if zs[0] == p.trustZone {
        AddrWalkAddrs(p, orig, d, st, Addrs(orig, d));
      }
      ZoneWalkAddrs(p, orig, d, st', zs[1..]);
    }
  }

  /** Without a copy, the first trust-zone entry makes it at the first
      triggering address `k`, and each later entry strips once more. */
  lemma {:induction false} ZoneWalkFirstCopy(p: Policy, orig: EwRule, d: Direction, st: Pass, zs: seq<string>, k: nat)
    requires st.work.None? && p.trustZone in zs
    requires var addrs := Addrs(orig, d);
             k < |addrs| && Triggers(p, addrs[k]) && forall j :: 0 <= j < k ==> !Triggers(p, addrs[j])
    ensures var addrs := Addrs(orig, d);
            var r := ZoneWalk(p, orig, d, st, zs);
            r.work.Some? &&
            Addrs(r.work.value, d) ==
              Iterate(Stripper(p, addrs), StripAll(p, addrs, addrs[k + 1..]), multiset(zs)[p.trustZone] - 1)
    decreases |zs|
  {
    var addrs := Addrs(orig, d);
    assert zs == [zs[0]] + zs[1..];
    if zs[0] == p.trustZone {
      AddrWalkFirstCopy(p, orig, d, st, addrs, k);
      ZoneWalkAddrs(p, orig, d, AddrWalk(p, orig, d, st, addrs), zs[1..]);
    } else {
      ZoneWalkFirstCopy(p, orig, d, st, zs[1..], k);
    }
  }

  /** A pass given a copy `w` (the destination pass on a source clone)
      returns it with the concrete addresses that do not trigger stripped
      once per trust-zone entry, whether or not it sets the flag. */
  lemma PassStripsCopy(p: Policy, orig: EwRule, d: Direction, w: EwRule)
    ensures var r := Decide(p, orig, d, Some(w));
            r.work.Some? &&
            Addrs(r.work.value, d) ==
              Iterate(Stripper(p, Addrs(orig, d)), Addrs(w, d), multiset(Zones(orig, d))[p.trustZone])
  {
    ZoneWalkAddrs(p, orig, d, Pass(false, Some(w)), Zones(orig, d));
  }

  /** A pass without a copy, on a direction holding the trust zone whose
      first triggering address is `k`, clones; the clone holds the
      original's addresses with those after `k` that do not trigger
      stripped, and stripped once more per further trust-zone entry. The
      addresses before `k` are kept however they compare with the trust
      subnets. */
  lemma CloneAddresses(p: Policy, orig: EwRule, d: Direction, k: nat)
    requires p.trustZone in Zones(orig, d)
    requires var addrs := Addrs(orig, d);
             k < |addrs| && Triggers(p, addrs[k]) && forall j :: 0 <= j < k ==> !Triggers(p, addrs[j])
    ensures var r := Decide(p, orig, d, None);
            var addrs := Addrs(orig, d);
            && r.clone && r.work.Some?
            && Addrs(r.work.value, d) ==
                 Iterate(Stripper(p, addrs), StripAll(p, addrs, addrs[k + 1..]), multiset(Zones(orig, d))[p.trustZone] - 1)
  {
    var addrs := Addrs(orig, d);
    assert addrs[k] in addrs;
    CloneIffTriggered(p, orig, d, None);
    ZoneWalkFirstCopy(p, orig, d, Pass(false, None), Zones(orig, d), k);
  }

  /** What stripping leaves of each address: an address that strips loses
      one occurrence per time it is examined, down to none; "any" and the
      triggering addresses keep every occurrence. */
  lemma {:induction false} StripAllCount(p: Policy, xs: seq<string>, addrs: seq<string>, x: string)
    ensures multiset(StripAll(p, xs, addrs))[x] ==
              if !Strips(p, x) then multiset(xs)[x]
              else if multiset(addrs)[x] >= multiset(xs)[x] then 0
              else multiset(xs)[x] - multiset(addrs)[x]
    decreases |addrs|
  {
    if addrs != [] {
      var a := addrs[0];
      var xs' := if Strips(p, a) then RemoveIfPresent(xs, a) else xs;
      StripAllCount(p, xs', addrs[1..], x);
      assert addrs == [a] + addrs[1..];
      if Strips(p, a) && a in xs {
        RemoveFirstCount(xs, a);
      }
    }
  }

  // ---------------------------------------------------------------------------
  // The rulebase

  /** How many of `rules` get a clone. */
  function CloneCount(cloneOf: EwRule -> Option<EwRule>, rules: seq<EwRule>): (n: nat)
    ensures n <= |rules|
    decreases |rules|
  {
    if rules == [] then 0
    else CloneCount(cloneOf, rules[..|rules| - 1]) + (if cloneOf(rules[|rules| - 1]).Some? then 1 else 0)
  }

  /** Where original `i` ends up: after itself and all the rules and clones
      before it. */
  function Pos(cloneOf: EwRule -> Option<EwRule>, rules: seq<EwRule>, i: nat): nat
    requires i < |rules|
  {
    i + CloneCount(cloneOf, rules[..i + 1])
  }

  lemma {:induction false} SplicedLength(cloneOf: EwRule -> Option<EwRule>, rules: seq<EwRule>)
    ensures |Spliced(cloneOf, rules)| == |rules| + CloneCount(cloneOf, rules)
    decreases |rules|
  {
    if rules != [] {
      SplicedLength(cloneOf, rules[..|rules| - 1]);
    }
  }

  /** Original `i` keeps its content at `Pos(i)`, and its clone, if any, sits
      just before it. */
  lemma {:induction false} OriginalAt(cloneOf: EwRule -> Option<EwRule>, rules: seq<EwRule>, i: nat)
    requires i < |rules|
    ensures var out := Spliced(cloneOf, rules);
            var at := Pos(cloneOf, rules, i);
            && at < |out| && out[at] == rules[i]
            && (cloneOf(rules[i]).Some? ==> out[at - 1] == cloneOf(rules[i]).value)
    decreases |rules|
  {
    var n := |rules| - 1;
    var init := rules[..n];
    var before := Spliced(cloneOf, init);
    SplicedLength(cloneOf, rules);
    SplicedLength(cloneOf, init);
    assert Spliced(cloneOf, rules) == before + Emitted(cloneOf(rules[n]), rules[n]);
    if i < n {
      OriginalAt(cloneOf, init, i);
      assert rules[..i + 1] == init[..i + 1];
      assert init[i] == rules[i];
    } else {
      assert rules[..i + 1] == rules;
    }
  }

  /** Every original keeps its content and relative order, its clone, if
      any, sits just before it, and rules without a clone add nothing. */
  lemma OriginalsKeepPlace(p: Policy, rules: seq<EwRule>)
    ensures var cloneOf := orig => CloneOf(p, orig);
            && |WithClones(p, rules)| == |rules| + CloneCount(cloneOf, rules)
            && forall i :: 0 <= i < |rules| ==>
                 && Pos(cloneOf, rules, i) < |WithClones(p, rules)|
                 && WithClones(p, rules)[Pos(cloneOf, rules, i)] == rules[i]
                 && (CloneOf(p, rules[i]).Some? ==> WithClones(p, rules)[Pos(cloneOf, rules, i) - 1] == CloneOf(p, rules[i]).value)
  {
    var cloneOf := orig => CloneOf(p, orig);
    SplicedLength(cloneOf, rules);
    forall i | 0 <= i < |rules|
      ensures && Pos(cloneOf, rules, i) < |WithClones(p, rules)|
              && WithClones(p, rules)[Pos(cloneOf, rules, i)] == rules[i]
              && (CloneOf(p, rules[i]).Some? ==> WithClones(p, rules)[Pos(cloneOf, rules, i) - 1] == CloneOf(p, rules[i]).value)
    {
      OriginalAt(cloneOf, rules, i);
    }
  }
}
