/** The intrazone rewrite of becu/becu.py: every security rule is copied, and
    in the copy each legacy private zone of the from/to fields is replaced by
    the one new intrazone zone, while a source/destination of "any" is
    narrowed to the address object associated with the replaced zone. */
module Intrazone {
  import opened Shapes

  /** One element of a `member` field: a plain name, or the dictionary an
      uncommitted candidate configuration puts there instead (a name with
      admin/time attributes), which Python cannot look up in a dict. */
  datatype Entry = Name(s: string) | Annotated

  /** A `member` field: a bare value when it has one element, a list otherwise. */
  datatype Member = Scalar(e: Entry) | Members(entries: seq<Entry>)

  /** A security rule as the rewrite sees it; every other field of the XML
      entry is carried in `others` and never looked at. */
  datatype Rule = Rule(
    name: string,
    fromZone: Member,
    toZone: Member,
    source: Member,
    destination: Member,
    others: map<string, string>)

  /** EXISTING_PRIVATE_ZONES (legacy zone -> address object) and
      NEW_PRIVATE_INTRAZONE, fixed for the whole run. */
  datatype Settings = Settings(privateZones: map<string, string>, newZone: string)

  /** Why a run ends without any output. */
  datatype Abort =
    | CandidateConfig    // TypeError: "candidate config detected", then sys.exit
    | ListRemoveFailed   // ValueError raised by list.remove, never caught

  /** "<zone> zone not found, not updating this zone." for rule <rule>. */
  datatype Notice = ZoneNotFound(rule: string, zone: string)

  const Any: Entry := Name("any")

  predicate Mapped(cfg: Settings, e: Entry) {
    e.Name? && e.s in cfg.privateZones
  }

  function Names(ss: seq<string>): (r: seq<Entry>)
    ensures |r| == |ss| && forall i :: 0 <= i < |ss| ==> r[i] == Name(ss[i])
  {
    seq(|ss|, i requires 0 <= i < |ss| => Name(ss[i]))
  }

  // ---------------------------------------------------------------------------
  // The rewrite, step by step as `modify` performs it

  /** `for x in olds: if x == "any": cur.remove("any"); cur.append(obj)`. */
  function AnySwap(olds: seq<Entry>, cur: seq<Entry>, obj: string): Result<seq<Entry>, Abort> {
    if olds == [] then Success(cur)
    else if olds[0] == Any then
      match RemoveFirst(cur, Any)
      case None => Failure(ListRemoveFailed)
      case Some(rest) => AnySwap(olds[1..], rest + [Name(obj)], obj)
    else AnySwap(olds[1..], cur, obj)
  }

  /** The copy's zone list, address field, the `count` variable and the
      notices printed so far, while `modify` walks a list of zones. */
  datatype Walk = Walk(zones: seq<Entry>, addr: Member, count: nat, notices: seq<Notice>)

  /** What the walk keeps true of the address field: it stays a list when it
      started as one, it is a plain name when `count` is 1 and a list after. */
  predicate CountShape(oldAddr: Member, w: Walk) {
    && (oldAddr.Members? ==> w.addr.Members?)
    && (w.count == 1 ==> w.addr.Scalar? && w.addr.e.Name?)
    && (w.count >= 2 ==> w.addr.Members?)
  }

  /** One iteration of the zone loop of `modify` (becu/becu.py:186-215). */
  function ZoneStep(cfg: Settings, rule: string, oldAddr: Member, w: Walk, z: Entry): (r: Result<Walk, Abort>)
    requires CountShape(oldAddr, w)
    ensures r.Success? ==> CountShape(oldAddr, r.value)
  {
    match z
    case Annotated => Failure(CandidateConfig)
    case Name(n) =>
      if n !in cfg.privateZones then Success(w.(notices := w.notices + [ZoneNotFound(rule, n)]))
      else
        match RemoveFirst(w.zones, z)
        case None => Failure(ListRemoveFailed)
        case Some(rest) =>
          var zones := AppendMissing(rest, Name(cfg.newZone));
          var obj := cfg.privateZones[n];
          match oldAddr
          case Members(olds) =>
            (match AnySwap(olds, w.addr.entries, obj)
             case Failure(e) => Failure(e)
             case Success(a) => Success(w.(zones := zones, addr := Members(a))))
          case Scalar(e) =>
            if e != Any then Success(w.(zones := zones))
            else if w.count == 1 then
              Success(Walk(zones, Members(Names(SplitWs(w.addr.e.s)) + [Name(obj)]), 2, w.notices))
            else if w.count > 1 then
              Success(w.(zones := zones, addr := Members(w.addr.entries + [Name(obj)])))
            else
              Success(Walk(zones, Scalar(Name(obj)), 1, w.notices))
  }

  /** The zone loop of `modify` run over `zs` from state `w`. */
  function ZoneWalk(cfg: Settings, rule: string, oldAddr: Member, w: Walk, zs: seq<Entry>): (r: Result<Walk, Abort>)
    requires CountShape(oldAddr, w)
    ensures r.Success? ==> CountShape(oldAddr, r.value)
    decreases |zs|
  {
    if zs == [] then Success(w)
    else
      match ZoneStep(cfg, rule, oldAddr, w, zs[0])
      case Failure(e) => Failure(e)
      case Success(w') => ZoneWalk(cfg, rule, oldAddr, w', zs[1..])
  }

  /** The rewritten zone field, address field and notices of one direction. */
  datatype Side = Side(zone: Member, addr: Member, notices: seq<Notice>)

  /** `modify(srcdst, tofrom, x_zone, x_addr)` on a fresh copy of the rule. */
  function SideRewrite(cfg: Settings, rule: string, zone: Member, addr: Member): Result<Side, Abort> {
    match zone
    case Members(zs) =>
      (match ZoneWalk(cfg, rule, addr, Walk(zs, addr, 0, []), zs)
       case Failure(e) => Failure(e)
       case Success(w) => Success(Side(Members(w.zones), w.addr, w.notices)))
    case Scalar(Annotated) => Failure(CandidateConfig)
    case Scalar(Name(z)) =>
      if z !in cfg.privateZones then Success(Side(zone, addr, [ZoneNotFound(rule, z)]))
      else
        var obj := cfg.privateZones[z];
        match addr
        case Members(olds) =>
          (match AnySwap(olds, olds, obj)
           case Failure(e) => Failure(e)
           case Success(a) => Success(Side(Scalar(Name(cfg.newZone)), Members(a), [])))
        case Scalar(e) =>
          Success(Side(Scalar(Name(cfg.newZone)), if e == Any then Scalar(Name(obj)) else addr, []))
  }

  /** One iteration of `modify_rules`: the from/source pass, then the
      to/destination pass, on a copy of `r`. Only the four member fields can
      differ from the input rule. */
  function RuleRewrite(cfg: Settings, r: Rule): (res: Result<(Rule, seq<Notice>), Abort>)
    ensures res.Success? ==> res.value.0.name == r.name && res.value.0.others == r.others
    ensures res.Success? <==>
      SideRewrite(cfg, r.name, r.fromZone, r.source).Success? &&
      SideRewrite(cfg, r.name, r.toZone, r.destination).Success?
  {
    match SideRewrite(cfg, r.name, r.fromZone, r.source)
    case Failure(e) => Failure(e)
    case Success(f) =>
      match SideRewrite(cfg, r.name, r.toZone, r.destination)
      case Failure(e) => Failure(e)
      case Success(t) =>
        Success((r.(fromZone := f.zone, source := f.addr, toZone := t.zone, destination := t.addr),
                 f.notices + t.notices))
  }

  /** `modify_rules` over the rules in order: the first abort ends the run. */
  function BatchRewrite(cfg: Settings, rules: seq<Rule>): Result<(seq<Rule>, seq<Notice>), Abort>
    decreases |rules|
  {
    if rules == [] then Success(([], []))
    else
      match BatchRewrite(cfg, rules[..|rules| - 1])
      case Failure(e) => Failure(e)
      case Success((out, ns)) =>
        match RuleRewrite(cfg, rules[|rules| - 1])
        case Failure(e) => Failure(e)
        case Success((r, ns')) => Success((out + [r], ns + ns'))
  }

  // ---------------------------------------------------------------------------
  // The methods, as the script runs them

  /** The inner `for x in x_addr` loop of `modify`. */
  method ReplaceAny(olds: seq<Entry>, cur: seq<Entry>, obj: string) returns (r: Result<seq<Entry>, Abort>)
    ensures r == AnySwap(olds, cur, obj)
  {
    var members := cur;
    var i := 0;
    while i < |olds|
      invariant 0 <= i <= |olds|
      invariant AnySwap(olds, cur, obj) == AnySwap(olds[i..], members, obj)
    {
      assert olds[i..][0] == olds[i] && olds[i..][1..] == olds[i + 1..];
      if olds[i] == Any {
        var removed := RemoveFirst(members, Any);
        if removed.None? {
          return Failure(ListRemoveFailed);
        }
        members := removed.value + [Name(obj)];
      }
      i := i + 1;
    }
    return Success(members);
  }

  /** `modify`: rewrites one zone field and its paired address field. */
  method Modify(cfg: Settings, rule: string, zone: Member, addr: Member) returns (r: Result<Side, Abort>)
    ensures r == SideRewrite(cfg, rule, zone, addr)
  {
    match zone {
      case Members(zs) =>
        var zones, a, count, notices := zs, addr, 0, [];
        ghost var w0 := Walk(zs, addr, 0, []);
        var i := 0;
        while i < |zs|
          invariant 0 <= i <= |zs|
          invariant CountShape(addr, Walk(zones, a, count, notices))
          invariant ZoneWalk(cfg, rule, addr, w0, zs) == ZoneWalk(cfg, rule, addr, Walk(zones, a, count, notices), zs[i..])
        {
          assert zs[i..][0] == zs[i] && zs[i..][1..] == zs[i + 1..];
          var zone := zs[i];
          if zone.Annotated? {
            return Failure(CandidateConfig);
          }
          if zone.s in cfg.privateZones {
            var removed := RemoveFirst(zones, zone);
            if removed.None? {
              return Failure(ListRemoveFailed);
            }
            zones := removed.value;
            if Name(cfg.newZone) !in zones {
              zones := zones + [Name(cfg.newZone)];
            }
            var obj := cfg.privateZones[zone.s];
            if addr.Members? {
              var swapped := ReplaceAny(addr.entries, a.entries, obj);
              if swapped.Failure? {
                return Failure(swapped.error);
              }
              a := Members(swapped.value);
            } else if addr.e == Any {
              if count == 1 {
                count := count + 1;
                a := Members(Names(SplitWs(a.e.s)) + [Name(obj)]);
              } else if count > 1 {
                a := Members(a.entries + [Name(obj)]);
              } else {
                count := count + 1;
                a := Scalar(Name(obj));
              }
            }
          } else {
            notices := notices + [ZoneNotFound(rule, zone.s)];
          }
          i := i + 1;
        }
        return Success(Side(Members(zones), a, notices));
      case Scalar(Annotated) =>
        return Failure(CandidateConfig);
      case Scalar(Name(z)) =>
        if z !in cfg.privateZones {
          return Success(Side(zone, addr, [ZoneNotFound(rule, z)]));
        }
        var obj := cfg.privateZones[z];
        var a := addr;
        if addr.Members? {
          var swapped := ReplaceAny(addr.entries, addr.entries, obj);
          if swapped.Failure? {
            return Failure(swapped.error);
          }
          a := Members(swapped.value);
        } else if addr.e == Any {
          a := Scalar(Name(obj));
        }
        return Success(Side(Scalar(Name(cfg.newZone)), a, []));
    }
  }

  /** `modify_rules`: copies and rewrites every rule, in order. */
  method ModifyRules(cfg: Settings, rules: seq<Rule>) returns (r: Result<(seq<Rule>, seq<Notice>), Abort>)
    ensures r == BatchRewrite(cfg, rules)
  {
    var modified: seq<Rule> := [];
    var notices: seq<Notice> := [];
    var i := 0;
    while i < |rules|
      invariant 0 <= i <= |rules|
      invariant BatchRewrite(cfg, rules[..i]) == Success((modified, notices))
    {
      assert rules[..i + 1][..i] == rules[..i];
      var oldrule := rules[i];
      var f := Modify(cfg, oldrule.name, oldrule.fromZone, oldrule.source);
      if f.Failure? {
        assert BatchRewrite(cfg, rules[..i + 1]).Failure?;
        BatchAbortIsFinal(cfg, rules, i + 1);
        return Failure(f.error);
      }
      var t := Modify(cfg, oldrule.name, oldrule.toZone, oldrule.destination);
      if t.Failure? {
        assert BatchRewrite(cfg, rules[..i + 1]).Failure?;
        BatchAbortIsFinal(cfg, rules, i + 1);
        return Failure(t.error);
      }
      var newrule := oldrule.(fromZone := f.value.zone, source := f.value.addr,
                              toZone := t.value.zone, destination := t.value.addr);
      assert RuleRewrite(cfg, rules[i]) == Success((newrule, f.value.notices + t.value.notices));
      modified := modified + [newrule];
      notices := notices + (f.value.notices + t.value.notices);
      i := i + 1;
    }
    assert rules[..|rules|] == rules;
    return Success((modified, notices));
  }

  /** Once a prefix of the batch aborts, the whole batch aborts the same way. */
  lemma {:induction false} BatchAbortIsFinal(cfg: Settings, rules: seq<Rule>, k: nat)
    requires k <= |rules| && BatchRewrite(cfg, rules[..k]).Failure?
    ensures BatchRewrite(cfg, rules) == BatchRewrite(cfg, rules[..k])
    decreases |rules| - k
  {
    if k < |rules| {
      assert rules[..k + 1][..k] == rules[..k];
      BatchAbortIsFinal(cfg, rules, k + 1);
    } else {
      assert rules[..k] == rules;
    }
  }

  // ---------------------------------------------------------------------------
  // What the rewrite promises

  /** The batch aborts exactly when some rule's rewrite aborts. */
  lemma {:induction false} BatchSucceedsIffEveryRule(cfg: Settings, rules: seq<Rule>)
    ensures BatchRewrite(cfg, rules).Success? <==>
            forall i :: 0 <= i < |rules| ==> RuleRewrite(cfg, rules[i]).Success?
    decreases |rules|
  {
    if rules != [] {
      var n := |rules| - 1;
      var init := rules[..n];
      assert forall i :: 0 <= i < n ==> init[i] == rules[i];
      BatchSucceedsIffEveryRule(cfg, init);
    }
  }

  /** Every rule yields exactly one output rule, in input order. */
  lemma {:induction false} BatchOneToOne(cfg: Settings, rules: seq<Rule>)
    requires BatchRewrite(cfg, rules).Success?
    ensures var out := BatchRewrite(cfg, rules).value.0;
            |out| == |rules| &&
            forall i :: 0 <= i < |rules| ==>
              RuleRewrite(cfg, rules[i]).Success? && out[i] == RuleRewrite(cfg, rules[i]).value.0
    decreases |rules|
  {
    if rules != [] {
      var n := |rules| - 1;
      var init := rules[..n];
      assert forall i :: 0 <= i < n ==> init[i] == rules[i];
      BatchOneToOne(cfg, init);
    }
  }

  /** An aborted batch carries the reason of its first aborting rule. */
  lemma {:induction false} BatchFirstAbort(cfg: Settings, rules: seq<Rule>)
    requires BatchRewrite(cfg, rules).Failure?
    ensures exists k :: 0 <= k < |rules| && RuleRewrite(cfg, rules[k]).Failure? &&
              BatchRewrite(cfg, rules).error == RuleRewrite(cfg, rules[k]).error &&
              forall i :: 0 <= i < k ==> RuleRewrite(cfg, rules[i]).Success?
    decreases |rules|
  {
    var n := |rules| - 1;
    var init := rules[..n];
    assert forall i :: 0 <= i < n ==> init[i] == rules[i];
    if BatchRewrite(cfg, init).Failure? {
      BatchFirstAbort(cfg, init);
      var k :| 0 <= k < n && RuleRewrite(cfg, init[k]).Failure? &&
               BatchRewrite(cfg, init).error == RuleRewrite(cfg, init[k]).error &&
               forall i :: 0 <= i < k ==> RuleRewrite(cfg, init[i]).Success?;
      assert RuleRewrite(cfg, rules[k]).Failure?;
    } else {
      BatchSucceedsIffEveryRule(cfg, init);
      assert RuleRewrite(cfg, rules[n]).Failure?;
    }
  }

  /** The entry the new intrazone zone is written as. */
  function NewEntry(cfg: Settings): Entry {
    Name(cfg.newZone)
  }

  /** The zones of `zs` the rewrite leaves in place, in order. */
  function Keep(cfg: Settings, zs: seq<Entry>): (r: seq<Entry>)
    ensures forall e :: e in r ==> e in zs && !Mapped(cfg, e)
  {
    if zs == [] then [] else (if Mapped(cfg, zs[0]) then [] else [zs[0]]) + Keep(cfg, zs[1..])
  }

  predicate AnyMapped(cfg: Settings, zs: seq<Entry>) {
    exists i :: 0 <= i < |zs| && Mapped(cfg, zs[i])
  }

  /** The "zone not found" notices for `zs`, in order. */
  function Unfound(cfg: Settings, rule: string, zs: seq<Entry>): (r: seq<Notice>)
    ensures |r| <= |zs|
  {
    if zs == [] then []
    else (if zs[0].Name? && !Mapped(cfg, zs[0]) then [ZoneNotFound(rule, zs[0].s)] else [])
         + Unfound(cfg, rule, zs[1..])
  }

  /** The address objects of the legacy zones in `zs`, in zone order. */
  function MappedObjects(cfg: Settings, zs: seq<Entry>): (r: seq<string>)
    ensures |r| <= |zs|
  {
    if zs == [] then []
    else (if Mapped(cfg, zs[0]) then [cfg.privateZones[zs[0].s]] else []) + MappedObjects(cfg, zs[1..])
  }

  /** A zone present in `s` and missing from its kept zones is a legacy one. */
  lemma {:induction false} DroppedZoneIsMapped(cfg: Settings, s: seq<Entry>, x: Entry)
    requires x in s && x !in Keep(cfg, s)
    ensures Mapped(cfg, x) && AnyMapped(cfg, s)
  {
    if s[0] != x {
      DroppedZoneIsMapped(cfg, s[1..], x);
      var i :| 0 <= i < |s[1..]| && Mapped(cfg, s[1..][i]);
      assert Mapped(cfg, s[i + 1]);
    } else {
      assert Mapped(cfg, s[0]);
    }
  }

  lemma AnyMappedCons(cfg: Settings, s: seq<Entry>)
    requires s != []
    ensures AnyMapped(cfg, s) <==> Mapped(cfg, s[0]) || AnyMapped(cfg, s[1..])
  {
    if AnyMapped(cfg, s) && !Mapped(cfg, s[0]) {
      var i :| 0 <= i < |s| && Mapped(cfg, s[i]);
      assert Mapped(cfg, s[1..][i - 1]);
    }
    if AnyMapped(cfg, s[1..]) {
      var i :| 0 <= i < |s[1..]| && Mapped(cfg, s[1..][i]);
      assert Mapped(cfg, s[i + 1]);
    }
  }

  /** One legacy zone `s[0]` met while the copy's list is `k + s + t`: it
      is removed from its place and the new zone appended if missing. */
  lemma MappedStepZones(cfg: Settings, rule: string, oldAddr: Member, w: Walk,
                        k: seq<Entry>, s: seq<Entry>, t: seq<Entry>)
    requires CountShape(oldAddr, w)
    requires w.zones == k + s + t
    requires s != [] && Mapped(cfg, s[0]) && s[0] !in k
    requires ZoneStep(cfg, rule, oldAddr, w, s[0]).Success?
    ensures var rest := k + s[1..] + t;
            ZoneStep(cfg, rule, oldAddr, w, s[0]).value.zones ==
              k + s[1..] + (if NewEntry(cfg) in rest then t else t + [NewEntry(cfg)])
  {
    StepZones(cfg, rule, oldAddr, w, s[0]);
    SwapAtHead(w.zones, k, s, t, NewEntry(cfg), ZoneStep(cfg, rule, oldAddr, w, s[0]).value.zones);
  }

  /** Removing the head of `s` from `k + s + t` and appending `x` if missing. */
  lemma SwapAtHead<T>(zs: seq<T>, k: seq<T>, s: seq<T>, t: seq<T>, x: T, out: seq<T>)
    requires zs == k + s + t && s != [] && s[0] !in k
    requires RemoveFirst(zs, s[0]).Some? && out == AppendMissing(RemoveFirst(zs, s[0]).value, x)
    ensures out == k + s[1..] + (if x in k + s[1..] + t then t else t + [x])
  {
    RemoveFirstAt(k, s + t, s[0]);
    assert k + s + t == k + (s + t) && (s + t)[1..] == s[1..] + t;
    assert k + (s[1..] + t) == k + s[1..] + t;
  }

  /** A legacy zone is removed from the copy's zones and the new zone
      appended when missing, whatever becomes of the address. */
  lemma StepZones(cfg: Settings, rule: string, oldAddr: Member, w: Walk, z: Entry)
    requires CountShape(oldAddr, w) && Mapped(cfg, z)
    requires ZoneStep(cfg, rule, oldAddr, w, z).Success?
    ensures RemoveFirst(w.zones, z).Some?
    ensures ZoneStep(cfg, rule, oldAddr, w, z).value.zones == AppendMissing(RemoveFirst(w.zones, z).value, NewEntry(cfg))
  {
  }

  /** The zone loop over the remaining zones `s`, while the copy's list is
      `k + s + t`: `k` the zones kept so far and `t` the new zone if it was
      appended at the end. */
  lemma {:induction false} ZoneWalkZones(cfg: Settings, rule: string, oldAddr: Member, w: Walk,
                                          k: seq<Entry>, s: seq<Entry>, t: seq<Entry>)
    requires CountShape(oldAddr, w)
    requires w.zones == k + s + t
    requires forall e :: e in k ==> !Mapped(cfg, e)
    requires t == [] || t == [NewEntry(cfg)]
    requires t != [] ==> NewEntry(cfg) !in k + s
    requires ZoneWalk(cfg, rule, oldAddr, w, s).Success?
    ensures forall e :: e in s ==> e.Name?
    ensures ZoneWalk(cfg, rule, oldAddr, w, s).value.zones == k + Keep(cfg, s) +
              (if t != [] || (AnyMapped(cfg, s) && NewEntry(cfg) !in k + Keep(cfg, s)) then [NewEntry(cfg)] else [])
    decreases |s|
  {
    var nz := NewEntry(cfg);
    if s == [] {
      assert k + s + t == k + [] + t;
    } else {
      var w' := ZoneStep(cfg, rule, oldAddr, w, s[0]).value;
      assert ZoneWalk(cfg, rule, oldAddr, w, s) == ZoneWalk(cfg, rule, oldAddr, w', s[1..]);
      var s1 := s[1..];
      assert s == [s[0]] + s1;
      assert s[0].Name?;
      if Mapped(cfg, s[0]) {
        MappedStepZones(cfg, rule, oldAddr, w, k, s, t);
        var t' := if nz in k + s1 + t then t else [nz];
        assert w'.zones == k + s1 + t';
        ZoneWalkZones(cfg, rule, oldAddr, w', k, s1, t');
        ZonesAfterMapped(cfg, k, s, t, t');
      } else {
        var k' := k + [s[0]];
        assert w'.zones == k' + s1 + t;
        assert forall e :: e in k' + s1 <==> e in k + s;
        ZoneWalkZones(cfg, rule, oldAddr, w', k', s1, t);
        ZonesAfterKept(cfg, k, s, t);
      }
    }
  }

  /** The zones a walk ends with are the same whether a legacy zone heading
      `s` is counted in `s` or was already replaced by the new zone in `t'`. */
  lemma ZonesAfterMapped(cfg: Settings, k: seq<Entry>, s: seq<Entry>, t: seq<Entry>, t': seq<Entry>)
    requires s != [] && Mapped(cfg, s[0])
    requires t == [] || t == [NewEntry(cfg)]
    requires t' == if NewEntry(cfg) in k + s[1..] + t then t else [NewEntry(cfg)]
    ensures var nz := NewEntry(cfg);
            k + Keep(cfg, s[1..]) + (if t' != [] || (AnyMapped(cfg, s[1..]) && nz !in k + Keep(cfg, s[1..])) then [nz] else []) ==
            k + Keep(cfg, s) + (if t != [] || (AnyMapped(cfg, s) && nz !in k + Keep(cfg, s)) then [nz] else [])
  {
    var nz := NewEntry(cfg);
    assert Keep(cfg, s) == Keep(cfg, s[1..]);
    AnyMappedCons(cfg, s);
    if t == [] && nz in k + s[1..] && nz !in k + Keep(cfg, s[1..]) {
      DroppedZoneIsMapped(cfg, s[1..], nz);
    }
  }

  /** The same for a zone heading `s` that is kept in place. */
  lemma ZonesAfterKept(cfg: Settings, k: seq<Entry>, s: seq<Entry>, t: seq<Entry>)
    requires s != [] && !Mapped(cfg, s[0])
    ensures var nz := NewEntry(cfg);
            var k' := k + [s[0]];
            k' + Keep(cfg, s[1..]) + (if t != [] || (AnyMapped(cfg, s[1..]) && nz !in k' + Keep(cfg, s[1..])) then [nz] else []) ==
            k + Keep(cfg, s) + (if t != [] || (AnyMapped(cfg, s) && nz !in k + Keep(cfg, s)) then [nz] else [])
  {
    assert k + [s[0]] + Keep(cfg, s[1..]) == k + Keep(cfg, s);
    AnyMappedCons(cfg, s);
  }

  /** The zone loop reports exactly the zones of `s` not in the mapping. */
  lemma {:induction false} ZoneWalkNotices(cfg: Settings, rule: string, oldAddr: Member, w: Walk, s: seq<Entry>)
    requires CountShape(oldAddr, w)
    requires ZoneWalk(cfg, rule, oldAddr, w, s).Success?
    ensures ZoneWalk(cfg, rule, oldAddr, w, s).value.notices == w.notices + Unfound(cfg, rule, s)
    decreases |s|
  {
    if s == [] {
      assert w.notices + [] == w.notices;
    } else {
      var w' := ZoneStep(cfg, rule, oldAddr, w, s[0]).value;
      assert ZoneWalk(cfg, rule, oldAddr, w, s) == ZoneWalk(cfg, rule, oldAddr, w', s[1..]);
      ZoneWalkNotices(cfg, rule, oldAddr, w', s[1..]);
      StepNotices(cfg, rule, oldAddr, w, s[0]);
      Regroup(ZoneWalk(cfg, rule, oldAddr, w, s).value.notices, w'.notices, w.notices,
              Unfound(cfg, rule, [s[0]]), Unfound(cfg, rule, s), Unfound(cfg, rule, s[1..]));
    }
  }

  /** One zone adds a notice exactly when it is a name outside the mapping. */
  lemma StepNotices(cfg: Settings, rule: string, oldAddr: Member, w: Walk, z: Entry)
    requires CountShape(oldAddr, w)
    requires ZoneStep(cfg, rule, oldAddr, w, z).Success?
    ensures ZoneStep(cfg, rule, oldAddr, w, z).value.notices == w.notices + Unfound(cfg, rule, [z])
  {
  }

  /** A list-shaped zone field: every legacy zone is removed, the other zones
      keep their order, and the new intrazone zone is appended once, when a
      legacy zone was found and the new zone is not already kept. A notice is
      produced for each zone not in the mapping, and only a field of plain
      names can be rewritten at all. */
  lemma ListZonesRewritten(cfg: Settings, rule: string, zs: seq<Entry>, addr: Member)
    requires SideRewrite(cfg, rule, Members(zs), addr).Success?
    ensures forall e :: e in zs ==> e.Name?
    ensures var side := SideRewrite(cfg, rule, Members(zs), addr).value;
            && side.zone == Members(Keep(cfg, zs) +
                 (if AnyMapped(cfg, zs) && NewEntry(cfg) !in Keep(cfg, zs) then [NewEntry(cfg)] else []))
            && side.notices == Unfound(cfg, rule, zs)
  {
    assert [] + zs + [] == zs;
    ZoneWalkZones(cfg, rule, addr, Walk(zs, addr, 0, []), [], zs, []);
    ZoneWalkNotices(cfg, rule, addr, Walk(zs, addr, 0, []), zs);
    assert [] + Keep(cfg, zs) == Keep(cfg, zs);
    assert [] + Unfound(cfg, rule, zs) == Unfound(cfg, rule, zs);
  }

  /** The new intrazone zone occurs at most once in a rewritten list of zones
      that did not already repeat it. */
  lemma NewZoneAtMostOnce(cfg: Settings, rule: string, zs: seq<Entry>, addr: Member)
    requires SideRewrite(cfg, rule, Members(zs), addr).Success?
    requires multiset(zs)[NewEntry(cfg)] <= 1
    ensures multiset(SideRewrite(cfg, rule, Members(zs), addr).value.zone.entries)[NewEntry(cfg)] <= 1
  {
    ListZonesRewritten(cfg, rule, zs, addr);
    KeepCount(cfg, zs, NewEntry(cfg));
    var kept := Keep(cfg, zs);
    if AnyMapped(cfg, zs) && NewEntry(cfg) !in kept {
      assert multiset(kept + [NewEntry(cfg)]) == multiset(kept) + multiset{NewEntry(cfg)};
    }
  }

  lemma {:induction false} KeepCount(cfg: Settings, zs: seq<Entry>, x: Entry)
    ensures multiset(Keep(cfg, zs))[x] <= multiset(zs)[x]
  {
    if zs != [] {
      KeepCount(cfg, zs[1..], x);
      assert zs == [zs[0]] + zs[1..];
    }
  }

  /** A zone loop that meets no legacy zone changes nothing and reports
      every zone it passes. */
  lemma {:induction false} ZoneWalkUnmapped(cfg: Settings, rule: string, oldAddr: Member, w: Walk, s: seq<Entry>)
    requires CountShape(oldAddr, w)
    requires forall e :: e in s ==> e.Name? && !Mapped(cfg, e)
    ensures ZoneWalk(cfg, rule, oldAddr, w, s) == Success(w.(notices := w.notices + Unfound(cfg, rule, s)))
    decreases |s|
  {
    if s == [] {
      assert w.notices + [] == w.notices;
    } else {
      assert s[0] in s;
      var w' := w.(notices := w.notices + [ZoneNotFound(rule, s[0].s)]);
      assert forall e :: e in s[1..] ==> e in s;
      ZoneWalkUnmapped(cfg, rule, oldAddr, w', s[1..]);
      assert w'.notices + Unfound(cfg, rule, s[1..]) == w.notices + Unfound(cfg, rule, s);
    }
  }

  /** The entries of a member field, a bare value counting as a list of one. */
  function Entries(m: Member): seq<Entry> {
    match m
    case Scalar(e) => [e]
    case Members(es) => es
  }

  /** A zone field without a legacy zone leaves the zone and its address
      untouched, with one notice per zone naming it and the rule. */
  lemma UnmappedFieldUntouched(cfg: Settings, rule: string, zone: Member, addr: Member)
    requires forall e :: e in Entries(zone) ==> e.Name? && !Mapped(cfg, e)
    ensures SideRewrite(cfg, rule, zone, addr) ==
            Success(Side(zone, addr, Unfound(cfg, rule, Entries(zone))))
  {
    if zone.Members? {
      ZoneWalkUnmapped(cfg, rule, addr, Walk(zone.entries, addr, 0, []), zone.entries);
      assert [] + Unfound(cfg, rule, zone.entries) == Unfound(cfg, rule, zone.entries);
    } else {
      var u := Unfound(cfg, rule, Entries(zone));
      assert Entries(zone) == [zone.e] && [zone.e][1..] == [];
      assert u == [ZoneNotFound(rule, zone.e.s)] + [] == [ZoneNotFound(rule, zone.e.s)];
      assert SideRewrite(cfg, rule, zone, addr) == Success(Side(zone, addr, [ZoneNotFound(rule, zone.e.s)]));
    }
  }

  // ---------------------------------------------------------------------------
  // The "any" address

  /** `s` with every "any" left out. */
  function NoAny(s: seq<Entry>): (r: seq<Entry>)
    ensures Any !in r
  {
    if s == [] then [] else (if s[0] == Any then [] else [s[0]]) + NoAny(s[1..])
  }

  /** How many times "any" occurs in `s`. */
  function CountAny(s: seq<Entry>): nat {
    if s == [] then 0 else (if s[0] == Any then 1 else 0) + CountAny(s[1..])
  }

  function Repeat(e: Entry, n: nat): (r: seq<Entry>)
    ensures |r| == n && forall i :: 0 <= i < n ==> r[i] == e
  {
    seq(n, _ => e)
  }

  /** An address field after one legacy zone with object `obj` replaced its
      "any": a bare "any" becomes the object, and in a list each "any" is
      dropped and the object appended once per dropped "any". */
  function Narrowed(addr: Member, obj: string): Member {
    match addr
    case Scalar(e) => if e == Any then Scalar(Name(obj)) else addr
    case Members(olds) => Members(NoAny(olds) + Repeat(Name(obj), CountAny(olds)))
  }

  lemma RepeatCons(e: Entry, n: nat)
    ensures [e] + Repeat(e, n) == Repeat(e, n + 1)
  {
  }

  /** The swap loop over `s` while the list is `k + s + r` with no "any" in
      `k`: each "any" of `s` is removed from its place and the object
      appended, so all of them end up at the tail. */
  lemma {:induction false} AnySwapShift(s: seq<Entry>, k: seq<Entry>, r: seq<Entry>, obj: string)
    requires Any !in k
    ensures AnySwap(s, k + s + r, obj) == Success(k + NoAny(s) + r + Repeat(Name(obj), CountAny(s)))
    decreases |s|
  {
    if s == [] {
      assert k + s + r == k + NoAny(s) + r + Repeat(Name(obj), 0);
    } else if s[0] == Any {
      AnySwapShiftAny(s, k, r, obj);
    } else {
      AnySwapShiftOther(s, k, r, obj);
    }
  }

  lemma {:induction false} AnySwapShiftOther(s: seq<Entry>, k: seq<Entry>, r: seq<Entry>, obj: string)
    requires Any !in k && s != [] && s[0] != Any
    ensures AnySwap(s, k + s + r, obj) == Success(k + NoAny(s) + r + Repeat(Name(obj), CountAny(s)))
    decreases |s|, 0
  {
    var s1 := s[1..];
    var k' := k + [s[0]];
    HeadToPrefix(k, s, r);
    AnySwapShift(s1, k', r, obj);
    assert NoAny(s) == [s[0]] + NoAny(s1) && CountAny(s) == CountAny(s1);
    ConsAssoc(k, s[0], NoAny(s1));
  }

  /** Moving the head of `s` to the end of `k` leaves `k + s + r` as it is. */
  lemma HeadToPrefix<T>(k: seq<T>, s: seq<T>, r: seq<T>)
    requires s != []
    ensures k + s + r == (k + [s[0]]) + s[1..] + r
  {
    assert s == [s[0]] + s[1..];
    ConsAssoc(k, s[0], s[1..]);
  }

  lemma ConsAssoc<T>(k: seq<T>, x: T, t: seq<T>)
    ensures (k + [x]) + t == k + ([x] + t)
  {
  }

  lemma {:induction false} AnySwapShiftAny(s: seq<Entry>, k: seq<Entry>, r: seq<Entry>, obj: string)
    requires Any !in k && s != [] && s[0] == Any
    ensures AnySwap(s, k + s + r, obj) == Success(k + NoAny(s) + r + Repeat(Name(obj), CountAny(s)))
    decreases |s|, 0
  {
    var o := Name(obj);
    var s1 := s[1..];
    RemoveHeadAny(s, k, r);
    var cur := k + s1 + (r + [o]);
    assert k + s1 + r + [o] == cur;
    assert AnySwap(s, k + s + r, obj) == AnySwap(s1, cur, obj);
    AnySwapShift(s1, k, r + [o], obj);
    var n := CountAny(s1);
    RepeatCons(o, n);
    assert NoAny(s) == NoAny(s1) && CountAny(s) == n + 1;
    TailShift(k, NoAny(s1), r, o, Repeat(o, n));
  }

  /** The leading "any" of `s` is the first one in `k + s + r`. */
  lemma RemoveHeadAny(s: seq<Entry>, k: seq<Entry>, r: seq<Entry>)
    requires Any !in k && s != [] && s[0] == Any
    ensures RemoveFirst(k + s + r, Any) == Some(k + s[1..] + r)
  {
    RemoveFirstAt(k, s + r, Any);
    assert k + s + r == k + (s + r) && (s + r)[1..] == s[1..] + r;
    assert k + (s[1..] + r) == k + s[1..] + r;
  }

  lemma TailShift<T>(a: seq<T>, b: seq<T>, c: seq<T>, x: T, d: seq<T>)
    ensures a + b + (c + [x]) + d == a + b + c + ([x] + d)
  {
  }

  /** The swap loop run on a fresh copy of the address list narrows it. */
  lemma AnySwapNarrows(olds: seq<Entry>, obj: string)
    ensures AnySwap(olds, olds, obj) == Success(Narrowed(Members(olds), obj).entries)
  {
    assert [] + olds + [] == olds;
    AnySwapShift(olds, [], [], obj);
    assert [] + NoAny(olds) + [] == NoAny(olds);
  }

  /** Without an "any" among the old addresses the swap loop changes nothing. */
  lemma {:induction false} AnySwapWithoutAny(olds: seq<Entry>, cur: seq<Entry>, obj: string)
    requires Any !in olds
    ensures AnySwap(olds, cur, obj) == Success(cur)
    decreases |olds|
  {
    if olds != [] {
      assert olds[0] in olds;
      assert forall e :: e in olds[1..] ==> e in olds;
      AnySwapWithoutAny(olds[1..], cur, obj);
    }
  }

  /** When "any" was among the old addresses but is no longer in the list,
      `remove("any")` raises. */
  lemma {:induction false} AnySwapFailsWithoutAny(olds: seq<Entry>, cur: seq<Entry>, obj: string)
    requires Any in olds && Any !in cur
    ensures AnySwap(olds, cur, obj) == Failure(ListRemoveFailed)
    decreases |olds|
  {
    if olds[0] != Any {
      AnySwapFailsWithoutAny(olds[1..], cur, obj);
    }
  }

  /** A bare legacy zone becomes the new zone and narrows its "any" address. */
  lemma ScalarZoneRewritten(cfg: Settings, rule: string, z: string, addr: Member)
    requires z in cfg.privateZones
    ensures SideRewrite(cfg, rule, Scalar(Name(z)), addr) ==
            Success(Side(Scalar(NewEntry(cfg)), Narrowed(addr, cfg.privateZones[z]), []))
  {
    if addr.Members? {
      AnySwapNarrows(addr.entries, cfg.privateZones[z]);
    }
  }

  /** No legacy zone maps to the address name "any". */
  predicate NoAnyObject(cfg: Settings) {
    forall z :: z in cfg.privateZones ==> cfg.privateZones[z] != "any"
  }

  /** After "any" has been swapped out of a list address, a further legacy
      zone makes the loop raise. */
  lemma {:induction false} SecondSwapFails(cfg: Settings, rule: string, olds: seq<Entry>, w: Walk, s: seq<Entry>)
    requires CountShape(Members(olds), w)
    requires Any in olds && Any !in w.addr.entries
    requires forall e :: e in s ==> e.Name?
    requires AnyMapped(cfg, s)
    ensures ZoneWalk(cfg, rule, Members(olds), w, s) == Failure(ListRemoveFailed)
    decreases |s|
  {
    assert s[0] in s;
    if Mapped(cfg, s[0]) {
      AnySwapFailsWithoutAny(olds, w.addr.entries, cfg.privateZones[s[0].s]);
    } else {
      AnyMappedCons(cfg, s);
      assert forall e :: e in s[1..] ==> e in s;
      SecondSwapFails(cfg, rule, olds, w.(notices := w.notices + [ZoneNotFound(rule, s[0].s)]), s[1..]);
    }
  }

  lemma {:induction false} MappedObjectsCons(cfg: Settings, s: seq<Entry>)
    requires s != []
    ensures AnyMapped(cfg, s[1..]) <==> |MappedObjects(cfg, s[1..])| > 0
    ensures AnyMapped(cfg, s) <==> |MappedObjects(cfg, s)| > 0
    decreases |s|
  {
    AnyMappedCons(cfg, s);
    if s[1..] != [] {
      MappedObjectsCons(cfg, s[1..]);
    } else {
      assert !AnyMapped(cfg, s[1..]);
    }
  }

  /** A list address holding "any" survives only one legacy zone: with two
      or more in the zone list, the second `remove("any")` raises. */
  lemma {:induction false} FirstSwapThenFail(cfg: Settings, rule: string, olds: seq<Entry>, w: Walk, s: seq<Entry>)
    requires CountShape(Members(olds), w)
    requires Any in olds && w.addr == Members(olds) && NoAnyObject(cfg)
    requires forall e :: e in s ==> e.Name?
    requires |MappedObjects(cfg, s)| >= 2
    ensures ZoneWalk(cfg, rule, Members(olds), w, s) == Failure(ListRemoveFailed)
    decreases |s|
  {
    assert s[0] in s;
    assert forall e :: e in s[1..] ==> e in s;
    var s1 := s[1..];
    MappedObjectsCons(cfg, s);
    if Mapped(cfg, s[0]) {
      var obj := cfg.privateZones[s[0].s];
      AnySwapNarrows(olds, obj);
      var step := ZoneStep(cfg, rule, Members(olds), w, s[0]);
      if step.Success? {
        var w' := step.value;
        assert w'.addr == Narrowed(Members(olds), obj);
        assert Any !in w'.addr.entries;
        SecondSwapFails(cfg, rule, olds, w', s1);
      }
    } else {
      FirstSwapThenFail(cfg, rule, olds, w.(notices := w.notices + [ZoneNotFound(rule, s[0].s)]), s1);
    }
  }

  lemma {:induction false} WalkAddrAfterSwap(cfg: Settings, rule: string, olds: seq<Entry>, w: Walk, s: seq<Entry>)
    requires CountShape(Members(olds), w)
    requires Any in olds && Any !in w.addr.entries
    ensures ZoneWalk(cfg, rule, Members(olds), w, s).Success? ==>
            !AnyMapped(cfg, s) && ZoneWalk(cfg, rule, Members(olds), w, s).value.addr == w.addr
    decreases |s|
  {
    if s != [] {
      AnyMappedCons(cfg, s);
      if Mapped(cfg, s[0]) {
        AnySwapFailsWithoutAny(olds, w.addr.entries, cfg.privateZones[s[0].s]);
      } else if s[0].Name? {
        WalkAddrAfterSwap(cfg, rule, olds, w.(notices := w.notices + [ZoneNotFound(rule, s[0].s)]), s[1..]);
      }
    }
  }

  lemma {:induction false} WalkAddrWithAny(cfg: Settings, rule: string, olds: seq<Entry>, w: Walk, s: seq<Entry>)
    requires CountShape(Members(olds), w)
    requires Any in olds && w.addr == Members(olds) && NoAnyObject(cfg)
    ensures ZoneWalk(cfg, rule, Members(olds), w, s).Success? ==>
            var objs := MappedObjects(cfg, s);
            |objs| <= 1 &&
            ZoneWalk(cfg, rule, Members(olds), w, s).value.addr ==
              (if objs == [] then Members(olds) else Narrowed(Members(olds), objs[0]))
    decreases |s|
  {
    if s != [] {
      MappedObjectsCons(cfg, s);
      if Mapped(cfg, s[0]) {
        var obj := cfg.privateZones[s[0].s];
        AnySwapNarrows(olds, obj);
        var step := ZoneStep(cfg, rule, Members(olds), w, s[0]);
        if step.Success? {
          var w' := step.value;
          assert w'.addr == Narrowed(Members(olds), obj);
          WalkAddrAfterSwap(cfg, rule, olds, w', s[1..]);
        }
      } else if s[0].Name? {
        WalkAddrWithAny(cfg, rule, olds, w.(notices := w.notices + [ZoneNotFound(rule, s[0].s)]), s[1..]);
      }
    }
  }

  lemma {:induction false} WalkAddrWithoutAny(cfg: Settings, rule: string, olds: seq<Entry>, w: Walk, s: seq<Entry>)
    requires CountShape(Members(olds), w)
    requires Any !in olds
    ensures ZoneWalk(cfg, rule, Members(olds), w, s).Success? ==>
            ZoneWalk(cfg, rule, Members(olds), w, s).value.addr == w.addr
    decreases |s|
  {
    if s != [] {
      if Mapped(cfg, s[0]) {
        AnySwapWithoutAny(olds, w.addr.entries, cfg.privateZones[s[0].s]);
        var step := ZoneStep(cfg, rule, Members(olds), w, s[0]);
        if step.Success? {
          WalkAddrWithoutAny(cfg, rule, olds, step.value, s[1..]);
        }
      } else if s[0].Name? {
        WalkAddrWithoutAny(cfg, rule, olds, w.(notices := w.notices + [ZoneNotFound(rule, s[0].s)]), s[1..]);
      }
    }
  }

  /** A list zone field with a list address: an address list without "any"
      is kept as it is; one with "any" is narrowed by the single legacy zone
      of the field, if there is one, and a second legacy zone makes
      `remove("any")` raise, which aborts the run. */
  lemma ListAddressRewritten(cfg: Settings, rule: string, zs: seq<Entry>, olds: seq<Entry>)
    requires NoAnyObject(cfg)
    ensures var r := SideRewrite(cfg, rule, Members(zs), Members(olds));
            var objs := MappedObjects(cfg, zs);
            && (r.Success? && Any !in olds ==> r.value.addr == Members(olds))
            && (r.Success? && Any in olds ==>
                  |objs| <= 1 && r.value.addr == (if objs == [] then Members(olds) else Narrowed(Members(olds), objs[0])))
            && ((forall e :: e in zs ==> e.Name?) && Any in olds && |objs| >= 2 ==> r == Failure(ListRemoveFailed))
  {
    var w := Walk(zs, Members(olds), 0, []);
    if Any in olds {
      WalkAddrWithAny(cfg, rule, olds, w, zs);
      if (forall e :: e in zs ==> e.Name?) && |MappedObjects(cfg, zs)| >= 2 {
        FirstSwapThenFail(cfg, rule, olds, w, zs);
      }
    } else {
      WalkAddrWithoutAny(cfg, rule, olds, w, zs);
    }
  }

  /** A bare "any" address after the legacy zones with objects `objs`: none
      keeps "any", one gives that object, and from the second on the field
      is a list made of the whitespace split of the first object followed by
      the other objects, in zone order. */
  function Accumulated(objs: seq<string>): Member {
    if objs == [] then Scalar(Any)
    else if |objs| == 1 then Scalar(Name(objs[0]))
    else Members(Names(SplitWs(objs[0])) + Names(objs[1..]))
  }

  /** The address a bare "any" has become after a walk in state `w` meets
      the further legacy objects `objs`. */
  function AnyAfter(w: Walk, objs: seq<string>): Member
    requires CountShape(Scalar(Any), w)
  {
    if w.count == 0 then Accumulated(objs)
    else if w.count == 1 then Accumulated([w.addr.e.s] + objs)
    else Members(w.addr.entries + Names(objs))
  }

  lemma {:induction false} ScalarAnyWalk(cfg: Settings, rule: string, w: Walk, s: seq<Entry>)
    requires CountShape(Scalar(Any), w)
    requires w.count == 0 ==> w.addr == Scalar(Any)
    ensures ZoneWalk(cfg, rule, Scalar(Any), w, s).Success? ==>
            ZoneWalk(cfg, rule, Scalar(Any), w, s).value.addr == AnyAfter(w, MappedObjects(cfg, s))
    decreases |s|, 1
  {
    if s == [] {
      if w.count == 1 {
        assert [w.addr.e.s] + [] == [w.addr.e.s];
      } else if w.count > 1 {
        assert w.addr.entries + Names([]) == w.addr.entries;
      }
    } else if Mapped(cfg, s[0]) {
      ScalarAnyWalkMapped(cfg, rule, w, s);
    } else if s[0].Name? {
      var w' := w.(notices := w.notices + [ZoneNotFound(rule, s[0].s)]);
      assert ZoneWalk(cfg, rule, Scalar(Any), w, s) == ZoneWalk(cfg, rule, Scalar(Any), w', s[1..]);
      ScalarAnyWalk(cfg, rule, w', s[1..]);
      assert MappedObjects(cfg, s) == MappedObjects(cfg, s[1..]);
    }
  }

  lemma {:induction false} ScalarAnyWalkMapped(cfg: Settings, rule: string, w: Walk, s: seq<Entry>)
    requires CountShape(Scalar(Any), w)
    requires w.count == 0 ==> w.addr == Scalar(Any)
    requires s != [] && Mapped(cfg, s[0])
    ensures ZoneWalk(cfg, rule, Scalar(Any), w, s).Success? ==>
            ZoneWalk(cfg, rule, Scalar(Any), w, s).value.addr == AnyAfter(w, MappedObjects(cfg, s))
    decreases |s|, 0
  {
    var step := ZoneStep(cfg, rule, Scalar(Any), w, s[0]);
    if step.Success? {
      var w' := step.value;
      var o := cfg.privateZones[s[0].s];
      var rest := MappedObjects(cfg, s[1..]);
      var objs := MappedObjects(cfg, s);
      assert ZoneWalk(cfg, rule, Scalar(Any), w, s) == ZoneWalk(cfg, rule, Scalar(Any), w', s[1..]);
      ScalarAnyWalk(cfg, rule, w', s[1..]);
      assert objs == [o] + rest;
      AccumulatedStep(w, w', o, rest);
    }
  }

  /** One more legacy object extends the accumulated address by that object. */
  lemma AccumulatedStep(w: Walk, w': Walk, o: string, rest: seq<string>)
    requires CountShape(Scalar(Any), w) && CountShape(Scalar(Any), w')
    requires w.count == 0 ==> w'.count == 1 && w'.addr == Scalar(Name(o))
    requires w.count == 1 ==> w'.count == 2 && w'.addr == Members(Names(SplitWs(w.addr.e.s)) + [Name(o)])
    requires w.count > 1 ==> w'.count == w.count && w'.addr == Members(w.addr.entries + [Name(o)])
    ensures AnyAfter(w', rest) == AnyAfter(w, [o] + rest)
  {
    if w.count == 1 {
      AccumulatedSecond(w.addr.e.s, o, rest);
    } else if w.count > 1 {
      NamesAfter(w.addr.entries, o, rest);
    }
  }

  /** The second object turns the field into a list: the split of the first,
      then the others. */
  lemma AccumulatedSecond(first: string, o: string, rest: seq<string>)
    ensures Accumulated([first] + ([o] + rest)) == Members(Names(SplitWs(first)) + [Name(o)] + Names(rest))
  {
    assert ([first] + ([o] + rest))[1..] == [o] + rest;
    NamesAfter(Names(SplitWs(first)), o, rest);
  }

  lemma NamesAfter(entries: seq<Entry>, o: string, rest: seq<string>)
    ensures entries + [Name(o)] + Names(rest) == entries + Names([o] + rest)
  {
    assert Names([o] + rest) == [Name(o)] + Names(rest);
  }

  /** A list zone field with a bare "any" address collects the objects of all
      its legacy zones, in zone order. */
  lemma ScalarAnyCollectsMappedObjects(cfg: Settings, rule: string, zs: seq<Entry>)
    ensures SideRewrite(cfg, rule, Members(zs), Scalar(Any)).Success? ==>
            SideRewrite(cfg, rule, Members(zs), Scalar(Any)).value.addr == Accumulated(MappedObjects(cfg, zs))
  {
    ScalarAnyWalk(cfg, rule, Walk(zs, Scalar(Any), 0, []), zs);
  }

  /** Objects named without whitespace are collected as they are. */
  lemma AccumulatedPlainNames(objs: seq<string>)
    requires |objs| >= 2
    requires objs[0] != "" && forall i :: 0 <= i < |objs[0]| ==> objs[0][i] !in WhiteSpace
    ensures Accumulated(objs) == Members(Names(objs))
  {
    SplitWsPlainName(objs[0]);
    assert objs == [objs[0]] + objs[1..];
    assert Names(objs) == Names([objs[0]]) + Names(objs[1..]);
  }

  // ---------------------------------------------------------------------------
  // Whole-run properties

  /** An uncommitted candidate configuration in a zone field aborts that
      rewrite. */
  lemma AnnotatedZoneAborts(cfg: Settings, rule: string, zone: Member, addr: Member)
    requires Annotated in Entries(zone)
    ensures SideRewrite(cfg, rule, zone, addr).Failure?
  {
    if zone.Members? && SideRewrite(cfg, rule, zone, addr).Success? {
      ListZonesRewritten(cfg, rule, zone.entries, addr);
    }
  }

  /** ...and so the whole run: no rule list at all is produced. */
  lemma CandidateConfigAbortsRun(cfg: Settings, rules: seq<Rule>, i: nat)
    requires i < |rules|
    requires Annotated in Entries(rules[i].fromZone) || Annotated in Entries(rules[i].toZone)
    ensures BatchRewrite(cfg, rules).Failure?
  {
    if Annotated in Entries(rules[i].fromZone) {
      AnnotatedZoneAborts(cfg, rules[i].name, rules[i].fromZone, rules[i].source);
    } else {
      AnnotatedZoneAborts(cfg, rules[i].name, rules[i].toZone, rules[i].destination);
    }
    BatchSucceedsIffEveryRule(cfg, rules);
  }

  /** A rewritten zone field holds no legacy zone, as long as the new zone is
      not itself one. */
  lemma RewrittenZoneHasNoLegacyZone(cfg: Settings, rule: string, zone: Member, addr: Member)
    requires cfg.newZone !in cfg.privateZones
    requires SideRewrite(cfg, rule, zone, addr).Success?
    ensures forall e :: e in Entries(SideRewrite(cfg, rule, zone, addr).value.zone) ==> e.Name? && !Mapped(cfg, e)
  {
    if zone.Members? {
      ListZonesRewritten(cfg, rule, zone.entries, addr);
    }
  }

  /** Rewriting an already rewritten rule changes nothing: the migration can
      be run again on its own output. */
  lemma RewriteIdempotent(cfg: Settings, r: Rule)
    requires cfg.newZone !in cfg.privateZones
    requires RuleRewrite(cfg, r).Success?
    ensures var out := RuleRewrite(cfg, r).value.0;
            RuleRewrite(cfg, out).Success? && RuleRewrite(cfg, out).value.0 == out
  {
    var out := RuleRewrite(cfg, r).value.0;
    RewrittenZoneHasNoLegacyZone(cfg, r.name, r.fromZone, r.source);
    RewrittenZoneHasNoLegacyZone(cfg, r.name, r.toZone, r.destination);
    UnmappedFieldUntouched(cfg, out.name, out.fromZone, out.source);
    UnmappedFieldUntouched(cfg, out.name, out.toZone, out.destination);
  }
}
