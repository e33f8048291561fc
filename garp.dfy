/** The gratuitous-ARP command derivation of gARP/garp.py: NAT rules, as
    xmltodict hands them over, are turned into "test arp gratuitous ip ..."
    commands, with the translated addresses resolved through the address
    objects and the interfaces found through the ip/mask -> interface table;
    rules that need a human look are collected as review notes. */
module Garp {
  import opened Shapes
  import opened IpCalc

  // ---------------------------------------------------------------------------
  // The parsed XML

  /** An xmltodict value: None (an empty element), a string, a dictionary
      (its items in document order) or a list (a repeated element). */
  datatype Node = Null | Text(s: string) | Dict(items: seq<(string, Node)>) | List(elems: seq<Node>)

  /** Python truthiness of a value. */
  predicate Truthy(n: Node) {
    match n
    case Null => false
    case Text(s) => s != ""
    case Dict(items) => items != []
    case List(elems) => elems != []
  }

  /** `d.get(k)`: the value of key `k`, None when absent. */
  function Get(items: seq<(string, Node)>, k: string): Option<Node>
    decreases |items|
  {
    if items == [] then None
    else if items[0].0 == k then Some(items[0].1)
    else Get(items[1..], k)
  }

  /** `Get` finds a key exactly when it is present, and gives the value of
      its first occurrence. */
  lemma {:induction false} GetFirst(items: seq<(string, Node)>, k: string)
    ensures Get(items, k).Some? <==> exists i :: 0 <= i < |items| && items[i].0 == k
    ensures Get(items, k).Some? ==> exists i :: 0 <= i < |items| && items[i] == (k, Get(items, k).value) &&
                                       forall j :: 0 <= j < i ==> items[j].0 != k
    decreases |items|
  {
    if items != [] && items[0].0 != k {
      GetFirst(items[1..], k);
      assert forall i :: 0 < i < |items| ==> items[1..][i - 1] == items[i];
      if Get(items, k).Some? {
        var i :| 0 <= i < |items[1..]| && items[1..][i] == (k, Get(items, k).value) &&
                 forall j :: 0 <= j < i ==> items[1..][j].0 != k;
        assert items[i + 1] == items[1..][i];
      }
    }
  }

  /** The `if not isinstance(x, list): x = [x]` normalisation. */
  function AsNodes(n: Node): seq<Node> {
    if n.List? then n.elems else [n]
  }

  /** Python's `x in c`: a substring search in a string, a key lookup in a
      dictionary, an element search in a list; None where Python raises a
      TypeError (a non-string searched for in a string, a dictionary or
      list looked up as a key, anything searched for in None). */
  function Within(x: Node, c: Node): Option<bool> {
    match c
    case Null => None
    case Text(s) => if x.Text? then Some(IsSubstring(x.s, s)) else None
    case Dict(items) =>
      if x.Text? then Some(Get(items, x.s).Some?)
      else if x.Null? then Some(false)
      else None
    case List(elems) => Some(x in elems)
  }

  /** `str(n)`, as an f-string prints a value: a string as itself, the
      rest as their `repr`. */
  function Str(n: Node): string {
    if n.Text? then n.s else Repr(n)
  }

  /** `repr(n)`: None, a quoted string, `{'k': v, ...}` or `[v, ...]`. */
  function Repr(n: Node): string
    decreases n
  {
    match n
    case Null => "None"
    case Text(s) => Quoted(s)
    case Dict(items) =>
      "{" + Joined(seq(|items|, i requires 0 <= i < |items| =>
                      (assert items[i] in items && items[i].1 < items[i];
                       Quoted(items[i].0) + ": " + Repr(items[i].1)))) + "}"
    case List(elems) =>
      "[" + Joined(seq(|elems|, i requires 0 <= i < |elems| => (assert elems[i] in elems; Repr(elems[i])))) + "]"
  }

  function Quoted(s: string): string {
    "'" + s + "'"
  }

  /** The parts separated by ", ". */
  function Joined(parts: seq<string>): string
    decreases |parts|
  {
    if parts == [] then "" else if |parts| == 1 then parts[0] else parts[0] + ", " + Joined(parts[1..])
  }

  /** How a run stops early: an exception the engine would catch in its
      dynamic-PAT fallback, which this model leaves out; an uncaught
      exception; or `sys.exit`. */
  datatype Halt = Unmodelled | Crashed | Exited

  // ---------------------------------------------------------------------------
  // iterdict

  /** `iterdict(d, searchfor)`: the value of the first key containing
      `searchfor`; the first dictionary value met before such a key is
      searched instead, and what it gives is the answer. */
  function Iterdict(items: seq<(string, Node)>, searchfor: string): Option<Node>
    decreases items
  {
    if items == [] then None
    else if IsSubstring(searchfor, items[0].0) then Some(items[0].1)
    else if items[0].1.Dict? then
      assert items[0] in items && items[0].1 < items[0];
      Iterdict(items[0].1.items, searchfor)
    else Iterdict(items[1..], searchfor)
  }

  /** Some key, at any depth of nested dictionaries, contains `searchfor`
      and holds `v`. */
  predicate Occurs(items: seq<(string, Node)>, searchfor: string, v: Node)
    decreases items
  {
    exists i :: 0 <= i < |items| &&
      ((IsSubstring(searchfor, items[i].0) && items[i].1 == v) ||
       (items[i].1.Dict? && (assert items[i] in items && items[i].1 < items[i]; Occurs(items[i].1.items, searchfor, v))))
  }

  /** What iterdict returns is held by a key containing `searchfor`; so when
      no key anywhere contains it, iterdict returns None. */
  lemma {:induction false} IterdictSound(items: seq<(string, Node)>, searchfor: string)
    ensures Iterdict(items, searchfor).Some? ==> Occurs(items, searchfor, Iterdict(items, searchfor).value)
    decreases items
  {
    if items != [] && !IsSubstring(searchfor, items[0].0) {
      if items[0].1.Dict? {
        assert items[0] in items && items[0].1 < items[0];
        IterdictSound(items[0].1.items, searchfor);
      } else {
        IterdictSound(items[1..], searchfor);
        var r := Iterdict(items, searchfor);
        if r.Some? {
          var i :| 0 <= i < |items[1..]| &&
            ((IsSubstring(searchfor, items[1..][i].0) && items[1..][i].1 == r.value) ||
             (items[1..][i].1.Dict? && Occurs(items[1..][i].1.items, searchfor, r.value)));
          assert items[1..][i] == items[i + 1];
        }
      }
    }
  }

  /** A match at the top level is found when every earlier item is neither a
      match nor a dictionary. */
  lemma {:induction false} IterdictFirstMatch(items: seq<(string, Node)>, searchfor: string, i: nat)
    requires i < |items| && IsSubstring(searchfor, items[i].0)
    requires forall j :: 0 <= j < i ==> !IsSubstring(searchfor, items[j].0) && !items[j].1.Dict?
    ensures Iterdict(items, searchfor) == Some(items[i].1)
    decreases i
  {
    if i > 0 {
      IterdictFirstMatch(items[1..], searchfor, i - 1);
    }
  }

  /** Once a match or a dictionary has been reached, items after it are
      never looked at. */
  lemma {:induction false} IterdictIgnoresLater(items: seq<(string, Node)>, later: seq<(string, Node)>, searchfor: string)
    requires exists i :: 0 <= i < |items| && (IsSubstring(searchfor, items[i].0) || items[i].1.Dict?)
    ensures Iterdict(items + later, searchfor) == Iterdict(items, searchfor)
    decreases |items|
  {
    var all := items + later;
    assert all[0] == items[0];
    if !IsSubstring(searchfor, items[0].0) && !items[0].1.Dict? {
      assert all[1..] == items[1..] + later;
      var i :| 0 <= i < |items| && (IsSubstring(searchfor, items[i].0) || items[i].1.Dict?);
      assert items[1..][i - 1] == items[i];
      IterdictIgnoresLater(items[1..], later, searchfor);
    }
  }

  // ---------------------------------------------------------------------------
  // The ip/mask -> interface table

  /** `mem.ip_to_eth_dict`: ip/mask keys mapped to interface names, in
      insertion order. */
  type Table = seq<(string, string)>

  predicate UniqueKeys(t: Table) {
    forall i, j :: 0 <= i < j < |t| ==> t[i].0 != t[j].0
  }

  function Lookup(t: Table, k: string): Option<string>
    decreases |t|
  {
    if t == [] then None else if t[0].0 == k then Some(t[0].1) else Lookup(t[1..], k)
  }

  /** `d.update({k: v})`: an existing key keeps its place and takes the new
      value, a new key goes last. */
  function DictUpdate(t: Table, k: string, v: string): Table
    decreases |t|
  {
    if t == [] then [(k, v)]
    else if t[0].0 == k then [(k, v)] + t[1..]
    else [t[0]] + DictUpdate(t[1..], k, v)
  }

  /** After the update `k` maps to `v`, every other key keeps its value, the
      keys stay unique, and an existing key keeps its position. */
  lemma {:induction false} DictUpdateMaps(t: Table, k: string, v: string, k': string)
    requires UniqueKeys(t)
    ensures Lookup(DictUpdate(t, k, v), k') == if k' == k then Some(v) else Lookup(t, k')
    ensures UniqueKeys(DictUpdate(t, k, v))
    ensures |DictUpdate(t, k, v)| == if Lookup(t, k).Some? then |t| else |t| + 1
    ensures forall i :: 0 <= i < |t| && t[i].0 == k ==> DictUpdate(t, k, v)[i] == (k, v)
    decreases |t|
  {
    if t != [] && t[0].0 != k {
      DictUpdateMaps(t[1..], k, v, k');
      var u := DictUpdate(t, k, v);
      var tail := DictUpdate(t[1..], k, v);
      assert u == [t[0]] + tail;
      forall i | 0 <= i < |t| && t[i].0 == k ensures u[i] == (k, v) {
        assert i > 0 && t[1..][i - 1] == t[i];
      }
      forall i, j | 0 <= i < j < |u| ensures u[i].0 != u[j].0 {
        if i == 0 {
          assert u[j] == tail[j - 1];
          LookupKeyNotInTail(t, k, v, j - 1);
        } else {
          assert u[i] == tail[i - 1] && u[j] == tail[j - 1];
        }
      }
    } else if t != [] {
      var u := DictUpdate(t, k, v);
      assert u[1..] == t[1..];
      forall i, j | 0 <= i < j < |u| ensures u[i].0 != u[j].0 {
        assert t[j].0 != t[i].0 && u[j] == t[j];
      }
      if k' != k {
        assert Lookup(u, k') == Lookup(t[1..], k');
      }
    }
  }

  /** Keys of the updated tail are keys of the tail or `k`. */
  lemma {:induction false} LookupKeyNotInTail(t: Table, k: string, v: string, j: nat)
    requires UniqueKeys(t) && t != [] && t[0].0 != k
    requires j < |DictUpdate(t[1..], k, v)|
    ensures DictUpdate(t[1..], k, v)[j].0 != t[0].0
  {
    DictUpdateKeys(t[1..], k, v, j);
    var key := DictUpdate(t[1..], k, v)[j].0;
    if key != k {
      var m :| 0 <= m < |t[1..]| && t[1..][m].0 == key;
      assert t[m + 1].0 == key;
    }
  }

  lemma {:induction false} DictUpdateKeys(t: Table, k: string, v: string, j: nat)
    requires j < |DictUpdate(t, k, v)|
    ensures var key := DictUpdate(t, k, v)[j].0;
            key == k || exists m :: 0 <= m < |t| && t[m].0 == key
    decreases |t|
  {
    if t != [] && t[0].0 != k && j > 0 {
      DictUpdateKeys(t[1..], k, v, j - 1);
      var key := DictUpdate(t, k, v)[j].0;
      if key != k {
        var m :| 0 <= m < |t[1..]| && t[1..][m].0 == key;
        assert t[m + 1].0 == key;
      }
    }
  }

  /** `interface_lookup(ip)`: the outcome of scanning the table in order. */
  datatype IfLookup = Found(ifname: string) | NotFound | Raised

  /** `ip in ipcalc.Network(key)`: None where either parse raises. */
  function Probe<N>(lib: Calc<N>, key: string, ip: string): Option<bool> {
    match lib.network(Single(key))
    case None => None
    case Some(n) => lib.contains(n, ip)
  }

  /** `interface_lookup(ip)`: the interface of the first entry whose network
      holds `ip`; Raised when a test on an entry reached before it raises. */
  function InterfaceLookup<N>(lib: Calc<N>, t: Table, ip: string): IfLookup
    decreases |t|
  {
    if t == [] then NotFound
    else match Probe(lib, t[0].0, ip)
      case None => Raised
      case Some(hit) => if hit then Found(t[0].1) else InterfaceLookup(lib, t[1..], ip)
  }

  /** Entry `i` of the table parses and its network holds `ip`. */
  predicate Covers<N>(lib: Calc<N>, t: Table, i: nat, ip: string)
    requires i < |t|
  {
    Probe(lib, t[i].0, ip) == Some(true)
  }

  /** Every entry before `i` parses and its network, which `ip` parses
      against, does not hold `ip`. */
  predicate PassedOver<N>(lib: Calc<N>, t: Table, i: nat, ip: string)
    requires i <= |t|
  {
    forall j :: 0 <= j < i ==> Probe(lib, t[j].0, ip) == Some(false)
  }

  /** The lookup finds `v` exactly when the first entry that holds `ip`,
      every entry before it being tested without raising, maps to `v`; it
      raises exactly when the test on an entry before any holder raises. */
  lemma {:induction false} InterfaceLookupFirst<N>(lib: Calc<N>, t: Table, ip: string)
    ensures forall v :: InterfaceLookup(lib, t, ip) == Found(v) <==>
              exists i :: 0 <= i < |t| && PassedOver(lib, t, i, ip) && Covers(lib, t, i, ip) && t[i].1 == v
    ensures InterfaceLookup(lib, t, ip) == Raised <==>
              exists i :: 0 <= i < |t| && PassedOver(lib, t, i, ip) && Probe(lib, t[i].0, ip).None?
    decreases |t|
  {
    if t != [] {
      InterfaceLookupFirst(lib, t[1..], ip);
      var tail := t[1..];
      forall i | 0 < i <= |t| ensures PassedOver(lib, t, i, ip) <==> PassedOver(lib, t, 1, ip) && PassedOver(lib, tail, i - 1, ip) {
        forall j | 0 < j < i ensures tail[j - 1] == t[j] { }
      }
      forall i | 0 < i < |t| ensures Covers(lib, t, i, ip) == Covers(lib, tail, i - 1, ip) && t[i] == tail[i - 1] { }
      assert PassedOver(lib, t, 0, ip);
    }
  }

  // ---------------------------------------------------------------------------
  // Commands and review notes

  /** `ip.split("/", 1)[0]`: everything before the first "/". */
  function BeforeSlash(ip: string): (host: string)
    ensures host <= ip
    ensures '/' !in host
    ensures host == ip || ip[|host|] == '/'
  {
    if ip == [] || ip[0] == '/' then []
    else [ip[0]] + BeforeSlash(ip[1..])
  }

  /** The command `add_garp_command` returns for `ip` on `ifname`. */
  function GarpCommand(ip: string, ifname: string): string {
    "test arp gratuitous ip " + BeforeSlash(ip) + " interface " + ifname
  }

  /** The prefix every command starts with. */
  const GarpPrefix: string := "test arp gratuitous ip "

  /** The interface name put in NAT commands whose IP no table entry holds. */
  const InterfaceNotFound: string := "INTERFACE NOT FOUND"

  /** The IP put in the command of an interface address without an IP. */
  const IpNotFound: string := "IP NOT FOUND, ARP TAKEN CARE OF VIA: "

  /** A mask does not change the command: `a.b.c.d/n` and `a.b.c.d` give the
      same line. */
  lemma GarpCommandDropsMask(host: string, mask: string, ifname: string)
    requires '/' !in host
    ensures GarpCommand(host + "/" + mask, ifname) == GarpCommand(host, ifname)
    ensures GarpCommand(host, ifname) == GarpPrefix + host + " interface " + ifname
  {
    BeforeSlashOfHost(host, "/" + mask);
    BeforeSlashOfHost(host, "");
    assert host + "" == host;
    assert host + "/" + mask == host + ("/" + mask);
  }

  /** A slash-free prefix followed by nothing or by "/..." is what
      `BeforeSlash` gives back. */
  lemma {:induction false} BeforeSlashOfHost(host: string, rest: string)
    requires '/' !in host
    requires rest == [] || rest[0] == '/'
    ensures BeforeSlash(host + rest) == host
    decreases |host|
  {
    if host != [] {
      assert (host + rest)[0] == host[0] && (host + rest)[1..] == host[1..] + rest;
      assert host[0] in host;
      BeforeSlashOfHost(host[1..], rest);
      assert host == [host[0]] + host[1..];
    } else {
      assert host + rest == rest;
    }
  }

  /** The three review notes `add_review_entry` appends. */
  datatype ReviewKind = Disabled | Dnat | NotIpNetmask

  /** The line `add_review_entry` appends for a rule or object named `name`. */
  function ReviewNote(kind: ReviewKind, name: string): string {
    match kind
    case Disabled => "Disabled Rule: Check " + name
    case Dnat => "DNAT, - Check NAT rule named: '" + name + "' for details."
    case NotIpNetmask => "non IP-NETMASK used for translated address: '" + name + "' for details."
  }

  // ---------------------------------------------------------------------------
  // address_lookup

  /** The state of the `address_lookup` loop: whether an object has raised,
      whether a matching object with an ip-netmask was seen and its value,
      and the review notes appended so far. */
  datatype Scan = Scan(raised: bool, found: bool, ips: Node, notes: seq<string>)

  /** One address object examined against `entry`: `get("@name")` raises
      on a non-dictionary, and `entry in name` where `Within` says it does. */
  function ScanStep(st: Scan, entry: Node, obj: Node): Scan {
    if st.raised then st
    else if !Testable(obj, entry) then st.(raised := true)
    else if !Matches(obj, entry) then st
    else if HasNetmask(obj) then st.(found := true, ips := NetmaskOf(obj))
    else st.(notes := st.notes + NoteFor(obj, entry))
  }

  function ScanAll(objs: seq<Node>, entry: Node): Scan
    decreases |objs|
  {
    if objs == [] then Scan(false, false, Null, [])
    else ScanStep(ScanAll(objs[..|objs| - 1], entry), entry, objs[|objs| - 1])
  }

  /** The addresses a caller iterates over once `ips` is made a list; None
      where an element is not a string, which the caller would raise on. */
  function IpList(ips: Node): Option<seq<string>> {
    match ips
    case Text(s) => Some([s])
    case List(elems) =>
      if forall i :: 0 <= i < |elems| ==> elems[i].Text?
      then Some(seq(|elems|, i requires 0 <= i < |elems| => elems[i].s))
      else None
    case _ => None
  }

  /** What `address_lookup(entry)` returns (None where it or the use of its
      result raises) and the review notes it appends. */
  datatype Looked = Looked(ips: Option<seq<string>>, notes: seq<string>)

  function LookupAddress(objs: seq<Node>, entry: Node): Looked {
    var sc := ScanAll(objs, entry);
    if sc.raised then Looked(None, sc.notes)
    else Looked(IpList(if sc.found then sc.ips else entry), sc.notes)
  }

  /** `obj.get("@name")` on a dictionary. */
  function NameNode(obj: Node): Node
    requires obj.Dict?
  {
    match Get(obj.items, "@name")
    case Some(name) => name
    case None => Null
  }

  /** An object `address_lookup` can test `entry` against without raising:
      a dictionary whose name `entry` can be searched for in. */
  predicate Testable(obj: Node, entry: Node) {
    obj.Dict? && Within(entry, NameNode(obj)).Some?
  }

  /** The name of the object as the review note prints it. */
  function NameOf(obj: Node): string
    requires obj.Dict?
  {
    Str(NameNode(obj))
  }

  /** A dictionary whose name `entry` is in. */
  predicate Matches(obj: Node, entry: Node) {
    obj.Dict? && Within(entry, NameNode(obj)) == Some(true)
  }

  predicate HasNetmask(obj: Node) {
    obj.Dict? && Get(obj.items, "ip-netmask").Some?
  }

  function NetmaskOf(obj: Node): Node
    requires HasNetmask(obj)
  {
    Get(obj.items, "ip-netmask").value
  }

  /** A matching object with an ip-netmask. */
  predicate Hit(obj: Node, entry: Node) {
    Matches(obj, entry) && HasNetmask(obj)
  }

  /** The note a matching object without an ip-netmask gives, if any. */
  function NoteFor(obj: Node, entry: Node): seq<string> {
    if Matches(obj, entry) && !HasNetmask(obj) then [ReviewNote(NotIpNetmask, NameOf(obj))] else []
  }

  /** The notes for the matching objects that have no ip-netmask, in order. */
  function MissingNetmaskNotes(objs: seq<Node>, entry: Node): seq<string>
    decreases |objs|
  {
    if objs == [] then [] else MissingNetmaskNotes(objs[..|objs| - 1], entry) + NoteFor(objs[|objs| - 1], entry)
  }

  /** The scan raises exactly when one of the objects cannot be tested. */
  lemma {:induction false} ScanRaises(objs: seq<Node>, entry: Node)
    ensures ScanAll(objs, entry).raised <==>
              exists i :: 0 <= i < |objs| && !Testable(objs[i], entry)
    decreases |objs|
  {
    if objs != [] {
      var init := objs[..|objs| - 1];
      ScanRaises(init, entry);
      assert forall i :: 0 <= i < |init| ==> init[i] == objs[i];
    }
  }

  /** Without a raise, a match with an ip-netmask is found exactly when one
      exists, and the value kept is that of the last one. */
  lemma {:induction false} ScanFindsLast(objs: seq<Node>, entry: Node)
    requires !ScanAll(objs, entry).raised
    ensures var sc := ScanAll(objs, entry);
            && (sc.found <==> exists i :: 0 <= i < |objs| && Hit(objs[i], entry))
            && (sc.found ==> exists i :: 0 <= i < |objs| && LastHit(objs, entry, i) && sc.ips == NetmaskOf(objs[i]))
    decreases |objs|
  {
    if objs != [] {
      var n := |objs| - 1;
      var init := objs[..n];
      var o := objs[n];
      var prev := ScanAll(init, entry);
      assert objs == init + [o];
      assert ScanAll(objs, entry) == ScanStep(prev, entry, o);
      StepFound(prev, entry, o);
      ScanFindsLast(init, entry);
      HitsSnoc(init, o, entry);
      if Hit(o, entry) {
        LastHitAtEnd(init, o, entry);
      } else if prev.found {
        LastHitAfterMiss(init, o, entry, prev.ips);
      }
    }
  }

  /** A hit exists in `objs + [obj]` exactly when one does in `objs` or `obj` is one. */
  lemma HitsSnoc(objs: seq<Node>, obj: Node, entry: Node)
    ensures (exists i :: 0 <= i < |objs + [obj]| && Hit((objs + [obj])[i], entry)) <==>
            (exists i :: 0 <= i < |objs| && Hit(objs[i], entry)) || Hit(obj, entry)
  {
    var all := objs + [obj];
    assert forall j :: 0 <= j < |objs| ==> all[j] == objs[j];
    assert all[|objs|] == obj;
  }

  lemma LastHitAtEnd(objs: seq<Node>, obj: Node, entry: Node)
    requires Hit(obj, entry)
    ensures LastHit(objs + [obj], entry, |objs|) && NetmaskOf((objs + [obj])[|objs|]) == NetmaskOf(obj)
  {
  }

  lemma LastHitAfterMiss(objs: seq<Node>, obj: Node, entry: Node, ips: Node)
    requires !Hit(obj, entry)
    requires exists i :: 0 <= i < |objs| && LastHit(objs, entry, i) && ips == NetmaskOf(objs[i])
    ensures exists i :: 0 <= i < |objs + [obj]| && LastHit(objs + [obj], entry, i) && ips == NetmaskOf((objs + [obj])[i])
  {
    var i :| 0 <= i < |objs| && LastHit(objs, entry, i) && ips == NetmaskOf(objs[i]);
    LastHitStays(objs, obj, entry, i);
    assert (objs + [obj])[i] == objs[i];
  }

  /** A step that does not raise keeps a hit's ip-netmask and otherwise
      leaves what was found alone. */
  lemma StepFound(st: Scan, entry: Node, obj: Node)
    requires !ScanStep(st, entry, obj).raised
    ensures var next := ScanStep(st, entry, obj);
            && !st.raised
            && (Hit(obj, entry) ==> next.found && next.ips == NetmaskOf(obj))
            && (!Hit(obj, entry) ==> next.found == st.found && next.ips == st.ips)
  {
  }

  /** The last hit stays the last when an object that is no hit follows. */
  lemma LastHitStays(objs: seq<Node>, obj: Node, entry: Node, i: nat)
    requires LastHit(objs, entry, i) && !Hit(obj, entry)
    ensures LastHit(objs + [obj], entry, i)
  {
    var all := objs + [obj];
    assert forall j :: 0 <= j < |objs| ==> all[j] == objs[j];
    assert all[|objs|] == obj;
  }

  /** Object `i` is a hit and no later object is. */
  predicate LastHit(objs: seq<Node>, entry: Node, i: nat) {
    i < |objs| && Hit(objs[i], entry) && forall j :: i < j < |objs| ==> !Hit(objs[j], entry)
  }

  /** Without a raise, the notes name the matching objects without an
      ip-netmask, in order. */
  lemma {:induction false} ScanNotes(objs: seq<Node>, entry: Node)
    requires !ScanAll(objs, entry).raised
    ensures ScanAll(objs, entry).notes == MissingNetmaskNotes(objs, entry)
    decreases |objs|
  {
    if objs != [] {
      var n := |objs| - 1;
      var init := objs[..n];
      var prev := ScanAll(init, entry);
      assert ScanAll(objs, entry) == ScanStep(prev, entry, objs[n]);
      StepNotes(prev, entry, objs[n]);
      ScanNotes(init, entry);
    }
  }

  /** A step that does not raise adds the object's note, if any. */
  lemma StepNotes(st: Scan, entry: Node, obj: Node)
    requires !ScanStep(st, entry, obj).raised
    ensures !st.raised && ScanStep(st, entry, obj).notes == st.notes + NoteFor(obj, entry)
  {
    if !Matches(obj, entry) || HasNetmask(obj) {
      assert st.notes + [] == st.notes;
    }
  }

  /** `address_lookup` answers `[entry]` when no matching object has an
      ip-netmask, and the last such object's addresses otherwise. */
  lemma LookupAddressAnswer(objs: seq<Node>, entry: Node)
    requires forall i :: 0 <= i < |objs| ==> Testable(objs[i], entry)
    ensures var l := LookupAddress(objs, entry);
            && l.notes == MissingNetmaskNotes(objs, entry)
            && ((forall i :: 0 <= i < |objs| ==> !Hit(objs[i], entry)) ==> l.ips == IpList(entry))
            && (forall i: nat :: LastHit(objs, entry, i) ==> l.ips == IpList(NetmaskOf(objs[i])))
  {
    var sc := ScanAll(objs, entry);
    ScanRaises(objs, entry);
    assert !sc.raised;
    ScanFindsLast(objs, entry);
    ScanNotes(objs, entry);
    assert LookupAddress(objs, entry) == Looked(IpList(if sc.found then sc.ips else entry), sc.notes);
    forall i: nat | LastHit(objs, entry, i) ensures sc.found && sc.ips == NetmaskOf(objs[i]) {
      var j :| 0 <= j < |objs| && LastHit(objs, entry, j) && sc.ips == NetmaskOf(objs[j]);
      LastHitUnique(objs, entry, i, j);
    }
  }

  /** There is at most one last hit. */
  lemma LastHitUnique(objs: seq<Node>, entry: Node, i: nat, j: nat)
    requires LastHit(objs, entry, i) && LastHit(objs, entry, j)
    ensures i == j
  {
  }

  /** Scanning one more object is one more step. */
  lemma ScanAllNext(objs: seq<Node>, i: nat, entry: Node)
    requires i < |objs|
    ensures ScanAll(objs[..i + 1], entry) == ScanStep(ScanAll(objs[..i], entry), entry, objs[i])
  {
    assert objs[..i + 1][..i] == objs[..i];
  }

  /** A step on an object that can be tested. */
  lemma ScanStepTested(st: Scan, entry: Node, obj: Node)
    requires !st.raised && Testable(obj, entry)
    ensures ScanStep(st, entry, obj) ==
              if Within(entry, NameNode(obj)) == Some(false) then st
              else if HasNetmask(obj) then st.(found := true, ips := NetmaskOf(obj))
              else st.(notes := st.notes + [ReviewNote(NotIpNetmask, NameOf(obj))])
  {
  }

  /** Once an object raises, the objects after it change nothing. */
  lemma {:induction false} ScanRaisedStays(objs: seq<Node>, entry: Node, i: nat, k: nat)
    requires i <= k <= |objs|
    requires ScanAll(objs[..i], entry).raised
    ensures ScanAll(objs[..k], entry) == ScanAll(objs[..i], entry)
    decreases k
  {
    if k > i {
      ScanRaisedStays(objs, entry, i, k - 1);
      assert objs[..k][..k - 1] == objs[..k - 1];
    }
  }

  // ---------------------------------------------------------------------------
  // process_nat_entry

  /** What `process_nat_entry` returns: None, its commands, or the
      "Error, SNAT possibly misconfigured, <snat>" message about the source
      translation `snat`. */
  datatype NatResult = NoCommands | Commands(cmds: seq<string>) | Misconfigured(snat: Node)

  /** What NAT processing reads: ipcalc, the interface table and the address
      objects as a list. */
  datatype Ctx<!N> = Ctx(lib: Calc<N>, table: Table, objects: seq<Node>)

  /** A result, the review notes appended on the way, and whether
      `address_lookup` ran (and so turned `mem.address_object_entries` into
      a list). */
  datatype Outcome<T> = Outcome(result: Result<T, Halt>, notes: seq<string>, looked: bool)

  /** `interface_lookup(ip) or "INTERFACE NOT FOUND"`. */
  function InterfaceOr(l: IfLookup): string {
    if l.Found? && l.ifname != "" then l.ifname else InterfaceNotFound
  }

  /** The commands for translated addresses `ips`, each on the interface
      whose network holds it; None when an interface lookup raises. */
  function TranslatedCommands<N>(ctx: Ctx<N>, ips: seq<string>): Option<seq<string>>
    decreases |ips|
  {
    if ips == [] then Some([])
    else
      match TranslatedCommands(ctx, ips[..|ips| - 1])
      case None => None
      case Some(cmds) =>
        var ip := ips[|ips| - 1];
        var l := InterfaceLookup(ctx.lib, ctx.table, ip);
        if l.Raised? then None else Some(cmds + [GarpCommand(ip, InterfaceOr(l))])
  }

  /** The `translated-address` branch: look the address up, then one command
      per address. */
  function Translated<N>(ctx: Ctx<N>, x: Node): Outcome<seq<string>> {
    var l := LookupAddress(ctx.objects, x);
    match l.ips
    case None => Outcome(Failure(Unmodelled), l.notes, true)
    case Some(ips) =>
      match TranslatedCommands(ctx, ips)
      case None => Outcome(Failure(Unmodelled), l.notes, true)
      case Some(cmds) => Outcome(Success(cmds), l.notes, true)
  }

  /** One command per address on the interface `ifname`. */
  function InterfaceCommands(ips: seq<string>, ifname: string): seq<string>
    decreases |ips|
  {
    if ips == [] then [] else InterfaceCommands(ips[..|ips| - 1], ifname) + [GarpCommand(ips[|ips| - 1], ifname)]
  }

  /** The `interface-address` branch: the named interface, with the
      addresses its `ip` resolves to, or the IP-not-found placeholder. */
  function ViaInterface<N>(ctx: Ctx<N>, ia: Node): Outcome<seq<string>> {
    if !ia.Dict? then Outcome(Failure(Crashed), [], false)
    else match Get(ia.items, "interface")
      case Some(ifobj) =>
        var ifname := Str(ifobj);
        (match Get(ia.items, "ip")
         case Some(ipobj) =>
           var l := LookupAddress(ctx.objects, ipobj);
           (match l.ips
            case None => Outcome(Failure(Crashed), l.notes, true)
            case Some(ips) => Outcome(Success(InterfaceCommands(ips, ifname)), l.notes, true))
         case None => Outcome(Success([GarpCommand(IpNotFound, ifname)]), [], false))
      case None => Outcome(Failure(Crashed), [], false)
  }

  /** The source-translation part of `process_nat_entry`. */
  function SourceNat<N>(ctx: Ctx<N>, snat: Node): Outcome<NatResult> {
    SourceNatWith(snat, x => Translated(ctx, x), ia => ViaInterface(ctx, ia))
  }

  /** The source-translation part, with `translated` and `viaInterface`
      giving its two branches. */
  function SourceNatWith(snat: Node, translated: Node -> Outcome<seq<string>>,
                         viaInterface: Node -> Outcome<seq<string>>): Outcome<NatResult> {
    if !snat.Dict? then Outcome(Failure(Crashed), [], false)
    else
      var x := Iterdict(snat.items, "translated-address");
      var ia := Iterdict(snat.items, "interface-address");
      var xo := if x.Some? && Truthy(x.value) then translated(x.value) else Outcome(Success([]), [], false);
      if xo.result.Failure? then Outcome(Failure(xo.result.error), xo.notes, xo.looked)
      else
        var io := if ia.Some? && Truthy(ia.value) then viaInterface(ia.value) else Outcome(Success([]), [], false);
        var notes := xo.notes + io.notes;
        var looked := xo.looked || io.looked;
        if io.result.Failure? then Outcome(Failure(io.result.error), notes, looked)
        else
          var cmds := xo.result.value + io.result.value;
          Outcome(Success(if cmds != [] then Commands(cmds) else Misconfigured(snat)), notes, looked)
  }

  /** `translated` gives what the `translated-address` branch gives against `ctx`. */
  ghost predicate TranslatesAs<N>(translated: Node -> Outcome<seq<string>>, ctx: Ctx<N>) {
    forall x {:trigger Translated(ctx, x)} :: translated(x) == Translated(ctx, x)
  }

  /** `viaInterface` gives what the `interface-address` branch gives against `ctx`. */
  ghost predicate ResolvesAs<N>(viaInterface: Node -> Outcome<seq<string>>, ctx: Ctx<N>) {
    forall ia {:trigger ViaInterface(ctx, ia)} :: viaInterface(ia) == ViaInterface(ctx, ia)
  }

  /** An `@name`, which the review notes print. */
  predicate Named(items: seq<(string, Node)>) {
    Get(items, "@name").Some?
  }

  function NameIn(items: seq<(string, Node)>): string
    requires Named(items)
  {
    Str(Get(items, "@name").value)
  }

  /** Review notes `notes` put before those of `o`. */
  function After<T>(notes: seq<string>, o: Outcome<T>): Outcome<T> {
    Outcome(o.result, notes + o.notes, o.looked)
  }

  /** The address objects after a step that may have run `address_lookup`. */
  function Normalised(objects: Node, looked: bool): Node {
    if looked then Node.List(AsNodes(objects)) else objects
  }

  /** Normalising leaves the objects a lookup sees as they were. */
  lemma NormalisedObjects(objects: Node, looked: bool)
    ensures AsNodes(Normalised(objects, looked)) == AsNodes(objects)
  {
  }

  lemma NormalisedTwice(objects: Node, first: bool, second: bool)
    ensures Normalised(Normalised(objects, first), second) == Normalised(objects, first || second)
  {
  }

  /** `process_nat_entry(entry)`. */
  function ProcessNat<N>(ctx: Ctx<N>, entry: Node): Outcome<NatResult> {
    if !entry.Dict? then Outcome(NotARule(entry), [], false) else RuleNat(ctx, entry.items)
  }

  /** `process_nat_entry` on a value that is not a dictionary: the three
      key tests run on it as on any container, and the first that holds
      leads to indexing it, which raises; so does a test that raises. */
  function NotARule(entry: Node): Result<NatResult, Halt> {
    if Within(Text("disabled"), entry) == Some(false)
       && Within(Text("destination-translation"), entry) == Some(false)
       && Within(Text("source-translation"), entry) == Some(false)
    then Success(NoCommands)
    else Failure(Crashed)
  }

  /** `process_nat_entry` on the rule with fields `items`. */
  function RuleNat<N>(ctx: Ctx<N>, items: seq<(string, Node)>): Outcome<NatResult> {
    RuleWith(items, SnatPart(ctx, items))
  }

  /** `process_nat_entry` on the rule with fields `items`, where `snatPart` is
      what its source-translation part gives. */
  function RuleWith(items: seq<(string, Node)>, snatPart: Outcome<NatResult>): Outcome<NatResult> {
    if DisabledRule(items) then
      if Named(items) then Outcome(Success(NoCommands), [ReviewNote(Disabled, NameIn(items))], false)
      else Outcome(Failure(Crashed), [], false)
    else if Get(items, "destination-translation").Some? then
      if Named(items) then After([ReviewNote(Dnat, NameIn(items))], snatPart)
      else Outcome(Failure(Crashed), [], false)
    else snatPart
  }

  /** The rule is disabled: `entry["disabled"] == "yes"`. */
  predicate DisabledRule(items: seq<(string, Node)>) {
    Get(items, "disabled") == Some(Text("yes"))
  }

  /** `part` gives what the source-translation part gives against `ctx`. */
  ghost predicate SnatAs<N>(part: seq<(string, Node)> -> Outcome<NatResult>, ctx: Ctx<N>) {
    forall items {:trigger SnatPart(ctx, items)} :: part(items) == SnatPart(ctx, items)
  }

  /** The rest of `process_nat_entry` once the rule is enabled. */
  function SnatPart<N>(ctx: Ctx<N>, items: seq<(string, Node)>): Outcome<NatResult> {
    match Get(items, "source-translation")
    case None => Outcome(Success(NoCommands), [], false)
    case Some(snat) => SourceNat(ctx, snat)
  }

  // ---------------------------------------------------------------------------
  // build_garp_commands

  /** The results for a list of NAT rules, in order, stopping at the first
      rule that halts. */
  function RunEntries<N>(ctx: Ctx<N>, es: seq<Node>): Outcome<seq<NatResult>> {
    RunWith(e => ProcessNat(ctx, e), es)
  }

  /** `rule` applied to each of `xs` in order, the results and notes
      collected, stopping at the first that halts. */
  function RunWith<X, R>(rule: X -> Outcome<R>, xs: seq<X>): Outcome<seq<R>>
    decreases |xs|
  {
    if xs == [] then Outcome(Success([]), [], false)
    else
      var prev := RunWith(rule, xs[..|xs| - 1]);
      if prev.result.Failure? then prev
      else
        var o := rule(xs[|xs| - 1]);
        Outcome(if o.result.Success? then Success(prev.result.value + [o.result.value]) else Failure(o.result.error),
                prev.notes + o.notes, prev.looked || o.looked)
  }

  /** `rule` gives, entry by entry, what `process_nat_entry` gives against
      `ctx`. */
  ghost predicate Specifies<N>(rule: Node -> Outcome<NatResult>, ctx: Ctx<N>) {
    forall e {:trigger ProcessNat(ctx, e)} :: rule(e) == ProcessNat(ctx, e)
  }

  predicate InterfaceType(inputType: string) {
    inputType == "ethernet" || inputType == "aggregate-ethernet"
  }

  predicate NatType(inputType: string) {
    inputType == "pre-nat-rules" || inputType == "post/nat-rules"
  }

  /** `build_garp_commands(input_type, entries)`. */
  function Build<N>(ctx: Ctx<N>, inputType: string, entries: Node): Outcome<seq<NatResult>> {
    if !InterfaceType(inputType) && !NatType(inputType) then Outcome(Failure(Exited), [], false)
    else if !Truthy(entries) then Outcome(Success([]), [], false)
    else if !entries.Dict? || Get(entries.items, "entry").None? then Outcome(Failure(Crashed), [], false)
    else if InterfaceType(inputType) then
      if Get(entries.items, "entry").value == Node.List([]) then Outcome(Success([]), [], false)
      else Outcome(Failure(Unmodelled), [], false)
    else NatEntries(ctx, Get(entries.items, "entry").value)
  }

  /** The NAT rules under `entry`: a list of them, or a single one, whose
      result is returned as a list of one. */
  function NatEntries<N>(ctx: Ctx<N>, e: Node): Outcome<seq<NatResult>> {
    if e.List? then RunEntries(ctx, e.elems)
    else
      var o := ProcessNat(ctx, e);
      Outcome(if o.result.Success? then Success([o.result.value]) else Failure(o.result.error), o.notes, o.looked)
  }

  /** Once a rule halts the run, later rules change nothing. */
  lemma {:induction false} RunHaltStays<X, R>(rule: X -> Outcome<R>, xs: seq<X>, i: nat, k: nat)
    requires i <= k <= |xs|
    requires RunWith(rule, xs[..i]).result.Failure?
    ensures RunWith(rule, xs[..k]) == RunWith(rule, xs[..i])
    decreases k
  {
    if k > i {
      RunHaltStays(rule, xs, i, k - 1);
      assert xs[..k][..k - 1] == xs[..k - 1];
    }
  }

  /** Once an interface lookup raises, later addresses change nothing. */
  lemma {:induction false} TranslatedNoneStays<N>(ctx: Ctx<N>, ips: seq<string>, i: nat, k: nat)
    requires i <= k <= |ips|
    requires TranslatedCommands(ctx, ips[..i]).None?
    ensures TranslatedCommands(ctx, ips[..k]).None?
    decreases k
  {
    if k > i {
      TranslatedNoneStays(ctx, ips, i, k - 1);
      assert ips[..k][..k - 1] == ips[..k - 1];
    }
  }

  // ---------------------------------------------------------------------------
  // What NAT processing promises

  /** Every command starts with "test arp gratuitous ip ". */
  predicate AllGarp(cmds: seq<string>) {
    forall i :: 0 <= i < |cmds| ==> GarpPrefix <= cmds[i]
  }

  lemma GarpCommandPrefix(ip: string, ifname: string)
    ensures GarpPrefix <= GarpCommand(ip, ifname)
  {
    assert GarpCommand(ip, ifname) == GarpPrefix + (BeforeSlash(ip) + " interface " + ifname);
  }

  /** The translated-address commands: one per address, in order, each on
      the interface found for it or "INTERFACE NOT FOUND"; none at all when
      the lookup of any address raises. */
  lemma {:induction false} TranslatedCommandsEach<N>(ctx: Ctx<N>, ips: seq<string>)
    ensures TranslatedCommands(ctx, ips).None? <==>
            exists i :: 0 <= i < |ips| && InterfaceLookup(ctx.lib, ctx.table, ips[i]).Raised?
    ensures TranslatedCommands(ctx, ips).Some? ==>
            var cmds := TranslatedCommands(ctx, ips).value;
            |cmds| == |ips| &&
            forall i :: 0 <= i < |ips| ==> cmds[i] == GarpCommand(ips[i], InterfaceOr(InterfaceLookup(ctx.lib, ctx.table, ips[i])))
    decreases |ips|
  {
    if ips != [] {
      var n := |ips| - 1;
      var init := ips[..n];
      TranslatedCommandsEach(ctx, init);
      assert forall i :: 0 <= i < n ==> init[i] == ips[i];
      var prev := TranslatedCommands(ctx, init);
      var l := InterfaceLookup(ctx.lib, ctx.table, ips[n]);
      assert TranslatedCommands(ctx, ips) ==
             if prev.None? || l.Raised? then None else Some(prev.value + [GarpCommand(ips[n], InterfaceOr(l))]);
    }
  }

  /** The interface-address commands: one per address, in order, all on
      `ifname`. */
  lemma {:induction false} InterfaceCommandsEach(ips: seq<string>, ifname: string)
    ensures |InterfaceCommands(ips, ifname)| == |ips|
    ensures forall i :: 0 <= i < |ips| ==> InterfaceCommands(ips, ifname)[i] == GarpCommand(ips[i], ifname)
    decreases |ips|
  {
    if ips != [] {
      var n := |ips| - 1;
      InterfaceCommandsEach(ips[..n], ifname);
      assert forall i :: 0 <= i < n ==> ips[..n][i] == ips[i];
    }
  }

  /** The translated-address branch gives only gratuitous-ARP commands. */
  lemma TranslatedGarp<N>(ctx: Ctx<N>, x: Node)
    ensures var o := Translated(ctx, x); o.result.Success? ==> AllGarp(o.result.value)
  {
    var l := LookupAddress(ctx.objects, x);
    if l.ips.Some? {
      var ips := l.ips.value;
      TranslatedCommandsEach(ctx, ips);
      if TranslatedCommands(ctx, ips).Some? {
        var cmds := TranslatedCommands(ctx, ips).value;
        forall i | 0 <= i < |cmds| ensures GarpPrefix <= cmds[i] {
          GarpCommandPrefix(ips[i], InterfaceOr(InterfaceLookup(ctx.lib, ctx.table, ips[i])));
        }
      }
    }
  }

  /** The interface-address branch gives only gratuitous-ARP commands, and
      at least one when the interface has no `ip`. */
  lemma ViaInterfaceGarp<N>(ctx: Ctx<N>, ia: Node)
    ensures var o := ViaInterface(ctx, ia); o.result.Success? ==> AllGarp(o.result.value)
  {
    if ia.Dict? && Get(ia.items, "interface").Some? {
      var ifname := Str(Get(ia.items, "interface").value);
      var ipobj := Get(ia.items, "ip");
      if ipobj.None? {
        GarpCommandPrefix(IpNotFound, ifname);
      } else if LookupAddress(ctx.objects, ipobj.value).ips.Some? {
        var ips := LookupAddress(ctx.objects, ipobj.value).ips.value;
        InterfaceCommandsEach(ips, ifname);
        forall i | 0 <= i < |ips| ensures GarpPrefix <= InterfaceCommands(ips, ifname)[i] {
          GarpCommandPrefix(ips[i], ifname);
        }
      }
    }
  }

  /** The source-translation part never answers None: it gives commands,
      all of them gratuitous-ARP commands and at least one, or the
      misconfiguration error about this very translation. */
  lemma SourceNatShape<N>(ctx: Ctx<N>, snat: Node)
    ensures var r := SourceNat(ctx, snat).result;
            && r != Success(NoCommands)
            && (r.Success? && r.value.Commands? ==> r.value.cmds != [] && AllGarp(r.value.cmds))
            && (r.Success? && r.value.Misconfigured? ==> r.value.snat == snat)
  {
    var translated := x => Translated(ctx, x);
    var viaInterface := ia => ViaInterface(ctx, ia);
    forall x ensures translated(x).result.Success? ==> AllGarp(translated(x).result.value) {
      TranslatedGarp(ctx, x);
    }
    forall ia ensures viaInterface(ia).result.Success? ==> AllGarp(viaInterface(ia).result.value) {
      ViaInterfaceGarp(ctx, ia);
    }
    SourceNatWithShape(snat, translated, viaInterface);
  }

  lemma SourceNatWithShape(snat: Node, translated: Node -> Outcome<seq<string>>, viaInterface: Node -> Outcome<seq<string>>)
    requires forall x :: translated(x).result.Success? ==> AllGarp(translated(x).result.value)
    requires forall ia :: viaInterface(ia).result.Success? ==> AllGarp(viaInterface(ia).result.value)
    ensures var r := SourceNatWith(snat, translated, viaInterface).result;
            && r != Success(NoCommands)
            && (r.Success? && r.value.Commands? ==> r.value.cmds != [] && AllGarp(r.value.cmds))
            && (r.Success? && r.value.Misconfigured? ==> r.value.snat == snat)
  {
    var o := SourceNatWith(snat, translated, viaInterface);
    if snat.Dict? && o.result.Success? && o.result.value.Commands? {
      var x := Iterdict(snat.items, "translated-address");
      var ia := Iterdict(snat.items, "interface-address");
      var xs := if x.Some? && Truthy(x.value) then translated(x.value).result.value else [];
      var ias := if ia.Some? && Truthy(ia.value) then viaInterface(ia.value).result.value else [];
      assert AllGarp(xs) && AllGarp(ias);
      assert o.result.value.cmds == xs + ias;
      AllGarpConcat(xs, ias);
    }
  }

  lemma AllGarpConcat(a: seq<string>, b: seq<string>)
    requires AllGarp(a) && AllGarp(b)
    ensures AllGarp(a + b)
  {
    assert forall i :: 0 <= i < |a + b| ==> (a + b)[i] == if i < |a| then a[i] else b[i - |a|];
  }

  /** A rule's outcome: a disabled rule gives one review note and None; an
      enabled one gives None exactly when it has no source translation;
      commands are never empty and are all gratuitous-ARP commands; the
      misconfiguration error is about the rule's own source translation. */
  lemma NatRuleShape<N>(ctx: Ctx<N>, items: seq<(string, Node)>)
    ensures var o := ProcessNat(ctx, Dict(items));
            var r := o.result;
            && (DisabledRule(items) && Named(items) ==>
                  o == Outcome(Success(NoCommands), [ReviewNote(Disabled, NameIn(items))], false))
            && (r == Success(NoCommands) <==>
                  (DisabledRule(items) && Named(items)) ||
                  (!DisabledRule(items) && Get(items, "source-translation").None? &&
                   (Get(items, "destination-translation").None? || Named(items))))
            && (r.Success? && r.value.Commands? ==> r.value.cmds != [] && AllGarp(r.value.cmds))
            && (r.Success? && r.value.Misconfigured? ==> Get(items, "source-translation") == Some(r.value.snat))
  {
    var st := Get(items, "source-translation");
    if st.Some? {
      SourceNatShape(ctx, st.value);
    }
  }

  /** The items without key `k`. */
  function Without(items: seq<(string, Node)>, k: string): (r: seq<(string, Node)>)
    ensures |r| <= |items|
    decreases |items|
  {
    if items == [] then []
    else if items[0].0 == k then Without(items[1..], k)
    else [items[0]] + Without(items[1..], k)
  }

  /** Removing key `k` hides it and leaves every other key's value as it was. */
  lemma {:induction false} GetWithout(items: seq<(string, Node)>, k: string, k': string)
    ensures Get(Without(items, k), k') == if k' == k then None else Get(items, k')
    decreases |items|
  {
    if items != [] {
      GetWithout(items[1..], k, k');
    }
  }

  /** A destination translation only adds its review note in front: the
      rule is otherwise processed as if it had none. */
  lemma DnatNoted<N>(ctx: Ctx<N>, items: seq<(string, Node)>)
    requires !DisabledRule(items) && Get(items, "destination-translation").Some? && Named(items)
    ensures ProcessNat(ctx, Dict(items)) ==
            After([ReviewNote(Dnat, NameIn(items))], ProcessNat(ctx, Dict(Without(items, "destination-translation"))))
  {
    var plain := Without(items, "destination-translation");
    GetWithout(items, "destination-translation", "disabled");
    GetWithout(items, "destination-translation", "destination-translation");
    GetWithout(items, "destination-translation", "source-translation");
    assert SnatPart(ctx, plain) == SnatPart(ctx, items);
  }

  /** A run over rules succeeds exactly when every rule does, with one
      result per rule in order; otherwise it stops with the error of the
      first rule that halts. */
  lemma {:induction false} RunWithEach<X, R>(rule: X -> Outcome<R>, xs: seq<X>)
    ensures var o := RunWith(rule, xs);
            && (o.result.Success? <==> forall i :: 0 <= i < |xs| ==> rule(xs[i]).result.Success?)
            && (o.result.Success? ==>
                  && |o.result.value| == |xs|
                  && forall i :: 0 <= i < |xs| ==> rule(xs[i]).result == Success(o.result.value[i]))
            && (o.result.Failure? ==>
                  exists i :: && 0 <= i < |xs| && rule(xs[i]).result == Failure(o.result.error)
                              && forall j :: 0 <= j < i ==> rule(xs[j]).result.Success?)
    decreases |xs|
  {
    if xs != [] {
      var n := |xs| - 1;
      var init := xs[..n];
      RunWithEach(rule, init);
      assert forall i :: 0 <= i < n ==> init[i] == xs[i];
      var prev := RunWith(rule, init);
      if prev.result.Failure? {
        var i :| 0 <= i < n && rule(init[i]).result == Failure(prev.result.error) &&
                 forall j :: 0 <= j < i ==> rule(init[j]).result.Success?;
        assert rule(xs[i]).result.Failure?;
      } else if rule(xs[n]).result.Failure? {
        assert forall j :: 0 <= j < n ==> rule(xs[j]).result.Success?;
      }
    }
  }

  /** `build_garp_commands`: an unsupported type exits, and a supported
      one with no entries gives []. */
  lemma BuildEdges<N>(ctx: Ctx<N>, inputType: string, entries: Node)
    ensures !InterfaceType(inputType) && !NatType(inputType) ==> Build(ctx, inputType, entries).result == Failure(Exited)
    ensures InterfaceType(inputType) || NatType(inputType) ==>
              !Truthy(entries) ==> Build(ctx, inputType, entries) == Outcome(Success([]), [], false)
  {
  }

  /** A list of NAT rules gives one result per rule, in order, and halts
      when a rule halts. */
  lemma BuildRuleList<N>(ctx: Ctx<N>, inputType: string, entries: Node, es: seq<Node>)
    requires NatType(inputType) && entries.Dict? && Get(entries.items, "entry") == Some(Node.List(es))
    ensures var r := Build(ctx, inputType, entries).result;
            && (r.Success? <==> forall i :: 0 <= i < |es| ==> ProcessNat(ctx, es[i]).result.Success?)
            && (r.Success? ==>
                  && |r.value| == |es|
                  && forall i :: 0 <= i < |es| ==> ProcessNat(ctx, es[i]).result == Success(r.value[i]))
  {
    RunWithEach(x => ProcessNat(ctx, x), es);
  }

  /** A single NAT rule gives a list of its one result. */
  lemma BuildOneRule<N>(ctx: Ctx<N>, inputType: string, entries: Node, e: Node)
    requires NatType(inputType) && entries.Dict? && Get(entries.items, "entry") == Some(e) && !e.List?
    ensures var r := Build(ctx, inputType, entries).result;
            && (r.Success? <==> ProcessNat(ctx, e).result.Success?)
            && (r.Success? ==> r.value == [ProcessNat(ctx, e).result.value])
  {
  }

  // ---------------------------------------------------------------------------
  // The global state and the operations that change it

  /** The `mem` class: the ip/mask -> interface table, the review notes and
      the address objects. */
  class Mem {
    var ipToEth: Table
    var reviewNats: seq<string>
    var addressObjects: Node

    constructor ()
      ensures ipToEth == [] && reviewNats == [] && addressObjects == Null
    {
      ipToEth := [];
      reviewNats := [];
      addressObjects := Null;
    }

    /** `add_review_entry(entry, type)`: one note appended. */
    method AddReviewEntry(kind: ReviewKind, name: string)
      modifies this
      ensures reviewNats == old(reviewNats) + [ReviewNote(kind, name)]
      ensures ipToEth == old(ipToEth) && addressObjects == old(addressObjects)
    {
      reviewNats := reviewNats + [ReviewNote(kind, name)];
    }

    /** `add_garp_command(ip, ifname, nat)`: the command, and `ip` recorded
      in the table only outside NAT processing. */
    method AddGarpCommand(ip: string, ifname: string, inNat: bool) returns (cmd: string)
      modifies this
      ensures cmd == GarpCommand(ip, ifname)
      ensures ipToEth == if inNat then old(ipToEth) else DictUpdate(old(ipToEth), ip, ifname)
      ensures reviewNats == old(reviewNats) && addressObjects == old(addressObjects)
    {
      if !inNat {
        ipToEth := DictUpdate(ipToEth, ip, ifname);
      }
      var host := BeforeSlash(ip);
      cmd := "test arp gratuitous ip " + host + " interface " + ifname;
    }

    /** `address_lookup(entry)`: the addresses, None where the lookup or the
      use of its result raises. */
    method AddressLookup(entry: Node) returns (ips: Option<seq<string>>)
      modifies this
      ensures var l := LookupAddress(AsNodes(old(addressObjects)), entry);
              ips == l.ips && reviewNats == old(reviewNats) + l.notes
      ensures addressObjects == Node.List(AsNodes(old(addressObjects))) && ipToEth == old(ipToEth)
    {
      if !addressObjects.List? {
        addressObjects := Node.List([addressObjects]);
      }
      var raised, found, hit := ScanObjects(addressObjects.elems, entry);
      if raised {
        return None;
      }
      if !found {
        hit := entry;
      }
      ips := IpList(hit);
    }

    /** The object loop of `address_lookup`: whether an object raised,
        whether an ip-netmask match was found and its value; the notes of
        the objects examined are appended. */
    method ScanObjects(objs: seq<Node>, entry: Node) returns (raised: bool, found: bool, hit: Node)
      modifies this
      ensures var sc := ScanAll(objs, entry);
              raised == sc.raised && (!raised ==> found == sc.found && hit == sc.ips)
              && reviewNats == old(reviewNats) + sc.notes
      ensures ipToEth == old(ipToEth) && addressObjects == old(addressObjects)
    {
      found, hit := false, Null;
      var i := 0;
      while i < |objs|
        invariant 0 <= i <= |objs|
        invariant var sc := ScanAll(objs[..i], entry);
                  !sc.raised && sc.found == found && sc.ips == hit && reviewNats == old(reviewNats) + sc.notes
        invariant ipToEth == old(ipToEth) && addressObjects == old(addressObjects)
      {
        ScanAllNext(objs, i, entry);
        var obj := objs[i];
        var test := if obj.Dict? then Within(entry, NameNode(obj)) else None;
        if test.None? {
          ScanRaisedStays(objs, entry, i + 1, |objs|);
          assert objs[..|objs|] == objs;
          return true, found, hit;
        }
        ScanStepTested(ScanAll(objs[..i], entry), entry, obj);
        if test.value {
          var netmask := Get(obj.items, "ip-netmask");
          if netmask.Some? {
            found := true;
            hit := netmask.value;
          } else {
            AddReviewEntry(NotIpNetmask, NameOf(obj));
          }
        }
        i := i + 1;
      }
      assert objs[..|objs|] == objs;
      raised := false;
    }

    /** The NAT-processing inputs as they stand. */
    function Context<N>(lib: Calc<N>): Ctx<N>
      reads this
    {
      Ctx(lib, ipToEth, AsNodes(addressObjects))
    }

    /** The `translated-address` branch of `process_nat_entry`. */
    method TranslatedAddressCommands<N>(lib: Calc<N>, x: Node, ghost translated: Node -> Outcome<seq<string>>)
      returns (r: Result<seq<string>, Halt>)
      requires TranslatesAs(translated, Context(lib))
      modifies this
      ensures var o := translated(x);
              r == o.result && reviewNats == old(reviewNats) + o.notes && ipToEth == old(ipToEth)
              && addressObjects == Normalised(old(addressObjects), o.looked)
    {
      ghost var ctx := Context(lib);
      assert translated(x) == Translated(ctx, x);
      var ips := AddressLookup(x);
      if ips.None? {
        return Failure(Unmodelled);
      }
      var cmds := AddressCommands(lib, ips.value);
      if cmds.None? {
        return Failure(Unmodelled);
      }
      r := Success(cmds.value);
    }

    /** The per-address loop of the `translated-address` branch: one command
        per address, on the interface whose network holds it. */
    method AddressCommands<N>(lib: Calc<N>, addrs: seq<string>) returns (r: Option<seq<string>>)
      modifies this
      ensures r == TranslatedCommands(old(Context(lib)), addrs)
      ensures ipToEth == old(ipToEth) && reviewNats == old(reviewNats) && addressObjects == old(addressObjects)
    {
      ghost var ctx := Context(lib);
      var commands: seq<string> := [];
      var i := 0;
      while i < |addrs|
        invariant 0 <= i <= |addrs|
        invariant TranslatedCommands(ctx, addrs[..i]) == Some(commands)
        invariant ipToEth == old(ipToEth) && reviewNats == old(reviewNats) && addressObjects == old(addressObjects)
      {
        assert addrs[..i + 1][..i] == addrs[..i];
        var ip := addrs[i];
        var found := InterfaceLookup(lib, ipToEth, ip);
        if found.Raised? {
          TranslatedNoneStays(ctx, addrs, i + 1, |addrs|);
          assert addrs[..|addrs|] == addrs;
          return None;
        }
        var ifname := if found.Found? then found.ifname else "";
        if ifname == "" {
          ifname := InterfaceNotFound;
        }
        var cmd := AddGarpCommand(ip, ifname, true);
        commands := commands + [cmd];
        i := i + 1;
      }
      assert addrs[..|addrs|] == addrs;
      r := Some(commands);
    }

    /** The `interface-address` branch of `process_nat_entry`. */
    method InterfaceAddressCommands<N>(lib: Calc<N>, ia: Node, ghost viaInterface: Node -> Outcome<seq<string>>)
      returns (r: Result<seq<string>, Halt>)
      requires ResolvesAs(viaInterface, Context(lib))
      modifies this
      ensures var o := viaInterface(ia);
              r == o.result && reviewNats == old(reviewNats) + o.notes && ipToEth == old(ipToEth)
              && addressObjects == Normalised(old(addressObjects), o.looked)
    {
      assert viaInterface(ia) == ViaInterface(Context(lib), ia);
      if !ia.Dict? {
        return Failure(Crashed);
      }
      var ifobj := Get(ia.items, "interface");
      if ifobj.None? {
        return Failure(Crashed);
      }
      var ifname := Str(ifobj.value);
      var ipobj := Get(ia.items, "ip");
      if ipobj.None? {
        var cmd := AddGarpCommand(IpNotFound, ifname, true);
        return Success([cmd]);
      }
      var ips := AddressLookup(ipobj.value);
      if ips.None? {
        return Failure(Crashed);
      }
      var addrs := ips.value;
      var commands: seq<string> := [];
      var i := 0;
      while i < |addrs|
        invariant 0 <= i <= |addrs|
        invariant commands == InterfaceCommands(addrs[..i], ifname)
        invariant ipToEth == old(ipToEth)
        invariant reviewNats == old(reviewNats) + LookupAddress(old(Context(lib)).objects, ipobj.value).notes
        invariant addressObjects == Node.List(AsNodes(old(addressObjects)))
      {
        assert addrs[..i + 1][..i] == addrs[..i];
        var cmd := AddGarpCommand(addrs[i], ifname, true);
        commands := commands + [cmd];
        i := i + 1;
      }
      assert addrs[..|addrs|] == addrs;
      r := Success(commands);
    }

    /** The source-translation part of `process_nat_entry`. */
    method SourceTranslation<N>(lib: Calc<N>, snat: Node, ghost translated: Node -> Outcome<seq<string>>,
                                ghost viaInterface: Node -> Outcome<seq<string>>) returns (r: Result<NatResult, Halt>)
      requires TranslatesAs(translated, Context(lib)) && ResolvesAs(viaInterface, Context(lib))
      modifies this
      ensures var o := SourceNatWith(snat, translated, viaInterface);
              r == o.result && reviewNats == old(reviewNats) + o.notes && ipToEth == old(ipToEth)
              && addressObjects == Normalised(old(addressObjects), o.looked)
    {
      if !snat.Dict? {
        return Failure(Crashed);
      }
      var x := Iterdict(snat.items, "translated-address");
      var ia := Iterdict(snat.items, "interface-address");
      ghost var ctx := Context(lib);
      var xs: seq<string> := [];
      ghost var xl := false;
      if x.Some? && Truthy(x.value) {
        var xr := TranslatedAddressCommands(lib, x.value, translated);
        if xr.Failure? {
          return Failure(xr.error);
        }
        xs := xr.value;
        xl := translated(x.value).looked;
        NormalisedObjects(old(addressObjects), translated(x.value).looked);
        assert Context(lib) == ctx;
      }
      var ias: seq<string> := [];
      if ia.Some? && Truthy(ia.value) {
        var ir := InterfaceAddressCommands(lib, ia.value, viaInterface);
        if ir.Failure? {
          return Failure(ir.error);
        }
        ias := ir.value;
        NormalisedTwice(old(addressObjects), xl, viaInterface(ia.value).looked);
      }
      var commands := xs + ias;
      if commands != [] {
        r := Success(Commands(commands));
      } else {
        r := Success(Misconfigured(snat));
      }
    }

    /** `process_nat_entry(entry)`: its result and review notes, as `rule`
      gives them; the interface table is never touched. */
    method ProcessNatEntry<N>(lib: Calc<N>, entry: Node, ghost rule: Node -> Outcome<NatResult>) returns (r: Result<NatResult, Halt>)
      requires Specifies(rule, Context(lib))
      modifies this
      ensures var o := rule(entry);
              r == o.result && reviewNats == old(reviewNats) + o.notes && ipToEth == old(ipToEth)
              && addressObjects == Normalised(old(addressObjects), o.looked)
    {
      assert rule(entry) == ProcessNat(Context(lib), entry);
      if !entry.Dict? {
        if Within(Text("disabled"), entry) != Some(false) || Within(Text("destination-translation"), entry) != Some(false)
           || Within(Text("source-translation"), entry) != Some(false) {
          return Failure(Crashed);
        }
        return Success(NoCommands);
      }
      ghost var ctx := Context(lib);
      r := RuleEntry(lib, entry.items, items => SnatPart(ctx, items));
    }

    /** `process_nat_entry` on the rule with fields `items`, where `part`
      gives its source-translation part. */
    method RuleEntry<N>(lib: Calc<N>, items: seq<(string, Node)>, ghost part: seq<(string, Node)> -> Outcome<NatResult>)
      returns (r: Result<NatResult, Halt>)
      requires SnatAs(part, Context(lib))
      modifies this
      ensures var o := RuleWith(items, part(items));
              r == o.result && reviewNats == old(reviewNats) + o.notes && ipToEth == old(ipToEth)
              && addressObjects == Normalised(old(addressObjects), o.looked)
    {
      var name := Get(items, "@name");
      var disabled := Get(items, "disabled");
      if disabled == Some(Text("yes")) {
        if name.None? {
          return Failure(Crashed);
        }
        AddReviewEntry(Disabled, Str(name.value));
        return Success(NoCommands);
      }
      if Get(items, "destination-translation").Some? {
        if name.None? {
          return Failure(Crashed);
        }
        AddReviewEntry(Dnat, Str(name.value));
      }
      r := SnatEntry(lib, items, part);
    }

    /** The rest of `process_nat_entry` once the rule is enabled. */
    method SnatEntry<N>(lib: Calc<N>, items: seq<(string, Node)>, ghost part: seq<(string, Node)> -> Outcome<NatResult>)
      returns (r: Result<NatResult, Halt>)
      requires SnatAs(part, Context(lib))
      modifies this
      ensures var o := part(items);
              r == o.result && reviewNats == old(reviewNats) + o.notes && ipToEth == old(ipToEth)
              && addressObjects == Normalised(old(addressObjects), o.looked)
    {
      ghost var ctx := Context(lib);
      assert part(items) == SnatPart(ctx, items);
      var snat := Get(items, "source-translation");
      if snat.None? {
        return Success(NoCommands);
      }
      ghost var translated := x => Translated(ctx, x);
      ghost var viaInterface := ia => ViaInterface(ctx, ia);
      r := SourceTranslation(lib, snat.value, translated, viaInterface);
    }

    /** `build_garp_commands(input_type, entries)` on NAT rules and on the
      interface types' empty cases. */
    method BuildGarpCommands<N>(lib: Calc<N>, inputType: string, entries: Node) returns (r: Result<seq<NatResult>, Halt>)
      modifies this
      ensures var o := Build(old(Context(lib)), inputType, entries);
              r == o.result && reviewNats == old(reviewNats) + o.notes && ipToEth == old(ipToEth)
              && addressObjects == Normalised(old(addressObjects), o.looked)
    {
      var inNat: bool;
      if inputType == "ethernet" || inputType == "aggregate-ethernet" {
        inNat := false;
      } else if inputType == "pre-nat-rules" || inputType == "post/nat-rules" {
        inNat := true;
      } else {
        return Failure(Exited);
      }
      if !Truthy(entries) {
        return Success([]);
      }
      if !entries.Dict? {
        return Failure(Crashed);
      }
      var e := Get(entries.items, "entry");
      if e.None? {
        return Failure(Crashed);
      }
      if !inNat {
        if e.value == Node.List([]) {
          return Success([]);
        }
        return Failure(Unmodelled);
      }
      ghost var ctx := Context(lib);
      ghost var rule := x => ProcessNat(ctx, x);
      if !e.value.List? {
        var one := ProcessNatEntry(lib, e.value, rule);
        if one.Failure? {
          return Failure(one.error);
        }
        return Success([one.value]);
      }
      r := ProcessNatEntries(lib, e.value.elems, rule);
    }

    /** The loop of `build_garp_commands` over a list of NAT rules. */
    method ProcessNatEntries<N>(lib: Calc<N>, es: seq<Node>, ghost rule: Node -> Outcome<NatResult>) returns (r: Result<seq<NatResult>, Halt>)
      requires Specifies(rule, Context(lib))
      modifies this
      ensures var o := RunWith(rule, es);
              r == o.result && reviewNats == old(reviewNats) + o.notes && ipToEth == old(ipToEth)
              && addressObjects == Normalised(old(addressObjects), o.looked)
    {
      ghost var ctx := Context(lib);
      ghost var run := RunWith(rule, es[..0]);
      var results: seq<NatResult> := [];
      var i := 0;
      while i < |es|
        invariant 0 <= i <= |es| && run == RunWith(rule, es[..i]) && run.result == Success(results)
        invariant reviewNats == old(reviewNats) + run.notes && ipToEth == ctx.table
        invariant addressObjects == Normalised(old(addressObjects), run.looked)
      {
        assert es[..i + 1][..i] == es[..i];
        var one := ProcessNatEntry(lib, es[i], rule);
        run := RunWith(rule, es[..i + 1]);
        if one.Failure? {
          RunHaltStays(rule, es, i + 1, |es|);
          assert es[..|es|] == es;
          return Failure(one.error);
        }
        results := results + [one.value];
        i := i + 1;
      }
      assert es[..|es|] == es;
      r := Success(results);
    }
  }
}
