/**
 * Fleet-wide MAC endpoint resolution (day2/day2.py).
 *
 * Three passes over the parsed output of every switch fill a registry keyed by MAC address:
 * up/up SVI interfaces become endpoints directly, the switchport table gives each switch its
 * tuple of static-access ports, and every non-STATIC MAC-table entry learned on one of those
 * ports becomes an endpoint.  A later write for a MAC replaces the earlier one.
 *
 * The parsed command output arrives here as plain records with every field present; the
 * results of one query are a sequence of (switch, records) pairs in the order the switches
 * were reported.
 */
module Endpoints {
  import opened Wrappers
  import opened Text

  /** Where a MAC address lives: the switch, the port (or "SVI") and the VLAN (or the SVI's name). */
  datatype EndPoint = EndPoint(switch: string, port: string, vlan: string, mac: string)

  /** `EndPoint.__str__`: "<mac> on <switch>.<port> vlan-<vlan>". */
  function Render(e: EndPoint): (r: string)
    ensures e.mac + " on " + e.switch + "." + e.port <= r
    ensures EndsWith(r, " vlan-" + e.vlan)
    ensures |r| == |e.mac| + |e.switch| + |e.port| + |e.vlan| + 11
  {
    e.mac + " on " + e.switch + "." + e.port + " vlan-" + e.vlan
  }

  /** The answer of `EndPoint.get`: the endpoint itself, or the message naming the MAC. */
  datatype LookupResult = Found(endpoint: EndPoint) | NotFound(message: string)

  /** `EndPoint.get` over the registry's dictionary: never fails. */
  function Lookup(entries: map<string, EndPoint>, mac: string): (r: LookupResult)
    ensures r.Found? <==> mac in entries
    ensures r.Found? ==> r.endpoint == entries[mac]
    ensures r.NotFound? ==> r.message == mac + " doesn't exist on LAN"
  {
    if mac in entries then Found(entries[mac]) else NotFound(mac + " doesn't exist on LAN")
  }

  /**
   * The value of the registry: the dictionary and the order in which its keys were first
   * inserted (a Python dict iterates in that order; re-assigning a key keeps its place).
   */
  datatype Store = Store(entries: map<string, EndPoint>, order: seq<string>)

  const Empty := Store(map[], [])

  /** The order lists every key exactly once. */
  predicate WellFormed(st: Store) {
    && (forall i | 0 <= i < |st.order| :: st.order[i] in st.entries)
    && (forall k | k in st.entries :: k in st.order)
    && (forall i, j | 0 <= i < j < |st.order| :: st.order[i] != st.order[j])
  }

  /** `EndPoint.add`: unconditional upsert keyed by the endpoint's MAC. */
  function Insert(st: Store, e: EndPoint): (r: Store)
    ensures Lookup(r.entries, e.mac) == Found(e)
    ensures forall k | k != e.mac :: Lookup(r.entries, k) == Lookup(st.entries, k)
    ensures st.order <= r.order && |r.order| <= |st.order| + 1
    ensures e.mac !in st.entries ==> r.order == st.order + [e.mac]
    ensures e.mac in st.entries ==> r.order == st.order
    ensures WellFormed(st) ==> WellFormed(r)
  {
    Store(st.entries[e.mac := e], if e.mac in st.entries then st.order else st.order + [e.mac])
  }

  /** A sequence of `EndPoint.add` calls, first to last. */
  function InsertAll(st: Store, eps: seq<EndPoint>): Store
  {
    if eps == [] then st else Insert(InsertAll(st, eps[..|eps| - 1]), eps[|eps| - 1])
  }

  /** The last endpoint in `eps` whose MAC is `mac`, if any. */
  function LastWriter(eps: seq<EndPoint>, mac: string): Option<EndPoint>
  {
    if eps == [] then None
    else if eps[|eps| - 1].mac == mac then Some(eps[|eps| - 1])
    else LastWriter(eps[..|eps| - 1], mac)
  }

  lemma {:induction false} InsertAllWellFormed(st: Store, eps: seq<EndPoint>)
    ensures WellFormed(st) ==> WellFormed(InsertAll(st, eps))
  {
    if eps != [] {
      InsertAllWellFormed(st, eps[..|eps| - 1]);
    }
  }

  /** After a run of adds, a key holds its last writer, or what it held before if nobody wrote it. */
  lemma {:induction false} InsertAllLookup(st: Store, eps: seq<EndPoint>, mac: string)
    ensures Lookup(InsertAll(st, eps).entries, mac)
         == match LastWriter(eps, mac)
            case Some(e) => Found(e)
            case None => Lookup(st.entries, mac)
  {
    if eps != [] {
      InsertAllLookup(st, eps[..|eps| - 1], mac);
    }
  }

  lemma {:induction false} LastWriterAt(eps: seq<EndPoint>, i: int)
    requires 0 <= i < |eps|
    requires forall j | i < j < |eps| :: eps[j].mac != eps[i].mac
    ensures LastWriter(eps, eps[i].mac) == Some(eps[i])
  {
    if i < |eps| - 1 {
      var front := eps[..|eps| - 1];
      assert forall j | i < j < |front| :: front[j] == eps[j];
      LastWriterAt(front, i);
    }
  }

  lemma {:induction false} LastWriterNone(eps: seq<EndPoint>, mac: string)
    requires forall j | 0 <= j < |eps| :: eps[j].mac != mac
    ensures LastWriter(eps, mac) == None
  {
    if eps != [] {
      LastWriterNone(eps[..|eps| - 1], mac);
    }
  }

  /** Last writer wins: an add that no later add of the same MAC follows is what `get` returns. */
  lemma LastWriterWins(st: Store, eps: seq<EndPoint>, i: int)
    requires 0 <= i < |eps|
    requires forall j | i < j < |eps| :: eps[j].mac != eps[i].mac
    ensures Lookup(InsertAll(st, eps).entries, eps[i].mac) == Found(eps[i])
  {
    LastWriterAt(eps, i);
    InsertAllLookup(st, eps, eps[i].mac);
  }

  /** A MAC that no add names keeps whatever `get` answered before. */
  lemma Untouched(st: Store, eps: seq<EndPoint>, mac: string)
    requires forall j | 0 <= j < |eps| :: eps[j].mac != mac
    ensures Lookup(InsertAll(st, eps).entries, mac) == Lookup(st.entries, mac)
  {
    LastWriterNone(eps, mac);
    InsertAllLookup(st, eps, mac);
  }

  lemma {:induction false} InsertAllConcat(st: Store, a: seq<EndPoint>, b: seq<EndPoint>)
    ensures InsertAll(st, a + b) == InsertAll(InsertAll(st, a), b)
  {
    if b == [] {
      assert a + b == a;
    } else {
      assert (a + b)[..|a + b| - 1] == a + b[..|b| - 1];
      InsertAllConcat(st, a, b[..|b| - 1]);
    }
  }

  /** Adds of keys that are already present never move them in the iteration order. */
  lemma {:induction false} InsertAllPresentKeepsOrder(st: Store, eps: seq<EndPoint>)
    requires forall j | 0 <= j < |eps| :: eps[j].mac in st.entries
    ensures InsertAll(st, eps).order == st.order
    ensures InsertAll(st, eps).entries.Keys == st.entries.Keys
  {
    if eps != [] {
      InsertAllPresentKeepsOrder(st, eps[..|eps| - 1]);
    }
  }

  /** Every MAC that was added is a key afterwards. */
  lemma {:induction false} InsertAllCovers(st: Store, eps: seq<EndPoint>)
    ensures forall j | 0 <= j < |eps| :: eps[j].mac in InsertAll(st, eps).entries
  {
    if eps != [] {
      var front := eps[..|eps| - 1];
      InsertAllCovers(st, front);
      var prior := InsertAll(st, front);
      forall j | 0 <= j < |front| ensures eps[j].mac in InsertAll(st, eps).entries {
        assert front[j] == eps[j];
        assert Lookup(prior.entries, eps[j].mac).Found?;
      }
    }
  }

  /** Replaying the same adds a second time changes nothing. */
  lemma InsertAllIdempotent(st: Store, eps: seq<EndPoint>)
    ensures InsertAll(InsertAll(st, eps), eps) == InsertAll(st, eps)
  {
    var once := InsertAll(st, eps);
    var twice := InsertAll(once, eps);
    InsertAllCovers(st, eps);
    InsertAllPresentKeepsOrder(once, eps);
    forall mac | mac in once.entries ensures twice.entries[mac] == once.entries[mac] {
      InsertAllLookup(once, eps, mac);
      InsertAllLookup(st, eps, mac);
    }
    assert twice.entries == once.entries;
  }

  /** Adds never remove a key, nor move one that is already listed. */
  lemma {:induction false} InsertAllGrows(st: Store, eps: seq<EndPoint>)
    ensures st.order <= InsertAll(st, eps).order
    ensures st.entries.Keys <= InsertAll(st, eps).entries.Keys
  {
    if eps != [] {
      InsertAllGrows(st, eps[..|eps| - 1]);
    }
  }

  lemma InsertAllSnoc(st: Store, eps: seq<EndPoint>, e: EndPoint)
    ensures InsertAll(st, eps + [e]) == Insert(InsertAll(st, eps), e)
  {
    assert (eps + [e])[..|eps|] == eps;
  }

  /** `EndPoint.end_points` together with the iteration order of the dictionary. */
  class Registry {
    var entries: map<string, EndPoint>
    var order: seq<string>

    function State(): Store
      reads this
    {
      Store(entries, order)
    }

    /** The dictionary order lists every key once. */
    ghost predicate Valid()
      reads this
    {
      WellFormed(State())
    }

    constructor ()
      ensures Valid() && State() == Empty
    {
      entries := map[];
      order := [];
    }

    /** `EndPoint.add`. */
    method Add(e: EndPoint)
      modifies this
      ensures old(Valid()) ==> Valid()
      ensures State() == Insert(old(State()), e)
    {
      if e.mac !in entries {
        order := order + [e.mac];
      }
      entries := entries[e.mac := e];
    }

    /** `EndPoint.print_all`: the rendering of every endpoint, one line each, in dictionary order. */
    method PrintAll() returns (lines: seq<string>)
      requires Valid()
      ensures |lines| == |order|
      ensures forall i | 0 <= i < |order| :: order[i] in entries && lines[i] == Render(entries[order[i]])
    {
      lines := [];
      for i := 0 to |order|
        invariant |lines| == i
        invariant forall k | 0 <= k < i :: lines[k] == Render(entries[order[k]])
      {
        lines := lines + [Render(entries[order[i]])];
      }
    }

    // -----------------------------------------------------------------------------------------
    // build_endpoints

    /** First pass: every up/up EtherSVI interface is added as an endpoint. */
    method AddSviEndpoints(ifaces: seq<SwitchOutput<InterfaceRecord>>)
      modifies this
      ensures State() == InsertAll(old(State()), SviEndpoints(ifaces))
    {
      for s := 0 to |ifaces|
        invariant State() == InsertAll(old(State()), SviEndpoints(ifaces[..s]))
      {
        var out := ifaces[s];
        AddSwitchSvis(out.switch, out.records);
        assert ifaces[..s + 1][..s] == ifaces[..s];
        InsertAllConcat(old(State()), SviEndpoints(ifaces[..s]), SwitchSvis(out.switch, out.records));
      }
      assert ifaces[..|ifaces|] == ifaces;
    }

    /** The first pass over the interfaces of one switch. */
    method AddSwitchSvis(switch: string, recs: seq<InterfaceRecord>)
      modifies this
      ensures State() == InsertAll(old(State()), SwitchSvis(switch, recs))
    {
      for i := 0 to |recs|
        invariant State() == InsertAll(old(State()), SwitchSvis(switch, recs[..i]))
      {
        var iface := recs[i];
        assert recs[..i + 1] == recs[..i] + [iface];
        SwitchSvisSnoc(switch, recs[..i], iface);
        if iface.linkStatus != "up" || iface.protocolStatus != "up" {
          assert SwitchSvis(switch, recs[..i + 1]) == SwitchSvis(switch, recs[..i]);
          continue;
        }
        if iface.hardwareType == "EtherSVI" {
          var e := EndPoint(switch, "SVI", iface.interface, iface.address);
          assert SwitchSvis(switch, recs[..i + 1]) == SwitchSvis(switch, recs[..i]) + [e];
          InsertAllSnoc(old(State()), SwitchSvis(switch, recs[..i]), e);
          Add(e);
          assert State() == InsertAll(old(State()), SwitchSvis(switch, recs[..i + 1]));
          continue;
        }
        assert SwitchSvis(switch, recs[..i + 1]) == SwitchSvis(switch, recs[..i]);
      }
      assert recs[..|recs|] == recs;
    }

    /**
     * Third pass: every non-STATIC MAC-table entry on a static-access port of its switch is
     * added.  Looking up the access tuple of a switch that the second pass never saw raises
     * KeyError; the call then stops with `ok` false, and the adds made before stay in place.
     */
    method AddMacEndpoints(tables: seq<SwitchOutput<MacRecord>>, access: map<string, seq<string>>)
      returns (ok: bool)
      modifies this
      ensures ok == MacJoin(tables, access).Joined?
      ensures State() == InsertAll(old(State()), MacJoin(tables, access).added)
    {
      for s := 0 to |tables|
        invariant MacJoin(tables[..s], access).Joined?
        invariant State() == InsertAll(old(State()), MacJoin(tables[..s], access).added)
      {
        var out := tables[s];
        assert tables[..s + 1][..s] == tables[..s];
        ghost var acc := MacJoin(tables[..s], access);
        for i := 0 to |out.records|
          invariant JoinEntries(acc, out.switch, out.records[..i], access).Joined?
          invariant State() == InsertAll(old(State()), JoinEntries(acc, out.switch, out.records[..i], access).added)
        {
          var entry := out.records[i];
          assert out.records[..i + 1][..i] == out.records[..i];
          if entry.kind == "STATIC" {
            continue;
          }
          if out.switch !in access {
            MissingSwitchSticks(tables, access, s + 1, out.switch, out.records[..i + 1]);
            assert out.records[..i + 1] + out.records[i + 1..] == out.records;
            JoinEntriesMissingSticks(acc, out.switch, out.records[..i + 1], out.records[i + 1..], access);
            ok := false;
            return;
          }
          if entry.destinationPort in access[out.switch] {
            var e := EndPoint(out.switch, entry.destinationPort, entry.vlan, entry.destinationAddress);
            InsertAllSnoc(old(State()), JoinEntries(acc, out.switch, out.records[..i], access).added, e);
            Add(e);
          }
        }
        assert out.records[..|out.records|] == out.records;
      }
      assert tables[..|tables|] == tables;
      ok := true;
    }

    /**
     * `build_endpoints`: the three passes in order.  `ok` is false when the third pass raised
     * KeyError; the registry then holds everything added up to that entry.
     */
    method BuildEndpoints(ifaces: seq<SwitchOutput<InterfaceRecord>>,
                          switchports: seq<SwitchOutput<SwitchportRecord>>,
                          tables: seq<SwitchOutput<MacRecord>>)
      returns (ok: bool)
      requires Valid()
      modifies this
      ensures Valid()
      ensures Correlate(old(State()), ifaces, switchports, tables) == Outcome(State(), ok)
    {
      ghost var before := State();
      AddSviEndpoints(ifaces);
      var access := AccessPorts(switchports);
      ok := AddMacEndpoints(tables, access);
      assert WellFormed(Correlate(before, ifaces, switchports, tables).store);
    }
  }

  // ---------------------------------------------------------------------------------------------
  // The parsed command output

  /** One row of `show interfaces`. */
  datatype InterfaceRecord = InterfaceRecord(interface: string, linkStatus: string, protocolStatus: string,
                                             hardwareType: string, address: string)

  /** One row of `show interfaces switchport`. */
  datatype SwitchportRecord = SwitchportRecord(interface: string, mode: string, adminMode: string)

  /** One row of `show mac address-table`; `kind` is the template's `type` field. */
  datatype MacRecord = MacRecord(destinationAddress: string, kind: string, vlan: string, destinationPort: string)

  /** The parsed output of one query on one switch. */
  datatype SwitchOutput<R> = SwitchOutput(switch: string, records: seq<R>)

  /** The switches of one query's results; as keys of Nornir's result dictionary they are distinct. */
  predicate DistinctSwitches<R>(outs: seq<SwitchOutput<R>>) {
    forall s, t | 0 <= s < t < |outs| :: outs[s].switch != outs[t].switch
  }

  // ---------------------------------------------------------------------------------------------
  // First pass: SVI endpoints

  /** What one interface row contributes: an endpoint exactly for an up/up EtherSVI interface. */
  function SviEndpoint(switch: string, iface: InterfaceRecord): (r: Option<EndPoint>)
    ensures r.Some? <==> iface.linkStatus == "up" && iface.protocolStatus == "up" && iface.hardwareType == "EtherSVI"
    ensures r.Some? ==> r.value == EndPoint(switch, "SVI", iface.interface, iface.address)
  {
    if iface.linkStatus != "up" || iface.protocolStatus != "up" then None
    else if iface.hardwareType == "EtherSVI" then Some(EndPoint(switch, "SVI", iface.interface, iface.address))
    else None
  }

  /** The SVI endpoints of one switch, in record order. */
  function SwitchSvis(switch: string, recs: seq<InterfaceRecord>): seq<EndPoint>
  {
    if recs == [] then []
    else
      SwitchSvis(switch, recs[..|recs| - 1])
        + match SviEndpoint(switch, recs[|recs| - 1]) case Some(e) => [e] case None => []
  }

  /** The endpoints the first pass adds, in the order it adds them. */
  function SviEndpoints(ifaces: seq<SwitchOutput<InterfaceRecord>>): seq<EndPoint>
  {
    if ifaces == [] then []
    else SviEndpoints(ifaces[..|ifaces| - 1]) + SwitchSvis(ifaces[|ifaces| - 1].switch, ifaces[|ifaces| - 1].records)
  }

  lemma SwitchSvisSnoc(switch: string, recs: seq<InterfaceRecord>, r: InterfaceRecord)
    ensures SwitchSvis(switch, recs + [r])
         == SwitchSvis(switch, recs) + match SviEndpoint(switch, r) case Some(e) => [e] case None => []
  {
    assert (recs + [r])[..|recs|] == recs;
  }

  lemma {:induction false} SwitchSvisMembers(switch: string, recs: seq<InterfaceRecord>, e: EndPoint)
    ensures e in SwitchSvis(switch, recs) <==> exists i | 0 <= i < |recs| :: SviEndpoint(switch, recs[i]) == Some(e)
  {
    if recs != [] {
      var front := recs[..|recs| - 1];
      SwitchSvisMembers(switch, front, e);
      assert forall i | 0 <= i < |front| :: front[i] == recs[i];
    }
  }

  /** The first pass adds exactly the SVI endpoints of the switches, each switch's own list. */
  lemma {:induction false} SviEndpointsBySwitch(ifaces: seq<SwitchOutput<InterfaceRecord>>, e: EndPoint)
    ensures e in SviEndpoints(ifaces) <==>
            exists s | 0 <= s < |ifaces| :: e in SwitchSvis(ifaces[s].switch, ifaces[s].records)
  {
    if ifaces != [] {
      var front := ifaces[..|ifaces| - 1];
      SviEndpointsBySwitch(front, e);
      assert forall s | 0 <= s < |front| :: front[s] == ifaces[s];
    }
  }

  /**
   * The first pass adds exactly the endpoints that some interface row of some switch yields
   * (by SviEndpoint: an up/up EtherSVI row, as (switch, "SVI", interface, address)).
   */
  lemma SviEndpointsMembers(ifaces: seq<SwitchOutput<InterfaceRecord>>, e: EndPoint)
    ensures e in SviEndpoints(ifaces) <==>
            exists s, i | 0 <= s < |ifaces| && 0 <= i < |ifaces[s].records| ::
              SviEndpoint(ifaces[s].switch, ifaces[s].records[i]) == Some(e)
  {
    SviEndpointsBySwitch(ifaces, e);
    forall s | 0 <= s < |ifaces|
      ensures e in SwitchSvis(ifaces[s].switch, ifaces[s].records) <==>
              exists i | 0 <= i < |ifaces[s].records| :: SviEndpoint(ifaces[s].switch, ifaces[s].records[i]) == Some(e)
    {
      SwitchSvisMembers(ifaces[s].switch, ifaces[s].records, e);
    }
  }

  // ---------------------------------------------------------------------------------------------
  // Second pass: static-access ports

  /** A switchport row names an access port when its mode is not "down" and its admin mode is exactly "static access". */
  predicate IsAccessPort(r: SwitchportRecord) {
    r.mode != "down" && r.adminMode == "static access"
  }

  /** One switch's tuple of access ports, built by appending in record order. */
  function AccessTuple(recs: seq<SwitchportRecord>): seq<string>
  {
    if recs == [] then []
    else
      AccessTuple(recs[..|recs| - 1])
        + if IsAccessPort(recs[|recs| - 1]) then [recs[|recs| - 1].interface] else []
  }

  lemma AccessTupleSnoc(recs: seq<SwitchportRecord>, r: SwitchportRecord)
    ensures AccessTuple(recs + [r]) == AccessTuple(recs) + if IsAccessPort(r) then [r.interface] else []
  {
    assert (recs + [r])[..|recs|] == recs;
  }

  /** A port is in the tuple iff some row for it is an access port. */
  lemma {:induction false} AccessTupleMembers(recs: seq<SwitchportRecord>, port: string)
    ensures port in AccessTuple(recs) <==>
            exists i | 0 <= i < |recs| :: recs[i].interface == port && IsAccessPort(recs[i])
  {
    if recs != [] {
      var front := recs[..|recs| - 1];
      AccessTupleMembers(front, port);
      assert forall i | 0 <= i < |front| :: front[i] == recs[i];
    }
  }

  /** The tuple keeps record order: the ports of a longer table extend those of its first part. */
  lemma {:induction false} AccessTupleConcat(a: seq<SwitchportRecord>, b: seq<SwitchportRecord>)
    ensures AccessTuple(a + b) == AccessTuple(a) + AccessTuple(b)
  {
    if b == [] {
      assert a + b == a;
    } else {
      assert (a + b)[..|a + b| - 1] == a + b[..|b| - 1];
      AccessTupleConcat(a, b[..|b| - 1]);
    }
  }

  /** `sw_access_ports` after the second pass: every reported switch has an entry, possibly empty. */
  function AccessMap(switchports: seq<SwitchOutput<SwitchportRecord>>): map<string, seq<string>>
  {
    if switchports == [] then map[]
    else
      var last := switchports[|switchports| - 1];
      AccessMap(switchports[..|switchports| - 1])[last.switch := AccessTuple(last.records)]
  }

  /** The keys of `sw_access_ports` are exactly the switches of the switchport results. */
  lemma {:induction false} AccessMapKeys(switchports: seq<SwitchOutput<SwitchportRecord>>, sw: string)
    ensures sw in AccessMap(switchports) <==> exists s | 0 <= s < |switchports| :: switchports[s].switch == sw
  {
    if switchports != [] {
      var front := switchports[..|switchports| - 1];
      AccessMapKeys(front, sw);
      assert forall s | 0 <= s < |front| :: front[s] == switchports[s];
    }
  }

  /** With distinct switches, each switch's entry is exactly the access tuple of its own rows. */
  lemma {:induction false} AccessMapAt(switchports: seq<SwitchOutput<SwitchportRecord>>, s: int)
    requires DistinctSwitches(switchports)
    requires 0 <= s < |switchports|
    ensures switchports[s].switch in AccessMap(switchports)
    ensures AccessMap(switchports)[switchports[s].switch] == AccessTuple(switchports[s].records)
  {
    if s < |switchports| - 1 {
      var front := switchports[..|switchports| - 1];
      assert front[s] == switchports[s];
      AccessMapAt(front, s);
    }
  }

  /** The second pass of `build_endpoints`, building each tuple by repeated concatenation. */
  method AccessPorts(switchports: seq<SwitchOutput<SwitchportRecord>>) returns (access: map<string, seq<string>>)
    ensures access == AccessMap(switchports)
  {
    access := map[];
    for s := 0 to |switchports|
      invariant access == AccessMap(switchports[..s])
    {
      var out := switchports[s];
      assert switchports[..s + 1][..s] == switchports[..s];
      ghost var prior := access;
      access := access[out.switch := []];
      for i := 0 to |out.records|
        invariant access == prior[out.switch := AccessTuple(out.records[..i])]
      {
        var entry := out.records[i];
        assert out.records[..i + 1] == out.records[..i] + [entry];
        AccessTupleSnoc(out.records[..i], entry);
        if entry.mode == "down" {
          assert AccessTuple(out.records[..i + 1]) == AccessTuple(out.records[..i]);
          continue;
        }
        if entry.adminMode == "static access" {
          access := access[out.switch := access[out.switch] + [entry.interface]];
          assert access == prior[out.switch := AccessTuple(out.records[..i + 1])];
        } else {
          assert AccessTuple(out.records[..i + 1]) == AccessTuple(out.records[..i]);
        }
      }
      assert out.records[..|out.records|] == out.records;
    }
    assert switchports[..|switchports|] == switchports;
  }

  // ---------------------------------------------------------------------------------------------
  // Third pass: joining the MAC table against the access ports

  /** The endpoints added so far, and whether a KeyError on a switch stopped the pass. */
  datatype JoinResult = Joined(added: seq<EndPoint>) | MissingSwitch(added: seq<EndPoint>, switch: string)

  /** One MAC-table row of `switch`, after the rows before it gave `acc`. */
  function JoinStep(acc: JoinResult, switch: string, entry: MacRecord, access: map<string, seq<string>>): JoinResult
  {
    match acc
    case MissingSwitch(_, _) => acc
    case Joined(added) =>
      if entry.kind == "STATIC" then acc
      else if switch !in access then MissingSwitch(added, switch)
      else if entry.destinationPort in access[switch] then
        Joined(added + [EndPoint(switch, entry.destinationPort, entry.vlan, entry.destinationAddress)])
      else acc
  }

  /** The rows of one switch's MAC table, first to last. */
  function JoinEntries(acc: JoinResult, switch: string, recs: seq<MacRecord>, access: map<string, seq<string>>): JoinResult
  {
    if recs == [] then acc
    else JoinStep(JoinEntries(acc, switch, recs[..|recs| - 1], access), switch, recs[|recs| - 1], access)
  }

  /** The whole third pass. */
  function MacJoin(tables: seq<SwitchOutput<MacRecord>>, access: map<string, seq<string>>): JoinResult
  {
    if tables == [] then Joined([])
    else
      var last := tables[|tables| - 1];
      JoinEntries(MacJoin(tables[..|tables| - 1], access), last.switch, last.records, access)
  }

  /** A row that makes the pass raise and stop. */
  predicate RaisesKeyError(switch: string, entry: MacRecord, access: map<string, seq<string>>) {
    entry.kind != "STATIC" && switch !in access
  }

  /** A row the pass turns into an endpoint. */
  predicate Joins(switch: string, entry: MacRecord, access: map<string, seq<string>>) {
    entry.kind != "STATIC" && switch in access && entry.destinationPort in access[switch]
  }

  /** After a KeyError no row changes anything. */
  lemma {:induction false} JoinEntriesKeepsMissing(acc: JoinResult, switch: string, recs: seq<MacRecord>,
                                                   access: map<string, seq<string>>)
    ensures acc.MissingSwitch? ==> JoinEntries(acc, switch, recs, access) == acc
  {
    if recs != [] {
      JoinEntriesKeepsMissing(acc, switch, recs[..|recs| - 1], access);
    }
  }

  lemma {:induction false} JoinEntriesMissingSticks(acc: JoinResult, switch: string, a: seq<MacRecord>, b: seq<MacRecord>,
                                                    access: map<string, seq<string>>)
    requires JoinEntries(acc, switch, a, access).MissingSwitch?
    ensures JoinEntries(acc, switch, a + b, access) == JoinEntries(acc, switch, a, access)
  {
    if b == [] {
      assert a + b == a;
    } else {
      assert (a + b)[..|a + b| - 1] == a + b[..|b| - 1];
      JoinEntriesMissingSticks(acc, switch, a, b[..|b| - 1], access);
    }
  }

  lemma {:induction false} MacJoinMissingSticks(tables: seq<SwitchOutput<MacRecord>>, access: map<string, seq<string>>, n: int)
    requires 0 <= n <= |tables|
    requires MacJoin(tables[..n], access).MissingSwitch?
    ensures MacJoin(tables, access) == MacJoin(tables[..n], access)
  {
    if n < |tables| {
      var front := tables[..|tables| - 1];
      assert front[..n] == tables[..n];
      MacJoinMissingSticks(front, access, n);
      JoinEntriesKeepsMissing(MacJoin(front, access), tables[|tables| - 1].switch, tables[|tables| - 1].records, access);
    } else {
      assert tables[..n] == tables;
    }
  }

  /** Once the `n`-th table's rows `recs` (a prefix of them) raised, the whole pass ends as it did there. */
  lemma MissingSwitchSticks(tables: seq<SwitchOutput<MacRecord>>, access: map<string, seq<string>>, n: int,
                            switch: string, recs: seq<MacRecord>)
    requires 0 < n <= |tables| && switch == tables[n - 1].switch && recs <= tables[n - 1].records
    requires JoinEntries(MacJoin(tables[..n - 1], access), switch, recs, access).MissingSwitch?
    ensures MacJoin(tables, access) == JoinEntries(MacJoin(tables[..n - 1], access), switch, recs, access)
  {
    var all := tables[n - 1].records;
    assert recs + all[|recs|..] == all;
    JoinEntriesMissingSticks(MacJoin(tables[..n - 1], access), switch, recs, all[|recs|..], access);
    assert tables[..n][..n - 1] == tables[..n - 1];
    MacJoinMissingSticks(tables, access, n);
  }

  lemma {:induction false} JoinEntriesShape(acc: JoinResult, switch: string, recs: seq<MacRecord>, access: map<string, seq<string>>)
    requires acc.Joined?
    ensures JoinEntries(acc, switch, recs, access).MissingSwitch? <==>
            exists i | 0 <= i < |recs| :: RaisesKeyError(switch, recs[i], access)
    ensures JoinEntries(acc, switch, recs, access).MissingSwitch? ==> JoinEntries(acc, switch, recs, access).switch == switch
    ensures acc.added <= JoinEntries(acc, switch, recs, access).added
    ensures switch !in access ==> JoinEntries(acc, switch, recs, access).added == acc.added
    ensures JoinEntries(acc, switch, recs, access).Joined? ==>
            forall e :: e in JoinEntries(acc, switch, recs, access).added <==>
              (|| e in acc.added
               || exists i | 0 <= i < |recs| :: Joins(switch, recs[i], access) &&
                    e == EndPoint(switch, recs[i].destinationPort, recs[i].vlan, recs[i].destinationAddress))
  {
    if recs != [] {
      var front := recs[..|recs| - 1];
      JoinEntriesShape(acc, switch, front, access);
      assert forall i | 0 <= i < |front| :: front[i] == recs[i];
    }
  }

  /** The third pass raises KeyError iff some switch without an access tuple has a non-STATIC row. */
  lemma {:induction false} MacJoinKeyError(tables: seq<SwitchOutput<MacRecord>>, access: map<string, seq<string>>)
    ensures MacJoin(tables, access).MissingSwitch? <==>
            exists s, i | 0 <= s < |tables| && 0 <= i < |tables[s].records| ::
              RaisesKeyError(tables[s].switch, tables[s].records[i], access)
    ensures MacJoin(tables, access).MissingSwitch? ==> MacJoin(tables, access).switch !in access
  {
    if tables != [] {
      var front := tables[..|tables| - 1];
      var last := tables[|tables| - 1];
      MacJoinKeyError(front, access);
      assert forall s | 0 <= s < |front| :: front[s] == tables[s];
      JoinEntriesKeepsMissing(MacJoin(front, access), last.switch, last.records, access);
      if MacJoin(front, access).Joined? {
        JoinEntriesShape(MacJoin(front, access), last.switch, last.records, access);
      }
    }
  }

  /** What the first `n` tables added stays at the front of the pass's adds, KeyError or not. */
  lemma {:induction false} MacJoinKeepsEarlierAdds(tables: seq<SwitchOutput<MacRecord>>, access: map<string, seq<string>>, n: int)
    requires 0 <= n <= |tables|
    ensures MacJoin(tables[..n], access).added <= MacJoin(tables, access).added
  {
    if n < |tables| {
      var front := tables[..|tables| - 1];
      var last := tables[|tables| - 1];
      assert front[..n] == tables[..n];
      MacJoinKeepsEarlierAdds(front, access, n);
      JoinEntriesKeepsMissing(MacJoin(front, access), last.switch, last.records, access);
      if MacJoin(front, access).Joined? {
        JoinEntriesShape(MacJoin(front, access), last.switch, last.records, access);
      }
    } else {
      assert tables[..n] == tables;
    }
  }

  /**
   * When the pass completes, it has added an endpoint iff some switch has a non-STATIC row on one
   * of its access ports, and then it is (switch, destination port, vlan, destination address).
   */
  lemma {:induction false} MacJoinMembers(tables: seq<SwitchOutput<MacRecord>>, access: map<string, seq<string>>, e: EndPoint)
    requires MacJoin(tables, access).Joined?
    ensures e in MacJoin(tables, access).added <==>
            exists s, i | 0 <= s < |tables| && 0 <= i < |tables[s].records| ::
              && Joins(tables[s].switch, tables[s].records[i], access)
              && e == EndPoint(tables[s].switch, tables[s].records[i].destinationPort,
                               tables[s].records[i].vlan, tables[s].records[i].destinationAddress)
  {
    if tables != [] {
      var front := tables[..|tables| - 1];
      var last := tables[|tables| - 1];
      JoinEntriesKeepsMissing(MacJoin(front, access), last.switch, last.records, access);
      MacJoinMembers(front, access, e);
      JoinEntriesShape(MacJoin(front, access), last.switch, last.records, access);
      assert forall s | 0 <= s < |front| :: front[s] == tables[s];
    }
  }

  // ---------------------------------------------------------------------------------------------
  // The whole of build_endpoints

  /** The registry after `build_endpoints`, and whether it ran to the end (false: KeyError in the third pass). */
  datatype Outcome = Outcome(store: Store, completed: bool)

  function Correlate(st: Store, ifaces: seq<SwitchOutput<InterfaceRecord>>,
                     switchports: seq<SwitchOutput<SwitchportRecord>>,
                     tables: seq<SwitchOutput<MacRecord>>): (r: Outcome)
    ensures WellFormed(st) ==> WellFormed(r.store)
    ensures st.order <= r.store.order && st.entries.Keys <= r.store.entries.Keys
    ensures r.completed <==>
            forall s, i | 0 <= s < |tables| && 0 <= i < |tables[s].records| ::
              !RaisesKeyError(tables[s].switch, tables[s].records[i], AccessMap(switchports))
  {
    var join := MacJoin(tables, AccessMap(switchports));
    var svis := SviEndpoints(ifaces);
    InsertAllWellFormed(st, svis);
    InsertAllWellFormed(InsertAll(st, svis), join.added);
    InsertAllGrows(st, svis);
    InsertAllGrows(InsertAll(st, svis), join.added);
    MacJoinKeyError(tables, AccessMap(switchports));
    Outcome(InsertAll(InsertAll(st, SviEndpoints(ifaces)), join.added), join.Joined?)
  }

  /** Every switch with a MAC table also reported its switchports: the third pass then cannot raise. */
  lemma CorrelateCompletes(st: Store, ifaces: seq<SwitchOutput<InterfaceRecord>>,
                           switchports: seq<SwitchOutput<SwitchportRecord>>,
                           tables: seq<SwitchOutput<MacRecord>>)
    requires forall s | 0 <= s < |tables| :: exists t | 0 <= t < |switchports| :: switchports[t].switch == tables[s].switch
    ensures Correlate(st, ifaces, switchports, tables).completed
  {
    var access := AccessMap(switchports);
    forall s | 0 <= s < |tables| ensures tables[s].switch in access {
      AccessMapKeys(switchports, tables[s].switch);
    }
    MacJoinKeyError(tables, access);
  }

  /** Running the correlation again on the same input leaves the registry as it was. */
  lemma CorrelateIdempotent(st: Store, ifaces: seq<SwitchOutput<InterfaceRecord>>,
                            switchports: seq<SwitchOutput<SwitchportRecord>>,
                            tables: seq<SwitchOutput<MacRecord>>)
    ensures var once := Correlate(st, ifaces, switchports, tables);
            Correlate(once.store, ifaces, switchports, tables) == once
  {
    var svis := SviEndpoints(ifaces);
    var macs := MacJoin(tables, AccessMap(switchports)).added;
    InsertAllConcat(st, svis, macs);
    var once := InsertAll(st, svis + macs);
    InsertAllConcat(once, svis, macs);
    InsertAllIdempotent(st, svis + macs);
  }

  /**
   * What the build leaves for a MAC: the last endpoint the first and third passes added for
   * it, in that order (so a MAC-table endpoint replaces an SVI one), else its previous answer.
   */
  lemma CorrelateLookup(st: Store, ifaces: seq<SwitchOutput<InterfaceRecord>>,
                        switchports: seq<SwitchOutput<SwitchportRecord>>,
                        tables: seq<SwitchOutput<MacRecord>>, mac: string)
    ensures Lookup(Correlate(st, ifaces, switchports, tables).store.entries, mac) ==
            match LastWriter(SviEndpoints(ifaces) + MacJoin(tables, AccessMap(switchports)).added, mac)
            case Some(e) => Found(e)
            case None => Lookup(st.entries, mac)
  {
    var eps := SviEndpoints(ifaces) + MacJoin(tables, AccessMap(switchports)).added;
    InsertAllConcat(st, SviEndpoints(ifaces), MacJoin(tables, AccessMap(switchports)).added);
    InsertAllLookup(st, eps, mac);
  }

  /** On SW1 an up/up EtherSVI interface is registered on port "SVI"; one that is down is not. */
  lemma SviScenario()
    ensures var ifaces := [SwitchOutput("SW1", [InterfaceRecord("Vlan10", "up", "up", "EtherSVI", "aaaa.bbbb.cccc"),
                                                InterfaceRecord("Vlan20", "down", "down", "EtherSVI", "dddd.eeee.ffff")])];
            var r := Correlate(Empty, ifaces, [], []);
            && r.completed
            && Lookup(r.store.entries, "aaaa.bbbb.cccc") == Found(EndPoint("SW1", "SVI", "Vlan10", "aaaa.bbbb.cccc"))
            && Lookup(r.store.entries, "dddd.eeee.ffff").NotFound?
  {
    var up := InterfaceRecord("Vlan10", "up", "up", "EtherSVI", "aaaa.bbbb.cccc");
    var down := InterfaceRecord("Vlan20", "down", "down", "EtherSVI", "dddd.eeee.ffff");
    var e := EndPoint("SW1", "SVI", "Vlan10", "aaaa.bbbb.cccc");
    assert [up, down][..1] == [up];
    assert SwitchSvis("SW1", [up]) == [e];
    assert SwitchSvis("SW1", [up, down]) == [e];
    assert SviEndpoints([SwitchOutput("SW1", [up, down])]) == [e];
  }

  /**
   * On SW1 a DYNAMIC row on a static-access port resolves to that port and VLAN; a STATIC row
   * on the same port and a DYNAMIC row on a trunk port are not registered.
   */
  lemma AccessPortScenario()
    ensures var switchports := [SwitchOutput("SW1", [SwitchportRecord("Gi0/2", "up", "static access"),
                                                      SwitchportRecord("Gi0/3", "up", "trunk")])];
            var tables := [SwitchOutput("SW1", [MacRecord("1111.2222.3333", "DYNAMIC", "10", "Gi0/2"),
                                                MacRecord("4444.5555.6666", "STATIC", "10", "Gi0/2"),
                                                MacRecord("7777.8888.9999", "DYNAMIC", "10", "Gi0/3")])];
            var r := Correlate(Empty, [], switchports, tables);
            && r.completed
            && Lookup(r.store.entries, "1111.2222.3333") == Found(EndPoint("SW1", "Gi0/2", "10", "1111.2222.3333"))
            && Lookup(r.store.entries, "4444.5555.6666").NotFound?
            && Lookup(r.store.entries, "7777.8888.9999").NotFound?
  {
    var access1 := SwitchportRecord("Gi0/2", "up", "static access");
    var trunk := SwitchportRecord("Gi0/3", "up", "trunk");
    var dyn := MacRecord("1111.2222.3333", "DYNAMIC", "10", "Gi0/2");
    var st := MacRecord("4444.5555.6666", "STATIC", "10", "Gi0/2");
    var onTrunk := MacRecord("7777.8888.9999", "DYNAMIC", "10", "Gi0/3");
    var e := EndPoint("SW1", "Gi0/2", "10", "1111.2222.3333");
    assert [access1, trunk][..1] == [access1];
    assert AccessTuple([access1]) == ["Gi0/2"];
    assert AccessTuple([access1, trunk]) == ["Gi0/2"];
    var switchports := [SwitchOutput("SW1", [access1, trunk])];
    assert switchports[..0] == [];
    var access := AccessMap(switchports);
    assert access == AccessMap([])["SW1" := ["Gi0/2"]];
    assert "Gi0/3" !in access["SW1"];
    var rows := [dyn, st, onTrunk];
    assert rows[..1] == [dyn] && rows[..2] == [dyn, st] && [dyn, st][..1] == [dyn];
    assert JoinEntries(Joined([]), "SW1", [dyn], access) == Joined([e]);
    assert JoinEntries(Joined([]), "SW1", [dyn, st], access) == Joined([e]);
    assert JoinEntries(Joined([]), "SW1", rows, access) == Joined([e]);
    assert MacJoin([SwitchOutput("SW1", rows)], access) == Joined([e]);
  }
}
