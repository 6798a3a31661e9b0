/** The list of generated rules as a table: at most one entry for each port pair, and when it expires. */
module FlowTable {
  import opened Options
  import opened FirewallRules

  predicate IsFlowEntry(e: Entry) {
    IsFlow(e.rule) && e.expires.Some?
  }

  /** Every entry is a generated rule with an armed timer, and no two entries have the same port pair. */
  ghost predicate Table(list: seq<Entry>) {
    && (forall i :: 0 <= i < |list| ==> IsFlowEntry(list[i]))
    && forall i, j :: 0 <= i < j < |list| ==> Ports(list[i].rule) != Ports(list[j].rule)
  }

  /** When the entry of a port pair expires, if there is one */
  function Deadline(list: seq<Entry>, ports: PortPair): Option<nat> {
    if list == [] then None
    else if Ports(list[0].rule) == ports then list[0].expires
    else Deadline(list[1..], ports)
  }

  function Rearm(list: seq<Entry>, i: nat, expires: nat): seq<Entry>
    requires i < |list|
  {
    list[i := list[i].(expires := Some(expires))]
  }

  /** Re-arms the entry a generated rule matches, or adds an entry for it at the head */
  function Refresh(list: seq<Entry>, rule: Rule, expires: nat): seq<Entry> {
    var found := FirstMatch(rule, list);
    if found.Some? then Rearm(list, found.value, expires) else [Entry(rule, Some(expires))] + list
  }

  lemma TailIsTable(list: seq<Entry>)
    requires Table(list) && list != []
    ensures Table(list[1..])
  {}

  /** An entry anywhere in the table is the one its port pair is looked up by. */
  lemma {:induction false} DeadlineAt(list: seq<Entry>, i: nat)
    requires Table(list) && i < |list|
    ensures Deadline(list, Ports(list[i].rule)) == list[i].expires
  {
    if i > 0 {
      TailIsTable(list);
      DeadlineAt(list[1..], i - 1);
    }
  }

  lemma {:induction false} NoDeadline(list: seq<Entry>, ports: PortPair)
    requires forall i :: 0 <= i < |list| ==> Ports(list[i].rule) != ports
    ensures Deadline(list, ports) == None
  {
    if list != [] {
      NoDeadline(list[1..], ports);
    }
  }

  /** Searching the table for a generated rule finds the entry of its port pair, or there is none. */
  lemma SearchFindsPorts(list: seq<Entry>, rule: Rule)
    requires Table(list) && IsFlow(rule)
    ensures FirstMatch(rule, list).Some? <==> Deadline(list, Ports(rule)).Some?
    ensures FirstMatch(rule, list).Some? ==>
              var i := FirstMatch(rule, list).value;
              Ports(list[i].rule) == Ports(rule) && Deadline(list, Ports(rule)) == list[i].expires
  {
    var found := FirstMatch(rule, list);
    forall i | 0 <= i < |list| ensures Matches(rule, list[i].rule) <==> Ports(list[i].rule) == Ports(rule) {
      assert IsFlowEntry(list[i]);
      FlowMatch(rule, list[i].rule);
    }
    if found.Some? {
      assert IsFlowEntry(list[found.value]);
      DeadlineAt(list, found.value);
    } else {
      NoDeadline(list, Ports(rule));
    }
  }

  lemma {:induction false} RearmDeadline(list: seq<Entry>, i: nat, expires: nat, ports: PortPair)
    requires Table(list) && i < |list|
    ensures Table(Rearm(list, i, expires))
    ensures Deadline(Rearm(list, i, expires), ports)
         == if ports == Ports(list[i].rule) then Some(expires) else Deadline(list, ports)
  {
    var after := Rearm(list, i, expires);
    forall k | 0 <= k < |after| ensures IsFlowEntry(after[k]) && after[k].rule == list[k].rule {
      assert IsFlowEntry(list[k]);
    }
    if i > 0 {
      TailIsTable(list);
      RearmDeadline(list[1..], i - 1, expires, ports);
      assert after[1..] == Rearm(list[1..], i - 1, expires);
      assert Ports(list[0].rule) != Ports(list[i].rule);
    }
  }

  lemma AddedDeadline(list: seq<Entry>, e: Entry, ports: PortPair)
    requires Table(list) && IsFlowEntry(e) && Deadline(list, Ports(e.rule)).None?
    ensures Table([e] + list)
    ensures Deadline([e] + list, ports) == if ports == Ports(e.rule) then e.expires else Deadline(list, ports)
  {
    var after := [e] + list;
    assert after[1..] == list;
    forall i | 0 < i < |after| ensures IsFlowEntry(after[i]) && Ports(after[i].rule) != Ports(e.rule) {
      assert after[i] == list[i - 1] && IsFlowEntry(list[i - 1]);
      DeadlineAt(list, i - 1);
    }
    forall i, j | 0 <= i < j < |after| ensures Ports(after[i].rule) != Ports(after[j].rule) {
      if i > 0 {
        assert after[i] == list[i - 1] && after[j] == list[j - 1];
      }
    }
  }

  /** Refreshing a flow sets the deadline of its port pair and of no other, and the table stays one entry
      to a port pair. */
  lemma RefreshSets(list: seq<Entry>, rule: Rule, expires: nat, ports: PortPair)
    requires Table(list) && IsFlow(rule)
    ensures Table(Refresh(list, rule, expires))
    ensures Deadline(Refresh(list, rule, expires), ports)
         == if ports == Ports(rule) then Some(expires) else Deadline(list, ports)
  {
    SearchFindsPorts(list, rule);
    var found := FirstMatch(rule, list);
    if found.Some? {
      RearmDeadline(list, found.value, expires, ports);
    } else {
      AddedDeadline(list, Entry(rule, Some(expires)), ports);
    }
  }

  /** Expiry removes the overdue deadlines and keeps every other. */
  lemma {:induction false} LiveDeadline(list: seq<Entry>, now: nat, ports: PortPair)
    requires Table(list)
    ensures Table(Live(list, now))
    ensures Deadline(Live(list, now), ports)
         == var d := Deadline(list, ports); if d.Some? && d.value <= now then None else d
  {
    if list != [] {
      TailIsTable(list);
      LiveDeadline(list[1..], now, ports);
      var rest := Live(list[1..], now);
      assert IsFlowEntry(list[0]);
      if Expired(list[0], now) {
        if Ports(list[0].rule) == ports {
          NoDeadline(list[1..], ports);
        }
      } else {
        LiveTable(list, rest, now);
        assert ([list[0]] + rest)[1..] == rest;
      }
    }
  }

  lemma LiveTable(list: seq<Entry>, rest: seq<Entry>, now: nat)
    requires Table(list) && list != [] && rest == Live(list[1..], now) && Table(rest)
    ensures Table([list[0]] + rest)
  {
    assert IsFlowEntry(list[0]);
    var after := [list[0]] + rest;
    forall i | 0 < i < |after| ensures IsFlowEntry(after[i]) && Ports(after[i].rule) != Ports(list[0].rule) {
      assert after[i] == rest[i - 1] && after[i] in rest;
      var k :| 0 <= k < |list[1..]| && list[1..][k] == after[i];
      assert list[k + 1] == after[i];
    }
    forall i, j | 0 <= i < j < |after| ensures Ports(after[i].rule) != Ports(after[j].rule) {
      if i > 0 {
        assert after[i] == rest[i - 1] && after[j] == rest[j - 1];
      }
    }
  }
}
