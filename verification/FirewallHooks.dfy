/** The packet hooks over the rule lists, and what they accept over every run of packets, ticks and rules:
    the hooks agree with a specification that keeps no table and speaks of past packets only. */
module FirewallHooks {
  import opened Options
  import opened FirewallRules
  import opened FlowTable
  import opened AddressBits

  datatype Packet = Udp(saddr: bv32, daddr: bv32, source: Word16, dest: Word16) | OtherProtocol

  datatype Event = AddStatic(rule: Rule) | Outgoing(packet: Packet) | Incoming(packet: Packet) | Tick

  datatype Firewall = Firewall(hz: nat, jiffies: nat, statics: seq<Entry>, udp: seq<Entry>)

  /** The rule for an outgoing packet is that of the reply it waits for. */
  function OutRule(p: Packet): Rule
    requires p.Udp?
  {
    Rule(p.daddr, p.saddr, 0, 0, p.dest, p.dest, p.source, p.source)
  }

  function InRule(p: Packet): Rule
    requires p.Udp?
  {
    Rule(p.saddr, p.daddr, 0, 0, p.source, p.source, p.dest, p.dest)
  }

  // ------------------------------------------------ steps

  function Armed(f: Firewall): nat {
    f.jiffies + Timeout(f.hz)
  }

  function AddRule(f: Firewall, rule: Rule): Firewall {
    f.(statics := [Entry(rule, None)] + f.statics)
  }

  function OnOut(f: Firewall, p: Packet): Firewall {
    if p.Udp? then f.(udp := Refresh(f.udp, OutRule(p), Armed(f))) else f
  }

  predicate Accepts(f: Firewall, p: Packet) {
    p.Udp? ==> FirstMatch(InRule(p), f.statics).Some? || FirstMatch(InRule(p), f.udp).Some?
  }

  function OnIn(f: Firewall, p: Packet): Firewall {
    if p.Udp? && FirstMatch(InRule(p), f.statics).None? && FirstMatch(InRule(p), f.udp).Some?
    then f.(udp := Refresh(f.udp, InRule(p), Armed(f)))
    else f
  }

  function OnTick(f: Firewall): Firewall {
    f.(jiffies := f.jiffies + 1, udp := Live(f.udp, f.jiffies + 1))
  }

  function Step(f: Firewall, e: Event): Firewall {
    match e
    case AddStatic(rule) => AddRule(f, rule)
    case Outgoing(p) => OnOut(f, p)
    case Incoming(p) => OnIn(f, p)
    case Tick => OnTick(f)
  }

  /** The firewall after the first n events, loaded with empty lists at tick `boot` */
  function After(hz: nat, boot: nat, trace: seq<Event>, n: nat): Firewall
    requires n <= |trace|
  {
    if n == 0 then Firewall(hz, boot, [], []) else Step(After(hz, boot, trace, n - 1), trace[n - 1])
  }

  // ------------------------------------------------ what the hooks are for

  /** Ticks among the first n events */
  function Time(trace: seq<Event>, n: nat): nat
    requires n <= |trace|
  {
    if n == 0 then 0 else Time(trace, n - 1) + if trace[n - 1].Tick? then 1 else 0
  }

  /** The rule covers the packet's own addresses and ports. */
  predicate Admits(rule: Rule, p: Packet)
    requires p.Udp?
  {
    Covers(rule, p.saddr, p.daddr, p.source, p.dest)
  }

  lemma MatchIsAdmission(p: Packet, rule: Rule)
    requires p.Udp?
    ensures Matches(InRule(p), rule) <==> Admits(rule, p)
  {
    MatchesExactly(InRule(p), rule);
  }

  /** Of two packets, one of which a rule matches, the other is matched exactly when it differs in no bit that
      the rule masks and in no port that takes it out of a range; bits not masked make no difference. */
  lemma MasksDecide(rule: Rule, p: Packet, q: Packet)
    requires p.Udp? && q.Udp? && Matches(InRule(p), rule)
    ensures Matches(InRule(q), rule) <==>
              && Agree(p.saddr, q.saddr, rule.ipSrcMask) && Agree(p.daddr, q.daddr, rule.ipDstMask)
              && rule.portSrc0 <= q.source <= rule.portSrc1 && rule.portDst0 <= q.dest <= rule.portDst1
  {
    MatchIsAdmission(p, rule);
    MatchIsAdmission(q, rule);
  }

  /** Some static rule added before event n admits the packet. */
  ghost predicate StaticallyAccepted(trace: seq<Event>, n: nat, p: Packet)
    requires n <= |trace| && p.Udp?
  {
    exists k :: 0 <= k < n && trace[k].AddStatic? && Admits(trace[k].rule, p)
  }

  /** The port pair was used by some event before n, less than a lifetime ago. */
  ghost predicate RecentlyUsed(hz: nat, trace: seq<Event>, n: nat, ports: PortPair)
    requires n <= |trace|
    decreases n, 0
  {
    exists j :: 0 <= j < n && Uses(hz, trace, j, ports) && Time(trace, n) - Time(trace, j) < Lifetime(hz)
  }

  /** Event j uses a port pair: an outgoing packet uses the mirrored pair, and an incoming packet that no
      static rule accepts uses its own pair when that was recently used itself. */
  ghost predicate Uses(hz: nat, trace: seq<Event>, j: nat, ports: PortPair)
    requires j < |trace|
    decreases j, 1
  {
    match trace[j]
    case Outgoing(p) => p.Udp? && PortPair(p.dest, p.source) == ports
    case Incoming(p) =>
      p.Udp? && PortPair(p.source, p.dest) == ports &&
      !StaticallyAccepted(trace, j, p) && RecentlyUsed(hz, trace, j, ports)
    case _ => false
  }

  // ------------------------------------------------ the table records the recent uses

  /** A deadline stands for a recent use, and no recent use of the pair was later. */
  ghost predicate Records(hz: nat, boot: nat, trace: seq<Event>, n: nat, ports: PortPair, deadline: Option<nat>)
    requires n <= |trace|
  {
    && (deadline.None? ==> !RecentlyUsed(hz, trace, n, ports))
    && (deadline.Some? ==>
         && (exists j :: 0 <= j < n && Uses(hz, trace, j, ports)
                         && deadline.value == boot + Time(trace, j) + Timeout(hz))
         && boot + Time(trace, n) < deadline.value + Lifetime(hz) - Timeout(hz)
         && forall j :: 0 <= j < n && Uses(hz, trace, j, ports) ==>
              boot + Time(trace, j) + Timeout(hz) <= deadline.value)
  }

  ghost predicate Faithful(hz: nat, boot: nat, trace: seq<Event>, n: nat)
    requires n <= |trace|
  {
    var f := After(hz, boot, trace, n);
    && f.hz == hz && f.jiffies == boot + Time(trace, n) && Table(f.udp)
    && forall ports :: Records(hz, boot, trace, n, ports, Deadline(f.udp, ports))
  }

  /** Only the control interface changes the static list. */
  lemma OnlyRulesChangeStatics(f: Firewall, e: Event)
    requires !e.AddStatic?
    ensures Step(f, e).statics == f.statics
  {}

  ghost predicate Added(trace: seq<Event>, n: nat, rule: Rule)
    requires n <= |trace|
  {
    exists k :: 0 <= k < n && trace[k] == AddStatic(rule)
  }

  ghost predicate Listed(list: seq<Entry>, rule: Rule) {
    exists i :: 0 <= i < |list| && list[i].rule == rule
  }

  lemma ListedNext(f: Firewall, e: Event, rule: Rule)
    ensures Listed(Step(f, e).statics, rule) <==> Listed(f.statics, rule) || e == AddStatic(rule)
  {
    if e.AddStatic? {
      var list := [Entry(e.rule, None)] + f.statics;
      assert list[0].rule == e.rule && forall i :: 0 <= i < |f.statics| ==> list[i + 1] == f.statics[i];
    } else {
      OnlyRulesChangeStatics(f, e);
    }
  }

  lemma AddedNext(trace: seq<Event>, n: nat, rule: Rule)
    requires n < |trace|
    ensures Added(trace, n + 1, rule) <==> Added(trace, n, rule) || trace[n] == AddStatic(rule)
  {}

  /** The static list holds the rules added so far. */
  lemma {:induction false} ListedAreAdded(hz: nat, boot: nat, trace: seq<Event>, n: nat, rule: Rule)
    requires n <= |trace|
    ensures Listed(After(hz, boot, trace, n).statics, rule) <==> Added(trace, n, rule)
  {
    if n > 0 {
      ListedAreAdded(hz, boot, trace, n - 1, rule);
      ListedNext(After(hz, boot, trace, n - 1), trace[n - 1], rule);
      AddedNext(trace, n - 1, rule);
    }
  }

  lemma MatchedIsListed(rule: Rule, list: seq<Entry>)
    ensures FirstMatch(rule, list).Some? <==> exists r :: Listed(list, r) && Matches(rule, r)
  {
    var found := FirstMatch(rule, list);
    if found.Some? {
      assert Listed(list, list[found.value].rule);
    }
  }

  lemma AcceptedIsAdded(trace: seq<Event>, n: nat, p: Packet)
    requires n <= |trace| && p.Udp?
    ensures StaticallyAccepted(trace, n, p) <==> exists r :: Added(trace, n, r) && Admits(r, p)
  {
    if StaticallyAccepted(trace, n, p) {
      var k :| 0 <= k < n && trace[k].AddStatic? && Admits(trace[k].rule, p);
      assert Added(trace, n, trace[k].rule);
    }
  }

  /** A static rule in the list accepts a packet exactly when one of the rules added so far admits it. */
  lemma StaticsAreThoseAdded(hz: nat, boot: nat, trace: seq<Event>, n: nat, p: Packet)
    requires n <= |trace| && p.Udp?
    ensures FirstMatch(InRule(p), After(hz, boot, trace, n).statics).Some? <==> StaticallyAccepted(trace, n, p)
  {
    var list := After(hz, boot, trace, n).statics;
    MatchedIsListed(InRule(p), list);
    AcceptedIsAdded(trace, n, p);
    forall r ensures Listed(list, r) && Matches(InRule(p), r) <==> Added(trace, n, r) && Admits(r, p) {
      ListedAreAdded(hz, boot, trace, n, r);
      MatchIsAdmission(p, r);
    }
  }

  lemma {:induction false} TimeIsMonotone(trace: seq<Event>, j: nat, n: nat)
    requires j <= n <= |trace|
    ensures Time(trace, j) <= Time(trace, n)
  {
    if j < n {
      TimeIsMonotone(trace, j, n - 1);
    }
  }

  /** A recorded pair is one recently used, and the other way round. */
  lemma RecordedMeansRecent(hz: nat, boot: nat, trace: seq<Event>, n: nat, ports: PortPair, deadline: Option<nat>)
    requires n <= |trace| && Records(hz, boot, trace, n, ports, deadline)
    ensures deadline.Some? <==> RecentlyUsed(hz, trace, n, ports)
  {}

  /** An event that does not use the pair and takes no time leaves its record as it was. */
  lemma UnusedStaysRecorded(hz: nat, boot: nat, trace: seq<Event>, n: nat, ports: PortPair, deadline: Option<nat>)
    requires n < |trace| && !trace[n].Tick? && !Uses(hz, trace, n, ports)
    requires Records(hz, boot, trace, n, ports, deadline)
    ensures Records(hz, boot, trace, n + 1, ports, deadline)
  {}

  /** An event that uses the pair moves its deadline a whole timeout away. */
  lemma UsedIsRecorded(hz: nat, boot: nat, trace: seq<Event>, n: nat, ports: PortPair)
    requires n < |trace| && Uses(hz, trace, n, ports)
    ensures Records(hz, boot, trace, n + 1, ports, Some(boot + Time(trace, n) + Timeout(hz)))
  {
    assert !trace[n].Tick?;
    forall j | 0 <= j < n + 1 && Uses(hz, trace, j, ports) ensures Time(trace, j) <= Time(trace, n) {
      TimeIsMonotone(trace, j, n);
    }
  }

  /** A tick drops the record exactly when the pair stops being recently used. */
  lemma TickKeepsRecord(hz: nat, boot: nat, trace: seq<Event>, n: nat, ports: PortPair, d: Option<nat>)
    requires n < |trace| && trace[n].Tick?
    requires Records(hz, boot, trace, n, ports, d)
    ensures Records(hz, boot, trace, n + 1, ports,
                    if d.Some? && d.value <= boot + Time(trace, n + 1) then None else d)
  {
    assert !Uses(hz, trace, n, ports);
    forall j | 0 <= j < n + 1 ensures Time(trace, j) <= Time(trace, n) {
      TimeIsMonotone(trace, j, n);
    }
    if d.Some? && d.value > boot + Time(trace, n + 1) {
      LaterDeadlineStays(hz, boot, trace, n, ports, d.value);
    }
  }

  lemma LaterDeadlineStays(hz: nat, boot: nat, trace: seq<Event>, n: nat, ports: PortPair, d: nat)
    requires n < |trace| && trace[n].Tick? && boot + Time(trace, n + 1) < d
    requires Records(hz, boot, trace, n, ports, Some(d))
    ensures Records(hz, boot, trace, n + 1, ports, Some(d))
  {
    assert !Uses(hz, trace, n, ports);
    var j :| 0 <= j < n && Uses(hz, trace, j, ports) && d == boot + Time(trace, j) + Timeout(hz);
    assert 0 <= j < n + 1;
  }

  // ------------------------------------------------ the runs

  lemma OutgoingIsFaithful(hz: nat, boot: nat, trace: seq<Event>, n: nat)
    requires n < |trace| && trace[n].Outgoing? && Faithful(hz, boot, trace, n)
    ensures Faithful(hz, boot, trace, n + 1)
  {
    var p, f := trace[n].packet, After(hz, boot, trace, n);
    var after := After(hz, boot, trace, n + 1);
    if p.Udp? {
      RefreshSets(f.udp, OutRule(p), Armed(f), Ports(OutRule(p)));
    }
    forall ports ensures Records(hz, boot, trace, n + 1, ports, Deadline(after.udp, ports))
    {
      assert Records(hz, boot, trace, n, ports, Deadline(f.udp, ports));
      if p.Udp? {
        RefreshSets(f.udp, OutRule(p), Armed(f), ports);
      }
      if Uses(hz, trace, n, ports) {
        UsedIsRecorded(hz, boot, trace, n, ports);
      } else {
        UnusedStaysRecorded(hz, boot, trace, n, ports, Deadline(f.udp, ports));
      }
    }
  }

  /** An incoming packet no static rule accepts is accepted exactly when its port pair was recently used. */
  lemma TableDecides(hz: nat, boot: nat, trace: seq<Event>, n: nat, p: Packet)
    requires n <= |trace| && p.Udp? && Faithful(hz, boot, trace, n)
    ensures FirstMatch(InRule(p), After(hz, boot, trace, n).udp).Some? <==>
              RecentlyUsed(hz, trace, n, PortPair(p.source, p.dest))
  {
    var f, ports := After(hz, boot, trace, n), PortPair(p.source, p.dest);
    SearchFindsPorts(f.udp, InRule(p));
    assert Records(hz, boot, trace, n, ports, Deadline(f.udp, ports));
    RecordedMeansRecent(hz, boot, trace, n, ports, Deadline(f.udp, ports));
  }

  lemma IncomingIsFaithful(hz: nat, boot: nat, trace: seq<Event>, n: nat)
    requires n < |trace| && trace[n].Incoming? && Faithful(hz, boot, trace, n)
    ensures Faithful(hz, boot, trace, n + 1)
  {
    var p, f := trace[n].packet, After(hz, boot, trace, n);
    var after := After(hz, boot, trace, n + 1);
    if p.Udp? {
      StaticsAreThoseAdded(hz, boot, trace, n, p);
      TableDecides(hz, boot, trace, n, p);
      RefreshSets(f.udp, InRule(p), Armed(f), Ports(InRule(p)));
    }
    forall ports ensures Records(hz, boot, trace, n + 1, ports, Deadline(after.udp, ports))
    {
      assert Records(hz, boot, trace, n, ports, Deadline(f.udp, ports));
      if p.Udp? {
        RefreshSets(f.udp, InRule(p), Armed(f), ports);
      }
      if Uses(hz, trace, n, ports) {
        UsedIsRecorded(hz, boot, trace, n, ports);
      } else {
        UnusedStaysRecorded(hz, boot, trace, n, ports, Deadline(f.udp, ports));
      }
    }
  }

  lemma TickRecords(hz: nat, boot: nat, trace: seq<Event>, n: nat, f: Firewall, ports: PortPair)
    requires n < |trace| && trace[n].Tick? && f.jiffies == boot + Time(trace, n) && Table(f.udp)
    requires Records(hz, boot, trace, n, ports, Deadline(f.udp, ports))
    ensures Table(OnTick(f).udp) && Records(hz, boot, trace, n + 1, ports, Deadline(OnTick(f).udp, ports))
  {
    assert Time(trace, n + 1) == Time(trace, n) + 1;
    LiveDeadline(f.udp, f.jiffies + 1, ports);
    TickKeepsRecord(hz, boot, trace, n, ports, Deadline(f.udp, ports));
  }

  lemma TickIsFaithful(hz: nat, boot: nat, trace: seq<Event>, n: nat)
    requires n < |trace| && trace[n].Tick? && Faithful(hz, boot, trace, n)
    ensures Faithful(hz, boot, trace, n + 1)
  {
    var f, after := After(hz, boot, trace, n), After(hz, boot, trace, n + 1);
    LiveDeadline(f.udp, f.jiffies + 1, PortPair(0, 0));
    forall ports ensures Records(hz, boot, trace, n + 1, ports, Deadline(after.udp, ports)) {
      assert Records(hz, boot, trace, n, ports, Deadline(f.udp, ports));
      TickRecords(hz, boot, trace, n, f, ports);
    }
  }

  lemma RuleIsFaithful(hz: nat, boot: nat, trace: seq<Event>, n: nat)
    requires n < |trace| && trace[n].AddStatic? && Faithful(hz, boot, trace, n)
    ensures Faithful(hz, boot, trace, n + 1)
  {
    var f, after := After(hz, boot, trace, n), After(hz, boot, trace, n + 1);
    forall ports ensures Records(hz, boot, trace, n + 1, ports, Deadline(after.udp, ports)) {
      assert Records(hz, boot, trace, n, ports, Deadline(f.udp, ports));
      UnusedStaysRecorded(hz, boot, trace, n, ports, Deadline(f.udp, ports));
    }
  }

  lemma StepIsFaithful(hz: nat, boot: nat, trace: seq<Event>, n: nat)
    requires n < |trace| && Faithful(hz, boot, trace, n)
    ensures Faithful(hz, boot, trace, n + 1)
  {
    match trace[n]
    case AddStatic(_) => RuleIsFaithful(hz, boot, trace, n);
    case Outgoing(_) => OutgoingIsFaithful(hz, boot, trace, n);
    case Incoming(_) => IncomingIsFaithful(hz, boot, trace, n);
    case Tick => TickIsFaithful(hz, boot, trace, n);
  }

  lemma StartIsFaithful(hz: nat, boot: nat, trace: seq<Event>)
    ensures Faithful(hz, boot, trace, 0)
  {}

  /** Every run keeps one entry to a port pair, and an entry exactly for the pairs recently used. */
  lemma {:induction false} EveryRunIsFaithful(hz: nat, boot: nat, trace: seq<Event>, n: nat)
    requires n <= |trace|
    ensures Faithful(hz, boot, trace, n)
  {
    if n == 0 {
      StartIsFaithful(hz, boot, trace);
    } else {
      EveryRunIsFaithful(hz, boot, trace, n - 1);
      StepIsFaithful(hz, boot, trace, n - 1);
    }
  }

  /** Over every run, an incoming UDP packet is accepted exactly when a static rule accepts it or its port
      pair was used less than a lifetime ago. */
  lemma AcceptedExactly(hz: nat, boot: nat, trace: seq<Event>, n: nat, p: Packet)
    requires n <= |trace| && p.Udp?
    ensures Accepts(After(hz, boot, trace, n), p) <==>
              StaticallyAccepted(trace, n, p) || RecentlyUsed(hz, trace, n, PortPair(p.source, p.dest))
  {
    EveryRunIsFaithful(hz, boot, trace, n);
    StaticsAreThoseAdded(hz, boot, trace, n, p);
    TableDecides(hz, boot, trace, n, p);
  }

  /** The addresses take no part: whoever sends from the port a packet went out to is let in, for a whole
      timeout and not a tick longer unless the pair is used again. */
  lemma ReplyWindow(hz: nat, boot: nat, trace: seq<Event>, j: nat, n: nat, reply: Packet)
    requires j < n <= |trace| && trace[j].Outgoing? && trace[j].packet.Udp? && reply.Udp?
    requires reply.source == trace[j].packet.dest && reply.dest == trace[j].packet.source
    requires forall k :: 0 <= k < n && k != j ==> !trace[k].AddStatic? && !trace[k].Incoming? && !trace[k].Outgoing?
    ensures Accepts(After(hz, boot, trace, n), reply) <==> Time(trace, n) - Time(trace, j) < Lifetime(hz)
    ensures Accepts(After(hz, boot, trace, n), reply) <==>
              var ticks := Time(trace, n) - Time(trace, j); ticks == 0 || 1000 * (ticks + 1) <= 300 * hz
  {
    TimeIsMonotone(trace, j, n);
    var ports := PortPair(reply.source, reply.dest);
    AcceptedExactly(hz, boot, trace, n, reply);
    assert Uses(hz, trace, j, ports);
    assert forall k :: 0 <= k < n && k != j ==> !Uses(hz, trace, k, ports);
  }
}
