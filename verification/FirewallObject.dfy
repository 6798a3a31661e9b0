/** The firewall's linked lists and timers, changed in place by the hooks and by expiring timers. */
module FirewallObject {
  import opened Options
  import opened FirewallRules
  import FlowTable
  import H = FirewallHooks

  /** An element of a rule list: its rule and its timer */
  class RulesEntry {
    const rule: Rule
    var expires: Option<nat>

    constructor (rule: Rule, expires: Option<nat>)
      ensures this.rule == rule && this.expires == expires
    {
      this.rule, this.expires := rule, expires;
    }
  }

  ghost function Entries(list: seq<RulesEntry>): (r: seq<Entry>)
    reads list
    ensures |r| == |list| && forall i :: 0 <= i < |r| ==> r[i] == Entry(list[i].rule, list[i].expires)
  {
    seq(|list|, i requires 0 <= i < |list| reads list => Entry(list[i].rule, list[i].expires))
  }

  /** The first element, from the head, whose rule the given one matches; null when there is none */
  method SearchRule(rule: Rule, list: seq<RulesEntry>) returns (ple: RulesEntry?)
    ensures (ple == null) == FirstMatch(rule, Entries(list)).None?
    ensures ple != null ==> ple == list[FirstMatch(rule, Entries(list)).value]
  {
    ghost var view := Entries(list);
    for i := 0 to |list|
      invariant view == Entries(list)
      invariant forall k :: 0 <= k < i ==> !Matches(rule, view[k].rule)
    {
      assert view[i].rule == list[i].rule;
      if Matches(rule, list[i].rule) {
        FirstMatchAt(rule, view, i);
        return list[i];
      }
    }
    return null;
  }

  lemma FirstMatchAt(rule: Rule, list: seq<Entry>, i: nat)
    requires i < |list| && Matches(rule, list[i].rule)
    requires forall k :: 0 <= k < i ==> !Matches(rule, list[k].rule)
    ensures FirstMatch(rule, list) == Some(i)
  {}

  lemma EntriesWithout(list: seq<RulesEntry>, i: nat)
    requires i < |list|
    ensures Entries(list[..i] + list[i + 1..]) == Without(Entries(list), i)
  {
    var rest := list[..i] + list[i + 1..];
    forall k | 0 <= k < |rest| ensures Entries(rest)[k] == Without(Entries(list), i)[k] {
      assert rest[k] == if k < i then list[k] else list[k + 1];
    }
  }

  /** When no timer of the list is due, nothing in it has expired. */
  lemma NoneDue(list: seq<RulesEntry>, now: nat)
    requires forall ple :: ple in list ==> !(ple.expires.Some? && ple.expires.value <= now)
    ensures Live(Entries(list), now) == Entries(list)
  {
    var view := Entries(list);
    forall e | e in view ensures !Expired(e, now) {
      var i :| 0 <= i < |view| && e == view[i];
      assert list[i] in list;
    }
    NothingDue(view, now);
  }

  class Firewall {
    const hz: nat
    var jiffies: nat
    var staticRules: seq<RulesEntry>
    var udpDynamicRules: seq<RulesEntry>

    constructor (hz: nat, boot: nat)
      ensures Valid() && View() == H.Firewall(hz, boot, [], [])
    {
      this.hz, jiffies, staticRules, udpDynamicRules := hz, boot, [], [];
    }

    ghost function View(): H.Firewall
      reads this, staticRules, udpDynamicRules
    {
      H.Firewall(hz, jiffies, Entries(staticRules), Entries(udpDynamicRules))
    }

    /** No element is in two places. */
    ghost predicate Valid()
      reads this
    {
      && (forall i, j :: 0 <= i < j < |udpDynamicRules| ==> udpDynamicRules[i] != udpDynamicRules[j])
      && forall e :: e in udpDynamicRules ==> e !in staticRules
    }

    method AddStaticRule(rule: Rule)
      requires Valid()
      modifies this`staticRules
      ensures Valid() && View() == H.AddRule(old(View()), rule)
    {
      var ple := new RulesEntry(rule, None);
      staticRules := [ple] + staticRules;
    }

    method AddUdpRule(rule: Rule)
      requires Valid()
      modifies this`udpDynamicRules
      ensures Valid()
      ensures Entries(udpDynamicRules)
           == [Entry(rule, Some(jiffies + Timeout(hz)))] + old(Entries(udpDynamicRules))
      ensures Entries(staticRules) == old(Entries(staticRules))
    {
      var ple := new RulesEntry(rule, Some(jiffies + Timeout(hz)));
      udpDynamicRules := [ple] + udpDynamicRules;
    }

    /** Moves the timer of a listed element */
    method ModTimer(ghost i: nat, ple: RulesEntry)
      requires Valid() && i < |udpDynamicRules| && udpDynamicRules[i] == ple
      modifies ple
      ensures Valid()
      ensures Entries(udpDynamicRules)
           == FlowTable.Rearm(old(Entries(udpDynamicRules)), i, jiffies + Timeout(hz))
      ensures Entries(staticRules) == old(Entries(staticRules))
    {
      assert ple in udpDynamicRules;
      ple.expires := Some(jiffies + Timeout(hz));
    }

    /** Re-arms the timer of the flow, or adds the flow */
    method RefreshRule(rule: Rule)
      requires Valid()
      modifies this`udpDynamicRules, udpDynamicRules
      ensures Valid()
      ensures View() == old(View()).(udp := FlowTable.Refresh(old(View()).udp, rule, H.Armed(old(View()))))
    {
      ghost var statics, udp := Entries(staticRules), Entries(udpDynamicRules);
      var ple := SearchRule(rule, udpDynamicRules);
      if ple != null {
        ghost var i := FirstMatch(rule, udp).value;
        ModTimer(i, ple);
      } else {
        AddUdpRule(rule);
      }
      assert Entries(staticRules) == statics;
      assert Entries(udpDynamicRules) == FlowTable.Refresh(udp, rule, jiffies + Timeout(hz));
    }

    method HookOut(p: H.Packet)
      requires Valid()
      modifies this`udpDynamicRules, udpDynamicRules
      ensures Valid() && View() == H.OnOut(old(View()), p)
    {
      if p.Udp? {
        RefreshRule(H.OutRule(p));
      }
    }

    method HookIn(p: H.Packet) returns (accept: bool)
      requires Valid()
      modifies udpDynamicRules
      ensures accept == old(H.Accepts(View(), p))
      ensures Valid() && View() == H.OnIn(old(View()), p)
    {
      if p.OtherProtocol? {
        return true;
      }
      var rule := H.InRule(p);
      var ple := SearchRule(rule, staticRules);
      if ple != null {
        return true;
      }
      ple := SearchRule(rule, udpDynamicRules);
      if ple == null {
        return false;
      }
      ghost var i := FirstMatch(rule, Entries(udpDynamicRules)).value;
      ModTimer(i, ple);
      return true;
    }

    /** Takes the given element, and no other, out of the list */
    method DelRule(ple: RulesEntry) returns (found: bool)
      requires Valid()
      modifies this`udpDynamicRules
      ensures Valid() && found == (ple in old(udpDynamicRules))
      ensures !found ==> udpDynamicRules == old(udpDynamicRules)
      ensures found ==>
                exists i :: 0 <= i < |old(udpDynamicRules)| && old(udpDynamicRules)[i] == ple
                            && udpDynamicRules == old(udpDynamicRules)[..i] + old(udpDynamicRules)[i + 1..]
    {
      for i := 0 to |udpDynamicRules|
        invariant ple !in udpDynamicRules[..i]
      {
        if udpDynamicRules[i] == ple {
          udpDynamicRules := udpDynamicRules[..i] + udpDynamicRules[i + 1..];
          return true;
        }
      }
      return false;
    }

    /** The timers due fire in any order, and each deletes its own element. */
    method FireTimers()
      requires Valid()
      modifies this`udpDynamicRules
      ensures Valid() && Entries(udpDynamicRules) == Live(old(Entries(udpDynamicRules)), jiffies)
    {
      while exists ple :: ple in udpDynamicRules && Due(ple)
        invariant Valid()
        invariant Live(Entries(udpDynamicRules), jiffies) == Live(old(Entries(udpDynamicRules)), jiffies)
        decreases |udpDynamicRules|
      {
        var ple :| ple in udpDynamicRules && Due(ple);
        ghost var before := udpDynamicRules;
        var found := DelRule(ple);
        ghost var i :| 0 <= i < |before| && before[i] == ple && udpDynamicRules == before[..i] + before[i + 1..];
        EntriesWithout(before, i);
        FiringOrderIsIrrelevant(Entries(before), i, jiffies);
      }
      NoneDue(udpDynamicRules, jiffies);
    }

    method Tick()
      requires Valid()
      modifies this`jiffies, this`udpDynamicRules
      ensures Valid() && View() == H.OnTick(old(View()))
    {
      jiffies := jiffies + 1;
      FireTimers();
    }

    predicate Due(ple: RulesEntry)
      reads this, ple
    {
      ple.expires.Some? && ple.expires.value <= jiffies
    }
  }
}
