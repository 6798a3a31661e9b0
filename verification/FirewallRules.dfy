/** Firewall rules, rule lists searched from the head, and the timer each rule carries. */
module FirewallRules {
  import opened Options
  import opened AddressBits

  /** Addresses and ports are compared as the raw words the packet headers hold. */
  type Word16 = x: int | 0 <= x < 0x1_0000

  datatype Rule = Rule(
    ipSrc: bv32, ipDst: bv32, ipSrcMask: bv32, ipDstMask: bv32,
    portSrc0: Word16, portSrc1: Word16, portDst0: Word16, portDst1: Word16)

  /** A rule in a list; a rule whose timer was never armed has no expiry. */
  datatype Entry = Entry(rule: Rule, expires: Option<nat>)

  datatype PortPair = PortPair(source: Word16, dest: Word16)

  const TIMEOUT: nat := 300

  /** Timer ticks between arming a timer and its expiry, at `hz` ticks a second */
  function Timeout(hz: nat): nat {
    TIMEOUT * hz / 1000
  }

  /** Ticks an entry outlives its last use: a timer armed for the present still waits for the next tick. */
  function Lifetime(hz: nat): nat {
    if Timeout(hz) == 0 then 1 else Timeout(hz)
  }

  /** Two addresses after the mask has been applied to both */
  predicate SameNet(a: bv32, b: bv32, mask: bv32) {
    a & mask == b & mask
  }

  predicate Matches(src: Rule, dest: Rule) {
    && SameNet(src.ipSrc, dest.ipSrc, dest.ipSrcMask)
    && SameNet(src.ipDst, dest.ipDst, dest.ipDstMask)
    && src.portSrc0 >= dest.portSrc0 && src.portSrc1 <= dest.portSrc1
    && src.portDst0 >= dest.portDst0 && src.portDst1 <= dest.portDst1
  }

  /** Addresses that agree on the bits of the rule's masks, and ports within its ranges */
  predicate Covers(rule: Rule, saddr: bv32, daddr: bv32, source: int, dest: int) {
    && Agree(saddr, rule.ipSrc, rule.ipSrcMask) && Agree(daddr, rule.ipDst, rule.ipDstMask)
    && rule.portSrc0 <= source <= rule.portSrc1
    && rule.portDst0 <= dest <= rule.portDst1
  }

  lemma NetByBits(a: bv32, b: bv32, mask: bv32)
    ensures SameNet(a, b, mask) == Agree(a, b, mask)
  {
    MaskedIsAgreement(a, b, mask);
  }

  /** A rule that stands for one packet matches another exactly when the other one covers the packet: bit by
      bit of the masks, and at every port of the closed ranges. */
  lemma MatchesExactly(one: Rule, rule: Rule)
    requires one.portSrc0 == one.portSrc1 && one.portDst0 == one.portDst1
    ensures Matches(one, rule) <==> Covers(rule, one.ipSrc, one.ipDst, one.portSrc0, one.portDst0)
  {
    NetByBits(one.ipSrc, rule.ipSrc, rule.ipSrcMask);
    NetByBits(one.ipDst, rule.ipDst, rule.ipDstMask);
  }

  /** The rules the hooks generate: no address is compared, and both port ranges are single ports. */
  predicate IsFlow(r: Rule) {
    && r.ipSrcMask == 0 && r.ipDstMask == 0
    && r.portSrc0 == r.portSrc1 && r.portDst0 == r.portDst1
  }

  function Ports(r: Rule): PortPair {
    PortPair(r.portSrc0, r.portDst0)
  }

  /** Among generated rules a match is equality of the port pairs, whatever the addresses. */
  lemma FlowMatch(a: Rule, b: Rule)
    requires IsFlow(a) && IsFlow(b)
    ensures Matches(a, b) <==> Ports(a) == Ports(b)
  {}

  /** Position of the first rule, from the head of the list, that the given one matches */
  function FirstMatch(rule: Rule, list: seq<Entry>): (found: Option<nat>)
    ensures found.Some? ==>
              && found.value < |list| && Matches(rule, list[found.value].rule)
              && forall i :: 0 <= i < found.value ==> !Matches(rule, list[i].rule)
    ensures found.None? ==> forall i :: 0 <= i < |list| ==> !Matches(rule, list[i].rule)
  {
    if list == [] then None
    else if Matches(rule, list[0].rule) then Some(0)
    else
      var found := FirstMatch(rule, list[1..]);
      if found.None? then None else Some(found.value + 1)
  }

  // ------------------------------------------------ expiry

  predicate Expired(e: Entry, now: nat) {
    e.expires.Some? && e.expires.value <= now
  }

  /** What a list holds once every timer due at `now` has fired */
  function Live(list: seq<Entry>, now: nat): (live: seq<Entry>)
    ensures forall e :: e in live <==> e in list && !Expired(e, now)
  {
    if list == [] then []
    else if Expired(list[0], now) then Live(list[1..], now)
    else [list[0]] + Live(list[1..], now)
  }

  function Without(list: seq<Entry>, i: nat): seq<Entry>
    requires i < |list|
  {
    list[..i] + list[i + 1..]
  }

  /** Timers due at the same tick may fire in any order: each takes out its own entry only. */
  lemma {:induction false} FiringOrderIsIrrelevant(list: seq<Entry>, i: nat, now: nat)
    requires i < |list| && Expired(list[i], now)
    ensures Live(Without(list, i), now) == Live(list, now)
  {
    if i == 0 {
      assert Without(list, 0) == list[1..];
    } else {
      FiringOrderIsIrrelevant(list[1..], i - 1, now);
      assert Without(list, i) == [list[0]] + Without(list[1..], i - 1);
    }
  }

  lemma {:induction false} NothingDue(list: seq<Entry>, now: nat)
    requires forall e :: e in list ==> !Expired(e, now)
    ensures Live(list, now) == list
  {
    if list == [] {
    } else {
      NothingDue(list[1..], now);
      assert !Expired(list[0], now);
    }
  }
}
