/** The host packet policy: prioritised rules, and the decision on a packet. */
module Decisions {
  import opened Options
  import opened Ordering
  import opened Net

  datatype Action = Pass | Drop | Inspect

  datatype Direction = Inbound | Outbound | Unknown

  datatype Protocol = Tcp | Udp | Icmp | IcmpV6 | Other(code: U8)

  /** What the parser recognised. */
  datatype Transport = TcpSegment | UdpDatagram | IcmpMessage | IcmpV6Message | Unrecognised

  type Priority = n: nat | n < 0x1_0000_0000

  datatype Rule = Rule(
    priority: Priority, direction: Option<Direction>, protocol: Option<Protocol>,
    srcIp: Option<IpAddr>, dstIp: Option<IpAddr>, srcPort: Option<U16>, dstPort: Option<U16>, action: Action)

  datatype Packet = Packet(
    transport: Transport, srcIp: Option<IpAddr>, dstIp: Option<IpAddr>, srcPort: Option<U16>, dstPort: Option<U16>)

  datatype Policy = Policy(default: Action, rules: seq<Rule>)

  function ProtocolOf(transport: Transport): Option<Protocol> {
    match transport
    case TcpSegment => Some(Tcp)
    case UdpDatagram => Some(Udp)
    case IcmpMessage => Some(Icmp)
    case IcmpV6Message => Some(IcmpV6)
    case Unrecognised => None
  }

  /** A field a rule leaves open matches anything; a field it sets must be present and equal. */
  predicate RuleMatches(rule: Rule, packet: Packet, direction: Direction) {
    && (rule.direction.Some? ==> rule.direction.value == direction)
    && (rule.protocol.Some? ==> ProtocolOf(packet.transport) == rule.protocol)
    && (rule.srcIp.Some? ==> packet.srcIp == rule.srcIp)
    && (rule.dstIp.Some? ==> packet.dstIp == rule.dstIp)
    && (rule.srcPort.Some? ==> packet.srcPort == rule.srcPort)
    && (rule.dstPort.Some? ==> packet.dstPort == rule.dstPort)
  }

  /** The matching rule of least priority number, the earliest among equals. */
  ghost predicate Wins(rules: seq<Rule>, packet: Packet, direction: Direction, i: int) {
    && 0 <= i < |rules| && RuleMatches(rules[i], packet, direction)
    && forall j | 0 <= j < |rules| && RuleMatches(rules[j], packet, direction) ::
         rules[i].priority < rules[j].priority || (rules[i].priority == rules[j].priority && i <= j)
  }

  ghost predicate IsDecision(policy: Policy, packet: Packet, direction: Direction, decision: Action) {
    || (exists i :: Wins(policy.rules, packet, direction, i) && decision == policy.rules[i].action)
    || (decision == policy.default && forall i | 0 <= i < |policy.rules| :: !RuleMatches(policy.rules[i], packet, direction))
  }

  // ---- The evaluation ----

  /** A rule's priority with its position in the list, ordered as a tuple. */
  datatype Place = Place(priority: Priority, index: nat)

  predicate Before(a: Place, b: Place) {
    a.priority < b.priority || (a.priority == b.priority && a.index <= b.index)
  }

  /** Pairs each rule's priority with its position, sorts the pairs and takes the
      first match. */
  method EvaluatePacket(policy: Policy, packet: Packet, direction: Direction) returns (decision: Action)
    ensures IsDecision(policy, packet, direction, decision)
  {
    var rules := policy.rules;
    var pairs := seq(|rules|, i requires 0 <= i < |rules| => Place(rules[i].priority, i));
    var ordered := Sort(Before, pairs);
    SortSorts(Before, pairs);
    PairsSurvive(rules, pairs, ordered);
    for k := 0 to |ordered|
      invariant forall m | 0 <= m < k :: !RuleMatches(rules[ordered[m].index], packet, direction)
    {
      var i := ordered[k].index;
      if RuleMatches(rules[i], packet, direction) {
        FirstMatchWins(rules, packet, direction, ordered, k);
        return rules[i].action;
      }
    }
    return policy.default;
  }

  /** The sorted pairs are exactly the positions, each with its priority. */
  ghost predicate IsListing(rules: seq<Rule>, ordered: seq<Place>) {
    && (forall k | 0 <= k < |ordered| :: ordered[k].index < |rules| && ordered[k].priority == rules[ordered[k].index].priority)
    && (forall i | 0 <= i < |rules| :: Place(rules[i].priority, i) in ordered)
  }

  lemma PairsSurvive(rules: seq<Rule>, pairs: seq<Place>, ordered: seq<Place>)
    requires pairs == seq(|rules|, i requires 0 <= i < |rules| => Place(rules[i].priority, i))
    requires ordered == Sort(Before, pairs)
    ensures IsListing(rules, ordered)
  {
    SortPermutes(Before, pairs);
    forall k | 0 <= k < |ordered|
      ensures ordered[k].index < |rules| && ordered[k].priority == rules[ordered[k].index].priority
    {
      assert ordered[k] in multiset(ordered);
      assert ordered[k] in pairs;
    }
    forall i | 0 <= i < |rules|
      ensures Place(rules[i].priority, i) in ordered
    {
      assert pairs[i] in multiset(pairs);
      assert pairs[i] in multiset(ordered);
    }
  }

  lemma FirstMatchWins(rules: seq<Rule>, packet: Packet, direction: Direction, ordered: seq<Place>, k: nat)
    requires IsListing(rules, ordered) && SortedBy(Before, ordered) && k < |ordered|
    requires RuleMatches(rules[ordered[k].index], packet, direction)
    requires forall m | 0 <= m < k :: !RuleMatches(rules[ordered[m].index], packet, direction)
    ensures Wins(rules, packet, direction, ordered[k].index)
  {
    forall j | 0 <= j < |rules| && RuleMatches(rules[j], packet, direction)
      ensures Before(ordered[k], Place(rules[j].priority, j))
    {
      var m :| 0 <= m < |ordered| && ordered[m] == Place(rules[j].priority, j);
      assert m >= k;
    }
  }

  // ---- What the decision depends on ----

  /** A policy decides every packet one way only. */
  lemma DecisionIsUnique(policy: Policy, packet: Packet, direction: Direction, one: Action, other: Action)
    requires IsDecision(policy, packet, direction, one) && IsDecision(policy, packet, direction, other)
    ensures one == other
  {
    if i :| Wins(policy.rules, packet, direction, i) && one == policy.rules[i].action {
      if j :| Wins(policy.rules, packet, direction, j) && other == policy.rules[j].action {
        assert i == j;
      }
    }
  }

  /** Whether a rule put at the end takes the packet away from the rules before it. */
  ghost predicate TakesOver(rules: seq<Rule>, rule: Rule, packet: Packet, direction: Direction) {
    && RuleMatches(rule, packet, direction)
    && forall j | 0 <= j < |rules| && RuleMatches(rules[j], packet, direction) :: rule.priority < rules[j].priority
  }

  lemma WinnerAfterAppend(rules: seq<Rule>, rule: Rule, packet: Packet, direction: Direction)
    ensures TakesOver(rules, rule, packet, direction) ==> Wins(rules + [rule], packet, direction, |rules|)
    ensures !TakesOver(rules, rule, packet, direction) ==>
              forall i :: Wins(rules + [rule], packet, direction, i) <==> Wins(rules, packet, direction, i)
  {
    var grown := rules + [rule];
    assert forall j | 0 <= j < |rules| :: grown[j] == rules[j];
    assert grown[|rules|] == rule;
    if !TakesOver(rules, rule, packet, direction) && RuleMatches(rule, packet, direction) {
      var j :| 0 <= j < |rules| && RuleMatches(rules[j], packet, direction) && rule.priority >= rules[j].priority;
      assert RuleMatches(grown[j], packet, direction);
    }
  }

  /** Appending a rule decides a packet by that rule exactly when it matches and every
      rule that already matched has a strictly greater priority number; otherwise the
      decision stays what it was. */
  lemma AppendDecides(policy: Policy, rule: Rule, packet: Packet, direction: Direction, before: Action, after: Action)
    requires IsDecision(policy, packet, direction, before)
    requires IsDecision(policy.(rules := policy.rules + [rule]), packet, direction, after)
    ensures after == if TakesOver(policy.rules, rule, packet, direction) then rule.action else before
  {
    var grown := policy.(rules := policy.rules + [rule]);
    WinnerAfterAppend(policy.rules, rule, packet, direction);
    if TakesOver(policy.rules, rule, packet, direction) {
      assert Wins(grown.rules, packet, direction, |policy.rules|);
      DecisionIsUnique(grown, packet, direction, rule.action, after);
    } else {
      if i :| Wins(policy.rules, packet, direction, i) && before == policy.rules[i].action {
        assert Wins(grown.rules, packet, direction, i) && grown.rules[i] == policy.rules[i];
      } else {
        assert forall i | 0 <= i < |grown.rules| :: !RuleMatches(grown.rules[i], packet, direction);
      }
      assert IsDecision(grown, packet, direction, before);
      DecisionIsUnique(grown, packet, direction, before, after);
    }
  }

  /** Where matching rules have distinct priorities, their order in the list is irrelevant. */
  lemma OrderIsIrrelevant(one: Policy, other: Policy, packet: Packet, direction: Direction, decision: Action)
    requires one.default == other.default && (forall r :: r in one.rules <==> r in other.rules)
    requires forall r, q | r in one.rules && q in one.rules && RuleMatches(r, packet, direction)
                           && RuleMatches(q, packet, direction) && r.priority == q.priority :: r == q
    requires IsDecision(one, packet, direction, decision)
    ensures IsDecision(other, packet, direction, decision)
  {
    if i :| Wins(one.rules, packet, direction, i) && decision == one.rules[i].action {
      var r := one.rules[i];
      assert forall q | q in one.rules && RuleMatches(q, packet, direction) :: r.priority <= q.priority;
      var k := FirstIndex(other.rules, r);
      assert forall j | 0 <= j < |other.rules| :: other.rules[j] in one.rules;
      assert Wins(other.rules, packet, direction, k);
    } else {
      assert forall j | 0 <= j < |other.rules| :: other.rules[j] in one.rules;
    }
  }

  lemma FirstIndex(rules: seq<Rule>, r: Rule) returns (k: nat)
    requires r in rules
    ensures k < |rules| && rules[k] == r && forall j | 0 <= j < k :: rules[j] != r
  {
    k := 0;
    while rules[k] != r
      invariant k < |rules| && forall j | 0 <= j < k :: rules[j] != r
      decreases |rules| - k
    {
      assert exists m :: k < m < |rules| && rules[m] == r;
      k := k + 1;
    }
  }

  // ---- What a rule means, field by field ----

  /** Under a policy of one rule, the rule decides a packet exactly when every field it sets is
      the packet's own. */
  lemma SingleRuleDecides(d: Action, rule: Rule, packet: Packet, direction: Direction, decision: Action)
    requires rule.action != d && IsDecision(Policy(d, [rule]), packet, direction, decision)
    ensures decision == rule.action <==>
            && (rule.direction == None || rule.direction == Some(direction))
            && (rule.protocol == None
                || (rule.protocol == Some(Tcp) && packet.transport == TcpSegment)
                || (rule.protocol == Some(Udp) && packet.transport == UdpDatagram)
                || (rule.protocol == Some(Icmp) && packet.transport == IcmpMessage)
                || (rule.protocol == Some(IcmpV6) && packet.transport == IcmpV6Message))
            && (rule.srcIp == None || rule.srcIp == packet.srcIp)
            && (rule.dstIp == None || rule.dstIp == packet.dstIp)
            && (rule.srcPort == None || rule.srcPort == packet.srcPort)
            && (rule.dstPort == None || rule.dstPort == packet.dstPort)
    ensures decision == d || decision == rule.action
  {
    assert Wins([rule], packet, direction, 0) <==> RuleMatches([rule][0], packet, direction);
  }

  /** A rule one of whose set fields is not the packet's may be left out of the policy without
      changing the decision. */
  lemma MismatchedRuleIsIdle(d: Action, before: seq<Rule>, rule: Rule, after: seq<Rule>, packet: Packet, direction: Direction,
                             with: Action, without: Action)
    requires || (rule.direction.Some? && rule.direction != Some(direction))
             || (rule.protocol.Some? && rule.protocol != ProtocolOf(packet.transport))
             || (rule.srcIp.Some? && rule.srcIp != packet.srcIp) || (rule.dstIp.Some? && rule.dstIp != packet.dstIp)
             || (rule.srcPort.Some? && rule.srcPort != packet.srcPort) || (rule.dstPort.Some? && rule.dstPort != packet.dstPort)
    requires IsDecision(Policy(d, before + [rule] + after), packet, direction, with)
    requires IsDecision(Policy(d, before + after), packet, direction, without)
    ensures with == without
  {
    var all, rest := before + [rule] + after, before + after;
    assert !RuleMatches(rule, packet, direction);
    if i :| Wins(rest, packet, direction, i) && without == rest[i].action {
      WinsInLonger(before, rule, after, packet, direction, i);
      assert IsDecision(Policy(d, all), packet, direction, without);
    } else {
      NoneInLonger(before, rule, after, packet, direction);
    }
    DecisionIsUnique(Policy(d, all), packet, direction, with, without);
  }

  lemma NoneInLonger(before: seq<Rule>, rule: Rule, after: seq<Rule>, packet: Packet, direction: Direction)
    requires !RuleMatches(rule, packet, direction)
    requires forall i | 0 <= i < |before + after| :: !RuleMatches((before + after)[i], packet, direction)
    ensures var all := before + [rule] + after;
            forall i | 0 <= i < |all| :: !RuleMatches(all[i], packet, direction)
  {
    var all, rest := before + [rule] + after, before + after;
    forall i | 0 <= i < |all|
      ensures !RuleMatches(all[i], packet, direction)
    {
      if i != |before| {
        var m := if i < |before| then i else i - 1;
        assert rest[m] == all[i];
      }
    }
  }

  lemma WinsInLonger(before: seq<Rule>, rule: Rule, after: seq<Rule>, packet: Packet, direction: Direction, i: nat)
    requires !RuleMatches(rule, packet, direction) && Wins(before + after, packet, direction, i)
    ensures var k := if i < |before| then i else i + 1;
            Wins(before + [rule] + after, packet, direction, k) && (before + [rule] + after)[k] == (before + after)[i]
  {
    var all, rest, k := before + [rule] + after, before + after, if i < |before| then i else i + 1;
    assert all[k] == rest[i];
    forall j | 0 <= j < |all| && RuleMatches(all[j], packet, direction)
      ensures all[k].priority < all[j].priority || (all[k].priority == all[j].priority && k <= j)
    {
      assert j != |before|;
      var m := if j < |before| then j else j - 1;
      assert rest[m] == all[j];
    }
  }

  // ---- Building the policy from host values ----

  function DecodeAction(v: int): Option<Action> {
    match v case 0 => Some(Pass) case 1 => Some(Drop) case 2 => Some(Inspect) case _ => None
  }

  /** -1 leaves the direction open. */
  function DecodeDirection(v: int): Option<Option<Direction>> {
    match v
    case -1 => Some(None)
    case 0 => Some(Some(Inbound))
    case 1 => Some(Some(Outbound))
    case 2 => Some(Some(Unknown))
    case _ => None
  }

  function DecodeProtocol(v: int): Option<Option<Protocol>> {
    if v == -1 then Some(None)
    else if v == 1 then Some(Some(Icmp))
    else if v == 6 then Some(Some(Tcp))
    else if v == 17 then Some(Some(Udp))
    else if v == 58 then Some(Some(IcmpV6))
    else if 0 <= v <= 255 then Some(Some(Other(v)))
    else None
  }

  /** Port 0 leaves the port open. */
  function DecodePort(v: U16): Option<U16> {
    if v == 0 then None else Some(v)
  }

  /** Addresses arrive decoded; `None` stands for an address the decoder rejected. */
  datatype RuleRequest = RuleRequest(
    priority: Priority, direction: int, protocol: int, srcIp: Option<Option<IpAddr>>, dstIp: Option<Option<IpAddr>>,
    srcPort: U16, dstPort: U16, action: int)

  function DecodeRule(q: RuleRequest): Option<Rule> {
    var action, direction, protocol := DecodeAction(q.action), DecodeDirection(q.direction), DecodeProtocol(q.protocol);
    if action.None? || direction.None? || protocol.None? || q.srcIp.None? || q.dstIp.None? then None
    else Some(Rule(q.priority, direction.value, protocol.value, q.srcIp.value, q.dstIp.value,
                   DecodePort(q.srcPort), DecodePort(q.dstPort), action.value))
  }

  // ---- Which accepted rules can match at all ----

  datatype Ports = Ports(src: U16, dst: U16)

  /** What the header parsers read from one frame: both addresses of one family, the
      protocol number and, in a first fragment with a whole transport header, the two
      values standing where TCP and UDP keep their ports. */
  datatype Frame =
    | ArpFrame
    | Ipv4Frame(src4: Bits32, dst4: Bits32, protocol: U8, header: Option<Ports>)
    | Ipv6Frame(src6: Bits128, dst6: Bits128, protocol: U8, header: Option<Ports>)

  function TransportOf(frame: Frame): Transport {
    if frame.ArpFrame? then Unrecognised
    else if frame.protocol == 6 then TcpSegment
    else if frame.protocol == 17 then UdpDatagram
    else if frame.Ipv4Frame? && frame.protocol == 1 then IcmpMessage
    else if frame.Ipv6Frame? && frame.protocol == 58 then IcmpV6Message
    else Unrecognised
  }

  function Parse(frame: Frame): Packet {
    var transport := TransportOf(frame);
    var ports := if frame.ArpFrame? || (!transport.TcpSegment? && !transport.UdpDatagram?) then None else frame.header;
    var srcPort := if ports.None? then None else Some(ports.value.src);
    var dstPort := if ports.None? then None else Some(ports.value.dst);
    match frame
    case ArpFrame => Packet(transport, None, None, None, None)
    case Ipv4Frame(src, dst, _, _) => Packet(transport, Some(V4(src)), Some(V4(dst)), srcPort, dstPort)
    case Ipv6Frame(src, dst, _, _) => Packet(transport, Some(V6(src)), Some(V6(dst)), srcPort, dstPort)
  }

  /** Whether an address a rule may set belongs to the family. */
  predicate InFamily(address: Option<IpAddr>, v4: bool) {
    address.Some? ==> address.value.V4? == v4
  }

  /** What a host can check of a request before sending it: a protocol the parser names,
      ports only where the parser reads ports, and all of it in one address family. */
  predicate CanMatch(q: RuleRequest)
    requires q.srcIp.Some? && q.dstIp.Some?
  {
    && q.protocol in {-1, 1, 6, 17, 58}
    && (q.srcPort != 0 || q.dstPort != 0 ==> q.protocol in {-1, 6, 17})
    && exists v4 :: InFamily(q.srcIp.value, v4) && InFamily(q.dstIp.value, v4) && q.protocol != (if v4 then 58 else 1)
  }

  ghost predicate MatchesSomePacket(rule: Rule) {
    exists frame, direction :: RuleMatches(rule, Parse(frame), direction)
  }

  /** Appending the rule to some policy changes the decision on some packet. */
  ghost predicate MattersSomewhere(rule: Rule) {
    exists policy: Policy, frame, direction, before, after ::
      && IsDecision(policy, Parse(frame), direction, before)
      && IsDecision(policy.(rules := policy.rules + [rule]), Parse(frame), direction, after)
      && before != after
  }

  /** The frame a rule matches shows the family; an ARP frame carries no address and goes with either. */
  lemma MatchedCanMatch(q: RuleRequest, frame: Frame, direction: Direction)
    requires DecodeRule(q).Some? && RuleMatches(DecodeRule(q).value, Parse(frame), direction)
    ensures CanMatch(q)
  {
    var v4 := frame.Ipv4Frame? || (frame.ArpFrame? && q.protocol != 58);
    assert InFamily(q.srcIp.value, v4) && InFamily(q.dstIp.value, v4);
    assert q.protocol != if v4 then 58 else 1;
  }

  /** A frame an accepted rule matches, built from what the rule sets. */
  function FrameFor(q: RuleRequest, v4: bool): Frame
    requires q.srcIp.Some? && q.dstIp.Some?
    requires InFamily(q.srcIp.value, v4) && InFamily(q.dstIp.value, v4)
  {
    var protocol: U8 := if 0 <= q.protocol <= 255 then q.protocol else 6;
    var header := Some(Ports(q.srcPort, q.dstPort));
    var src, dst := q.srcIp.value, q.dstIp.value;
    if v4 then
      Ipv4Frame(if src.Some? then src.value.v4 else Zeros32(), if dst.Some? then dst.value.v4 else Zeros32(), protocol, header)
    else
      Ipv6Frame(if src.Some? then src.value.v6 else Zeros128(), if dst.Some? then dst.value.v6 else Zeros128(), protocol, header)
  }

  function Zeros32(): Bits32 {
    seq(32, _ => false)
  }

  function Zeros128(): Bits128 {
    seq(128, _ => false)
  }

  lemma CanMatchMatches(q: RuleRequest, v4: bool)
    requires DecodeRule(q).Some? && CanMatch(q)
    requires InFamily(q.srcIp.value, v4) && InFamily(q.dstIp.value, v4) && q.protocol != if v4 then 58 else 1
    ensures var rule := DecodeRule(q).value;
            RuleMatches(rule, Parse(FrameFor(q, v4)), if rule.direction.Some? then rule.direction.value else Inbound)
  {
  }

  /** An accepted rule matches some packet exactly when the request passes `CanMatch`. */
  lemma RuleMatchesExactly(q: RuleRequest)
    requires DecodeRule(q).Some?
    ensures MatchesSomePacket(DecodeRule(q).value) <==> CanMatch(q)
  {
    var rule := DecodeRule(q).value;
    if frame, direction :| RuleMatches(rule, Parse(frame), direction) {
      MatchedCanMatch(q, frame, direction);
    }
    if CanMatch(q) {
      var v4 :| InFamily(q.srcIp.value, v4) && InFamily(q.dstIp.value, v4) && q.protocol != if v4 then 58 else 1;
      CanMatchMatches(q, v4);
    }
  }

  /** The action a host code stands for. */
  ghost predicate IsActionCode(code: int, action: Action) {
    (code == 0 && action == Pass) || (code == 1 && action == Drop) || (code == 2 && action == Inspect)
  }

  /** From the request's codes to the frame's fields: an accepted rule alone decides an IPv4
      frame exactly when each of its codes is open or names what the frame holds. */
  lemma RequestDecidesIpv4(q: RuleRequest, src: Bits32, dst: Bits32, protocol: U8, header: Option<Ports>, direction: Direction,
                           default: Action, decision: Action)
    requires DecodeRule(q).Some? && !IsActionCode(q.action, default)
    requires IsDecision(Policy(default, [DecodeRule(q).value]), Parse(Ipv4Frame(src, dst, protocol, header)), direction, decision)
    ensures IsActionCode(q.action, decision) <==>
            && (q.direction == -1 || (q.direction == 0 && direction == Inbound)
                || (q.direction == 1 && direction == Outbound) || (q.direction == 2 && direction == Unknown))
            && (q.protocol == -1 || (q.protocol == protocol && protocol in {1, 6, 17}))
            && (q.srcIp == Some(None) || q.srcIp == Some(Some(V4(src))))
            && (q.dstIp == Some(None) || q.dstIp == Some(Some(V4(dst))))
            && (q.srcPort == 0 || (protocol in {6, 17} && header.Some? && header.value.src == q.srcPort))
            && (q.dstPort == 0 || (protocol in {6, 17} && header.Some? && header.value.dst == q.dstPort))
  {
    SingleRuleDecides(default, DecodeRule(q).value, Parse(Ipv4Frame(src, dst, protocol, header)), direction, decision);
  }

  lemma RequestDecidesIpv6(q: RuleRequest, src: Bits128, dst: Bits128, protocol: U8, header: Option<Ports>, direction: Direction,
                           default: Action, decision: Action)
    requires DecodeRule(q).Some? && !IsActionCode(q.action, default)
    requires IsDecision(Policy(default, [DecodeRule(q).value]), Parse(Ipv6Frame(src, dst, protocol, header)), direction, decision)
    ensures IsActionCode(q.action, decision) <==>
            && (q.direction == -1 || (q.direction == 0 && direction == Inbound)
                || (q.direction == 1 && direction == Outbound) || (q.direction == 2 && direction == Unknown))
            && (q.protocol == -1 || (q.protocol == protocol && protocol in {6, 17, 58}))
            && (q.srcIp == Some(None) || q.srcIp == Some(Some(V6(src))))
            && (q.dstIp == Some(None) || q.dstIp == Some(Some(V6(dst))))
            && (q.srcPort == 0 || (protocol in {6, 17} && header.Some? && header.value.src == q.srcPort))
            && (q.dstPort == 0 || (protocol in {6, 17} && header.Some? && header.value.dst == q.dstPort))
  {
    SingleRuleDecides(default, DecodeRule(q).value, Parse(Ipv6Frame(src, dst, protocol, header)), direction, decision);
  }

  /** A request is accepted exactly when all its codes are known and both addresses decode, and
      the rule keeps its priority. */
  lemma AcceptedExactly(q: RuleRequest)
    ensures DecodeRule(q).Some? <==>
            && 0 <= q.action <= 2 && -1 <= q.direction <= 2 && -1 <= q.protocol <= 255
            && q.srcIp.Some? && q.dstIp.Some?
    ensures DecodeRule(q).Some? ==> DecodeRule(q).value.priority == q.priority && IsActionCode(q.action, DecodeRule(q).value.action)
  {
  }

  /** Every other accepted rule is dead weight: no policy decides any packet differently
      for having it. The rules that pass do change some decision. */
  lemma RuleMattersExactly(q: RuleRequest)
    requires DecodeRule(q).Some?
    ensures MattersSomewhere(DecodeRule(q).value) <==> CanMatch(q)
  {
    var rule := DecodeRule(q).value;
    RuleMatchesExactly(q);
    if policy: Policy, frame, direction, before, after :|
      && IsDecision(policy, Parse(frame), direction, before)
      && IsDecision(policy.(rules := policy.rules + [rule]), Parse(frame), direction, after)
      && before != after {
      AppendDecides(policy, rule, Parse(frame), direction, before, after);
    }
    if frame, direction :| RuleMatches(rule, Parse(frame), direction) {
      var policy := Policy(if rule.action == Pass then Drop else Pass, []);
      assert Wins(policy.rules + [rule], Parse(frame), direction, 0);
      assert IsDecision(policy, Parse(frame), direction, policy.default);
      assert IsDecision(policy.(rules := policy.rules + [rule]), Parse(frame), direction, rule.action);
    }
  }

  /** A rule for a protocol number the parser does not name matches nothing, whatever
      the packet: the number alone kills it. */
  lemma OtherProtocolRuleIsDead(q: RuleRequest, policy: Policy, packet: Packet, direction: Direction, before: Action, after: Action)
    requires DecodeRule(q).Some? && q.protocol !in {-1, 1, 6, 17, 58}
    requires IsDecision(policy, packet, direction, before)
    requires IsDecision(policy.(rules := policy.rules + [DecodeRule(q).value]), packet, direction, after)
    ensures !RuleMatches(DecodeRule(q).value, packet, direction)
    ensures after == before
  {
    AppendDecides(policy, DecodeRule(q).value, packet, direction, before, after);
  }

  /** Three requests that are accepted and dead although the parser names their
      protocol: ICMP with a port, ICMP with an IPv6 address, addresses of two families. */
  lemma AcceptedAndDead()
    ensures var v4, v6 := Some(V4(Zeros32())), Some(V6(Zeros128()));
            forall q | q in [RuleRequest(0, -1, 1, Some(None), Some(None), 0, 53, 1),
                             RuleRequest(0, -1, 1, Some(v6), Some(None), 0, 0, 1),
                             RuleRequest(0, -1, 6, Some(v4), Some(v6), 0, 0, 1)] ::
              DecodeRule(q).Some? && !MattersSomewhere(DecodeRule(q).value)
  {
    var v4, v6 := Some(V4(Zeros32())), Some(V6(Zeros128()));
    forall q | q in [RuleRequest(0, -1, 1, Some(None), Some(None), 0, 53, 1),
                     RuleRequest(0, -1, 1, Some(v6), Some(None), 0, 0, 1),
                     RuleRequest(0, -1, 6, Some(v4), Some(v6), 0, 0, 1)]
      ensures DecodeRule(q).Some? && !MattersSomewhere(DecodeRule(q).value)
    {
      RuleMattersExactly(q);
    }
  }

  class PolicyStore {
    var policy: Policy

    constructor ()
      ensures policy == Policy(Pass, [])
    {
      policy := Policy(Pass, []);
    }

    /** A request with any undecodable field is refused as a whole. */
    method AddRule(q: RuleRequest) returns (ok: bool)
      modifies this
      ensures ok <==> DecodeRule(q).Some?
      ensures policy == if ok then old(policy).(rules := old(policy).rules + [DecodeRule(q).value]) else old(policy)
      ensures forall packet, direction, before, after |
                ok && IsDecision(old(policy), packet, direction, before) && IsDecision(policy, packet, direction, after) ::
                after != before ==> TakesOver(old(policy).rules, DecodeRule(q).value, packet, direction)
    {
      var action := DecodeAction(q.action);
      if action.None? {
        return false;
      }
      var direction := DecodeDirection(q.direction);
      if direction.None? {
        return false;
      }
      var protocol := DecodeProtocol(q.protocol);
      if protocol.None? {
        return false;
      }
      if q.srcIp.None? || q.dstIp.None? {
        return false;
      }
      var rule := Rule(q.priority, direction.value, protocol.value, q.srcIp.value, q.dstIp.value,
                       DecodePort(q.srcPort), DecodePort(q.dstPort), action.value);
      policy := policy.(rules := policy.rules + [rule]);
      forall packet, direction, before, after |
        IsDecision(old(policy), packet, direction, before) && IsDecision(policy, packet, direction, after)
        ensures after != before ==> TakesOver(old(policy).rules, rule, packet, direction)
      {
        AppendDecides(old(policy), rule, packet, direction, before, after);
      }
      return true;
    }

    method SetDefault(v: int) returns (ok: bool)
      modifies this
      ensures ok <==> DecodeAction(v).Some?
      ensures policy == if ok then old(policy).(default := DecodeAction(v).value) else old(policy)
    {
      var action := DecodeAction(v);
      if action.None? {
        return false;
      }
      policy := policy.(default := action.value);
      return true;
    }

    method ClearRules()
      modifies this
      ensures policy == Policy(old(policy).default, [])
    {
      policy := policy.(rules := []);
    }
  }
}
