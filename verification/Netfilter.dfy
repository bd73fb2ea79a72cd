/** What the kernel does with the rules that the daemon writes: packets, the matches that
    the compiler emits, and first-match evaluation of one chain. */
module Netfilter {

  type Byte = x: int | 0 <= x < 256

  /** An IPv4 or IPv6 address in network byte order: 4 or 16 bytes. */
  type Address = seq<Byte>

  /** The order of two addresses of one family. */
  predicate AtMost(a: Address, b: Address) {
    if a == [] then true
    else if b == [] then false
    else if a[0] != b[0] then a[0] < b[0]
    else AtMost(a[1..], b[1..])
  }

  /** The two ends of one iprange match. */
  datatype Range = Range(low: Address, high: Address)

  predicate InRange(a: Address, r: Range) {
    AtMost(r.low, a) && AtMost(a, r.high)
  }

  /** One packet as the filter table sees it. On INPUT the packet has no output device.
      established states RELATED or ESTABLISHED, natted states that a DNAT rule of the host
      changed the destination, and token states that the limit match lets the packet pass. */
  datatype Packet = Packet(
    input: string,
    output: string,
    destination: Address,
    protocol: string,
    port: nat,
    icmpKind: string,
    established: bool,
    natted: bool,
    token: bool)

  const DEVICE_PREFIX := "vh"

  /** The interface match vh+. */
  predicate IsNamespaceDevice(device: string) {
    DEVICE_PREFIX <= device
  }

  predicate TouchesNamespace(p: Packet) {
    IsNamespaceDevice(p.input) || IsNamespaceDevice(p.output)
  }

  datatype Match =
    | InDevice(device: string)            // -i device
    | OutDevice(device: string)           // -o device
    | NotFromNamespace                    // ! -i vh+
    | NotToNamespace                      // ! -o vh+
    | Destination(address: Address)       // -d address
    | OutsideRange(range: Range)          // -m iprange ! --dst-range low-high
    | Protocol(protocol: string)          // -p protocol
    | DestinationPort(low: nat, high: nat) // --dport low[:high]
    | StateEstablished                    // -m conntrack --ctstate RELATED,ESTABLISHED
    | StateDNAT                           // -m conntrack --ctstate DNAT
    | IcmpKind(kind: string)              // --icmpv6-type kind
    | Limit                               // -m limit --limit 60/minute
    | Comment(text: string)               // -m comment --comment text

  predicate Holds(m: Match, p: Packet) {
    match m
    case InDevice(device) => p.input == device
    case OutDevice(device) => p.output == device
    case NotFromNamespace => !IsNamespaceDevice(p.input)
    case NotToNamespace => !IsNamespaceDevice(p.output)
    case Destination(address) => p.destination == address
    case OutsideRange(range) => !InRange(p.destination, range)
    case Protocol(protocol) => p.protocol == protocol
    case DestinationPort(low, high) => low <= p.port <= high
    case StateEstablished => p.established
    case StateDNAT => p.natted
    case IcmpKind(kind) => p.icmpKind == kind
    case Limit => p.token
    case Comment(_) => true
  }

  predicate AllHold(ms: seq<Match>, p: Packet) {
    forall m :: m in ms ==> Holds(m, p)
  }

  /** The target of a rule. A rule with no target and a LOG rule let the packet go on. */
  datatype Target = Accept | Drop | Return | Log | NoTarget

  /** One rule of a chain of the daemon. */
  datatype Rule = Rule(chain: string, matches: seq<Match>, target: Target)

  predicate Matches(r: Rule, p: Packet) {
    AllHold(r.matches, p)
  }

  predicate Terminates(r: Rule) {
    r.target.Accept? || r.target.Drop? || r.target.Return?
  }

  /** The verdict of a chain: Back states that the packet goes back to the parent chain, by
      a RETURN rule or at the end of the chain; Through states that no rule took it yet. */
  datatype Verdict = Accepted | Dropped | Returned | Through

  function VerdictOf(t: Target): Verdict {
    match t
    case Accept => Accepted
    case Drop => Dropped
    case Return => Returned
    case _ => Through
  }

  /** First-match evaluation. */
  function Walk(rules: seq<Rule>, p: Packet): Verdict {
    if rules == [] then Through
    else if Matches(rules[0], p) && Terminates(rules[0]) then VerdictOf(rules[0].target)
    else Walk(rules[1..], p)
  }

  /** The packet meets a matching LOG rule before a rule takes it. */
  predicate Logged(rules: seq<Rule>, p: Packet) {
    rules != [] &&
    if Matches(rules[0], p) && rules[0].target.Log? then true
    else if Matches(rules[0], p) && Terminates(rules[0]) then false
    else Logged(rules[1..], p)
  }

  lemma {:induction false} WalkConcat(a: seq<Rule>, b: seq<Rule>, p: Packet)
    ensures Walk(a + b, p) == if Walk(a, p).Through? then Walk(b, p) else Walk(a, p)
    ensures Logged(a + b, p) <==> Logged(a, p) || (Walk(a, p).Through? && Logged(b, p))
  {
    if a == [] {
      assert a + b == b;
    } else {
      assert (a + b)[0] == a[0] && (a + b)[1..] == a[1..] + b;
      WalkConcat(a[1..], b, p);
    }
  }

  predicate AcceptRules(rules: seq<Rule>) {
    forall r :: r in rules ==> r.target.Accept?
  }

  /** A list of accept rules accepts exactly what one of its rules matches, logs nothing, and
      passes on the rest: its order never shows. */
  lemma {:induction false} WalkAcceptRules(rules: seq<Rule>, p: Packet)
    requires AcceptRules(rules)
    ensures Walk(rules, p) == if exists r :: r in rules && Matches(r, p) then Accepted else Through
    ensures !Logged(rules, p)
  {
    if rules != [] {
      WalkAcceptRules(rules[1..], p);
      assert rules == [rules[0]] + rules[1..];
      if Matches(rules[0], p) {
        assert rules[0] in rules;
      }
    }
  }
}
