/** The fingerprint of internal/access/writer.go: the argument lists of the compiled rules,
    the bytes that the hash reads, and why equal bytes mean equal rules. */
module Fingerprint {
  import opened Text
  import N = Netfilter
  import C = AccessCompile
  import F = RestoreFile

  /** net.IP.String of one address family. */
  type AddressText = N.Address -> string

  function PortArgument(low: nat, high: nat): string {
    if high != low then Itoa(low) + ":" + Itoa(high) else Itoa(low)
  }

  function MatchArgs(m: N.Match, text: AddressText): (args: seq<string>)
    ensures |args| >= 2
  {
    match m
    case InDevice(device) => ["-i", device]
    case OutDevice(device) => ["-o", device]
    case NotFromNamespace => ["!", "-i", N.DEVICE_PREFIX + "+"]
    case NotToNamespace => ["!", "-o", N.DEVICE_PREFIX + "+"]
    case Destination(address) => ["-d", text(address)]
    case OutsideRange(range) => ["-m", "iprange", "!", "--dst-range", text(range.low) + "-" + text(range.high)]
    case Protocol(protocol) => ["-p", protocol]
    case DestinationPort(low, high) => ["--dport", PortArgument(low, high)]
    case StateEstablished => ["-m", "conntrack", "--ctstate", "RELATED,ESTABLISHED"]
    case StateDNAT => ["-m", "conntrack", "--ctstate", "DNAT"]
    case IcmpKind(kind) => ["--icmpv6-type", kind]
    case Limit => ["-m", "limit", "--limit", "60/minute"]
    case Comment(comment) => ["-m", "comment", "--comment", comment]
  }

  function TargetArgs(t: N.Target): seq<string> {
    match t
    case Accept => ["-j", "ACCEPT"]
    case Drop => ["-j", "DROP"]
    case Return => ["-j", "RETURN"]
    case Log => ["-j", "LOG", "--log-prefix", "hydrascale-would-deny: "]
    case NoTarget => []
  }

  function Body(ms: seq<N.Match>, t: N.Target, text: AddressText): seq<string> {
    if ms == [] then TargetArgs(t) else MatchArgs(ms[0], text) + Body(ms[1..], t, text)
  }

  /** The argument list of one rule: -A chain, the matches, the target. */
  function Args(r: N.Rule, text: AddressText): seq<string> {
    ["-A", r.chain] + Body(r.matches, r.target, text)
  }

  // ----- the bytes that the hash reads

  function ArgsBytes(args: seq<string>): string {
    if args == [] then "\n" else args[0] + ['\0'] + ArgsBytes(args[1..])
  }

  function RulesBytes(rules: seq<seq<string>>): string {
    if rules == [] then "" else ArgsBytes(rules[0]) + RulesBytes(rules[1..])
  }

  function AllArgs(rules: seq<N.Rule>, text: AddressText): seq<seq<string>> {
    seq(|rules|, i requires 0 <= i < |rules| => Args(rules[i], text))
  }

  /** What fingerprint writes into the hash: forward, out, guard, with no separator. */
  function Serialize(c: C.Compiled, text: AddressText): string {
    RulesBytes(AllArgs(c.forward + c.out + c.guard, text))
  }

  predicate PlainText(s: string) {
    '\0' !in s && '\n' !in s
  }

  predicate PlainArgs(args: seq<string>) {
    forall i :: 0 <= i < |args| ==> PlainText(args[i])
  }

  predicate PlainRules(rules: seq<seq<string>>) {
    forall i :: 0 <= i < |rules| ==> PlainArgs(rules[i])
  }

  /** The index of the first c, and |s| when s holds none. */
  function IndexOf(c: char, s: string): nat {
    if s == [] || s[0] == c then 0 else 1 + IndexOf(c, s[1..])
  }

  lemma {:induction false} IndexAfter(c: char, a: string, x: string)
    requires c !in a
    ensures IndexOf(c, a + [c] + x) == |a|
  {
    if a != [] {
      assert a[0] in a && (a + [c] + x)[1..] == a[1..] + [c] + x;
      IndexAfter(c, a[1..], x);
    }
  }

  /** Two texts that end at the first separator. */
  lemma SplitAt(c: char, a: string, b: string, x: string, y: string)
    requires c !in a && c !in b
    requires a + [c] + x == b + [c] + y
    ensures a == b && x == y
  {
    IndexAfter(c, a, x);
    IndexAfter(c, b, y);
    var s, t := a + [c] + x, b + [c] + y;
    assert a == s[..|a|] && b == t[..|b|];
    assert x == s[|a| + 1..] && y == t[|b| + 1..];
  }

  /** Only an empty list starts with the newline that ends every list. */
  lemma FirstByte(args: seq<string>)
    requires PlainArgs(args)
    ensures ArgsBytes(args) != [] && (ArgsBytes(args)[0] == '\n' <==> args == [])
  {
    if args != [] {
      assert PlainText(args[0]);
      assert ArgsBytes(args)[0] == (args[0] + ['\0'])[0];
      if args[0] != [] {
        assert args[0][0] in args[0];
      }
    }
  }

  lemma {:induction false} ArgsBytesPrefixFree(a: seq<string>, b: seq<string>, x: string, y: string)
    requires PlainArgs(a) && PlainArgs(b)
    requires ArgsBytes(a) + x == ArgsBytes(b) + y
    ensures a == b && x == y
  {
    var s, t := ArgsBytes(a) + x, ArgsBytes(b) + y;
    FirstByte(a);
    FirstByte(b);
    assert s[0] == ArgsBytes(a)[0] && t[0] == ArgsBytes(b)[0];
    assert a == [] <==> b == [];
    if a == [] {
      assert x == s[1..] && y == t[1..];
    } else {
      assert s == a[0] + ['\0'] + (ArgsBytes(a[1..]) + x);
      assert t == b[0] + ['\0'] + (ArgsBytes(b[1..]) + y);
      SplitAt('\0', a[0], b[0], ArgsBytes(a[1..]) + x, ArgsBytes(b[1..]) + y);
      ArgsBytesPrefixFree(a[1..], b[1..], x, y);
      assert a == [a[0]] + a[1..] && b == [b[0]] + b[1..];
    }
  }

  lemma NoBytes(rules: seq<seq<string>>)
    requires PlainRules(rules)
    ensures RulesBytes(rules) == [] <==> rules == []
  {
    if rules != [] {
      FirstByte(rules[0]);
    }
  }

  /** Equal bytes come from equal lists of argument lists. */
  lemma {:induction false} RulesBytesInjective(a: seq<seq<string>>, b: seq<seq<string>>)
    requires PlainRules(a) && PlainRules(b)
    requires RulesBytes(a) == RulesBytes(b)
    ensures a == b
  {
    NoBytes(a);
    NoBytes(b);
    if a != [] {
      ArgsBytesPrefixFree(a[0], b[0], RulesBytes(a[1..]), RulesBytes(b[1..]));
      RulesBytesInjective(a[1..], b[1..]);
      assert a == [a[0]] + a[1..] && b == [b[0]] + b[1..];
    }
  }

  // ----- argument lists are uniquely readable

  lemma OptionTokens()
    ensures "-i" != "-o" && "-i" != "-d" && "-i" != "-m" && "-i" != "-p" && "-i" != "-j"
    ensures "-o" != "-d" && "-o" != "-m" && "-o" != "-p" && "-o" != "-j"
    ensures "-d" != "-m" && "-d" != "-p" && "-d" != "-j"
    ensures "-m" != "-p" && "-m" != "-j" && "-p" != "-j"
    ensures "iprange" != "comment"
    ensures "ACCEPT" != "RETURN"
  {
    assert "-i"[1] == 'i' && "-o"[1] == 'o' && "-d"[1] == 'd' && "-m"[1] == 'm' && "-p"[1] == 'p' && "-j"[1] == 'j';
    assert "iprange"[0] == 'i' && "comment"[0] == 'c';
    assert "ACCEPT"[0] == 'A' && "RETURN"[0] == 'R';
  }

  /** The texts of one family: different addresses print differently, and no text holds the
      hyphen that joins the two ends of a range. */
  ghost predicate Faithful(text: AddressText, bytes: nat) {
    && (forall a, b :: |a| == bytes && |b| == bytes && text(a) == text(b) ==> a == b)
    && (forall a :: |a| == bytes ==> '-' !in text(a) && PlainText(text(a)))
  }

  predicate OfFamily(m: N.Match, bytes: nat) {
    match m
    case Destination(address) => |address| == bytes
    case OutsideRange(range) => |range.low| == bytes && |range.high| == bytes
    case _ => true
  }

  lemma NoColon(n: nat)
    ensures ':' !in Itoa(n)
  {
    assert forall i :: 0 <= i < |Itoa(n)| ==> IsDigit(Itoa(n)[i]);
  }

  lemma ColonStatesRange(low: nat, high: nat)
    ensures ':' in PortArgument(low, high) <==> high != low
  {
    NoColon(low);
    if high != low {
      assert PortArgument(low, high)[|Itoa(low)|] == ':';
    }
  }

  lemma PortArgumentInjective(low: nat, high: nat, low': nat, high': nat)
    requires PortArgument(low, high) == PortArgument(low', high')
    ensures low == low' && high == high'
  {
    ColonStatesRange(low, high);
    ColonStatesRange(low', high');
    AtoiItoa(low);
    AtoiItoa(high);
    AtoiItoa(low');
    AtoiItoa(high');
    if high != low {
      NoColon(low);
      NoColon(low');
      assert Itoa(low) + ":" + Itoa(high) == Itoa(low) + [':'] + Itoa(high);
      assert Itoa(low') + ":" + Itoa(high') == Itoa(low') + [':'] + Itoa(high');
      SplitAt(':', Itoa(low), Itoa(low'), Itoa(high), Itoa(high'));
    }
  }

  /** No argument list of a match starts with the argument list of another match. */
  lemma MatchArgsPrefixFree(a: N.Match, b: N.Match, x: seq<string>, y: seq<string>, text: AddressText, bytes: nat)
    requires Faithful(text, bytes) && OfFamily(a, bytes) && OfFamily(b, bytes)
    requires MatchArgs(a, text) + x == MatchArgs(b, text) + y
    ensures a == b && x == y
  {
    OptionTokens();
    var s, t := MatchArgs(a, text) + x, MatchArgs(b, text) + y;
    assert s[0] == MatchArgs(a, text)[0] && t[0] == MatchArgs(b, text)[0];
    assert s[1] == MatchArgs(a, text)[1] && t[1] == MatchArgs(b, text)[1];
    assert |MatchArgs(a, text)| == 4 && |MatchArgs(b, text)| == 4 ==> s[3] == MatchArgs(a, text)[3] && t[3] == MatchArgs(b, text)[3];
    assert |MatchArgs(a, text)| == 5 && |MatchArgs(b, text)| == 5 ==> s[4] == MatchArgs(a, text)[4] && t[4] == MatchArgs(b, text)[4];
    if a.DestinationPort? && b.DestinationPort? {
      PortArgumentInjective(a.low, a.high, b.low, b.high);
    }
    if a.OutsideRange? && b.OutsideRange? {
      assert text(a.range.low) + "-" + text(a.range.high) == text(a.range.low) + ['-'] + text(a.range.high);
      assert text(b.range.low) + "-" + text(b.range.high) == text(b.range.low) + ['-'] + text(b.range.high);
      SplitAt('-', text(a.range.low), text(b.range.low), text(a.range.high), text(b.range.high));
    }
    assert a == b;
    assert x == s[|MatchArgs(a, text)|..] && y == t[|MatchArgs(a, text)|..];
  }

  lemma TargetArgsInjective(a: N.Target, b: N.Target)
    requires TargetArgs(a) == TargetArgs(b)
    ensures a == b
  {
    OptionTokens();
    if TargetArgs(a) != [] {
      assert TargetArgs(a)[1] == TargetArgs(b)[1];
    }
  }

  /** Only a target starts with -j, and only a rule with no match and no target is empty. */
  lemma BodyHead(ms: seq<N.Match>, t: N.Target, text: AddressText)
    ensures var body := Body(ms, t, text);
      && (body == [] <==> ms == [] && t == N.NoTarget)
      && (body != [] ==> (body[0] == "-j" <==> ms == []))
  {
    OptionTokens();
    if ms != [] {
      var head := MatchArgs(ms[0], text);
      assert Body(ms, t, text)[0] == head[0];
      assert head[0] != "-j";
    }
  }

  lemma {:induction false} BodyInjective(ms: seq<N.Match>, t: N.Target, ms': seq<N.Match>, t': N.Target, text: AddressText, bytes: nat)
    requires Faithful(text, bytes)
    requires (forall m :: m in ms ==> OfFamily(m, bytes)) && (forall m :: m in ms' ==> OfFamily(m, bytes))
    requires Body(ms, t, text) == Body(ms', t', text)
    ensures ms == ms' && t == t'
  {
    BodyHead(ms, t, text);
    BodyHead(ms', t', text);
    if ms == [] {
      TargetArgsInjective(t, t');
    } else {
      MatchArgsPrefixFree(ms[0], ms'[0], Body(ms[1..], t, text), Body(ms'[1..], t', text), text, bytes);
      BodyInjective(ms[1..], t, ms'[1..], t', text, bytes);
      assert ms == [ms[0]] + ms[1..] && ms' == [ms'[0]] + ms'[1..];
    }
  }

  predicate RuleOfFamily(r: N.Rule, bytes: nat) {
    forall m :: m in r.matches ==> OfFamily(m, bytes)
  }

  lemma ArgsInjective(a: N.Rule, b: N.Rule, text: AddressText, bytes: nat)
    requires Faithful(text, bytes) && RuleOfFamily(a, bytes) && RuleOfFamily(b, bytes)
    requires Args(a, text) == Args(b, text)
    ensures a == b
  {
    assert Args(a, text)[1] == a.chain && Args(b, text)[1] == b.chain;
    assert Body(a.matches, a.target, text) == Args(a, text)[2..];
    assert Body(b.matches, b.target, text) == Args(b, text)[2..];
    BodyInjective(a.matches, a.target, b.matches, b.target, text, bytes);
  }

  /** What the compiler promises about its output, for the fingerprint. */
  predicate Serializable(c: C.Compiled, text: AddressText, bytes: nat) {
    && F.WellFormed(c)
    && c.out != []
    && (forall r :: r in c.forward + c.out + c.guard ==> RuleOfFamily(r, bytes) && PlainArgs(Args(r, text)))
  }

  /** The end of the leading rules of one chain. */
  function Leading(rules: seq<N.Rule>, chain: string): nat {
    if rules == [] || rules[0].chain != chain then 0 else 1 + Leading(rules[1..], chain)
  }

  lemma {:induction false} LeadingEnds(a: seq<N.Rule>, b: seq<N.Rule>, chain: string)
    requires F.InChain(a, chain)
    requires b != [] ==> b[0].chain != chain
    ensures Leading(a + b, chain) == |a|
  {
    if a == [] {
      assert a + b == b;
    } else {
      assert a[0] in a && (a + b)[1..] == a[1..] + b;
      LeadingEnds(a[1..], b, chain);
    }
  }

  /** A list of rules falls apart in one way into forward rules, out rules and guard rules,
      although nothing separates the three lists. */
  lemma PartsUnique(a: C.Compiled, b: C.Compiled)
    requires F.WellFormed(a) && F.WellFormed(b) && a.out != [] && b.out != []
    requires a.forward + a.out + a.guard == b.forward + b.out + b.guard
    ensures a == b
  {
    assert C.FORWARD_CHAIN[11] != C.OUT_CHAIN[11];
    Parts(a);
    Parts(b);
    var s := a.forward + a.out + a.guard;
    var i := Leading(s, C.FORWARD_CHAIN);
    assert s == b.forward + b.out + b.guard;
    assert a.forward == s[..i] && b.forward == s[..i];
    assert a.out + a.guard == s[i..] && b.out + b.guard == s[i..];
    var j := Leading(s[i..], C.OUT_CHAIN);
    assert a.out == s[i..][..j] && b.out == s[i..][..j];
    assert a.guard == s[i..][j..] && b.guard == s[i..][j..];
  }

  lemma Parts(c: C.Compiled)
    requires F.WellFormed(c) && c.out != []
    ensures Leading(c.forward + c.out + c.guard, C.FORWARD_CHAIN) == |c.forward|
    ensures Leading(c.out + c.guard, C.OUT_CHAIN) == |c.out|
  {
    assert C.FORWARD_CHAIN[11] != C.OUT_CHAIN[11];
    assert c.out[0] in c.out;
    assert c.guard != [] ==> c.guard[0] in c.guard;
    assert c.forward + c.out + c.guard == c.forward + (c.out + c.guard);
    LeadingEnds(c.forward, c.out + c.guard, C.FORWARD_CHAIN);
    LeadingEnds(c.out, c.guard, C.OUT_CHAIN);
  }

  lemma {:induction false} AllArgsInjective(a: seq<N.Rule>, b: seq<N.Rule>, text: AddressText, bytes: nat)
    requires Faithful(text, bytes)
    requires (forall r :: r in a ==> RuleOfFamily(r, bytes)) && (forall r :: r in b ==> RuleOfFamily(r, bytes))
    requires AllArgs(a, text) == AllArgs(b, text)
    ensures a == b
  {
    assert |a| == |AllArgs(a, text)| == |b|;
    forall i | 0 <= i < |a|
      ensures a[i] == b[i]
    {
      assert Args(a[i], text) == AllArgs(a, text)[i] == AllArgs(b, text)[i] == Args(b[i], text);
      assert a[i] in a && b[i] in b;
      ArgsInjective(a[i], b[i], text, bytes);
    }
  }

  lemma SerializablePlain(c: C.Compiled, text: AddressText, bytes: nat)
    requires Serializable(c, text, bytes)
    ensures PlainRules(AllArgs(c.forward + c.out + c.guard, text))
  {
    var rules := c.forward + c.out + c.guard;
    forall i | 0 <= i < |rules|
      ensures PlainArgs(AllArgs(rules, text)[i])
    {
      assert rules[i] in rules;
    }
  }

  /** Equal serialisations come from equal compiled sets: the same guard, forward and out
      rules, match by match. */
  lemma SerializeInjective(a: C.Compiled, b: C.Compiled, text: AddressText, bytes: nat)
    requires Faithful(text, bytes) && Serializable(a, text, bytes) && Serializable(b, text, bytes)
    requires Serialize(a, text) == Serialize(b, text)
    ensures a == b
  {
    var ra, rb := a.forward + a.out + a.guard, b.forward + b.out + b.guard;
    SerializablePlain(a, text, bytes);
    SerializablePlain(b, text, bytes);
    RulesBytesInjective(AllArgs(ra, text), AllArgs(rb, text));
    AllArgsInjective(ra, rb, text, bytes);
    PartsUnique(a, b);
  }

  /** fingerprint: the three loops that feed the hash. */
  method Bytes(c: C.Compiled, text: AddressText) returns (fed: string)
    ensures fed == Serialize(c, text)
  {
    fed := "";
    var lists := [c.forward, c.out, c.guard];
    for l := 0 to 3
      invariant fed == RulesBytes(AllArgs(if l == 0 then [] else if l == 1 then c.forward else if l == 2 then c.forward + c.out else c.forward + c.out + c.guard, text))
    {
      var done := if l == 0 then [] else if l == 1 then c.forward else c.forward + c.out;
      assert l == 0 ==> done + lists[l] == c.forward;
      fed := FeedRules(fed, done, lists[l], text);
    }
  }

  method FeedRules(fed: string, ghost done: seq<N.Rule>, rules: seq<N.Rule>, text: AddressText) returns (r: string)
    requires fed == RulesBytes(AllArgs(done, text))
    ensures r == RulesBytes(AllArgs(done + rules, text))
  {
    r := fed;
    assert done + rules[..0] == done;
    for i := 0 to |rules|
      invariant r == RulesBytes(AllArgs(done + rules[..i], text))
    {
      var args := Args(rules[i], text);
      var line := "";
      for k := 0 to |args|
        invariant line + ArgsBytes(args[k..]) == ArgsBytes(args)
      {
        line := line + args[k];
        line := line + ['\0'];
        assert args[k..][0] == args[k] && args[k..][1..] == args[k + 1..];
        assert ArgsBytes(args[k..]) == args[k] + ['\0'] + ArgsBytes(args[k + 1..]);
      }
      line := line + "\n";
      assert args[|args|..] == [];
      assert line == ArgsBytes(args);
      RulesBytesLast(AllArgs(done + rules[..i], text), args);
      assert AllArgs(done + rules[..i + 1], text) == AllArgs(done + rules[..i], text) + [args] by {
        assert done + rules[..i + 1] == done + rules[..i] + [rules[i]];
      }
      r := r + line;
    }
    assert rules[..|rules|] == rules;
  }

  lemma {:induction false} RulesBytesLast(rules: seq<seq<string>>, last: seq<string>)
    ensures RulesBytes(rules + [last]) == RulesBytes(rules) + ArgsBytes(last)
  {
    if rules == [] {
      assert [last][1..] == [];
      assert RulesBytes([]) + ArgsBytes(last) == ArgsBytes(last) + RulesBytes([]);
    } else {
      assert (rules + [last])[0] == rules[0] && (rules + [last])[1..] == rules[1..] + [last];
      RulesBytesLast(rules[1..], last);
    }
  }
}
