/** internal/access/rules.go: the rule model, the port parser and the validator. */
module AccessRules {
  import opened Text

  const HOST := "host"
  const INTERNET := "internet"
  const ENFORCE := "enforce"
  const OBSERVE := "observe"

  datatype Rule = Rule(from: string, to: string, ports: seq<string>)

  datatype RuleSet = RuleSet(mode: string, rules: seq<Rule>)

  function EffectiveMode(access: RuleSet): string {
    if access.mode == "" then ENFORCE else access.mode
  }

  datatype Port = Port(protocol: string, low: nat, high: nat)

  datatype PortError = BadForm | OutsideNumbers | Reversed | IsARange

  predicate IsPortText(s: string) {
    1 <= |s| <= 5 && AllDigits(s)
  }

  predicate IsPortNumber(n: nat) {
    1 <= n <= 65535
  }

  /** The index of the first hyphen, and |s| when s holds none. */
  function HyphenIndex(s: string): (i: nat)
    ensures i <= |s|
    ensures i < |s| ==> s[i] == '-'
    ensures forall k :: 0 <= k < i ==> s[k] != '-'
  {
    if s == [] || s[0] == '-' then 0 else 1 + HyphenIndex(s[1..])
  }

  /** One port entry of a rule: tcp/22 or udp/1-1024. The form is the pattern
      (tcp|udp)/d{1,5}(-d{1,5})?, and each number is between 1 and 65535. */
  function ParsePort(entry: string): Result<Port, PortError> {
    if |entry| < 4 || entry[..4] !in ["tcp/", "udp/"] then Err(BadForm)
    else
      var protocol := entry[..3];
      var rest := entry[4..];
      var at := HyphenIndex(rest);
      if !IsPortText(rest[..at]) then Err(BadForm)
      else if at < |rest| && !IsPortText(rest[at + 1..]) then Err(BadForm)
      else
        var low := Atoi(rest[..at]);
        if !IsPortNumber(low) then Err(OutsideNumbers)
        else if at == |rest| then Ok(Port(protocol, low, low))
        else
          var high := Atoi(rest[at + 1..]);
          if !IsPortNumber(high) then Err(OutsideNumbers)
          else if high < low then Err(Reversed)
          else Ok(Port(protocol, low, high))
  }

  predicate IsPort(p: Port) {
    p.protocol in ["tcp", "udp"] && IsPortNumber(p.low) && IsPortNumber(p.high) && p.low <= p.high
  }

  /** The text of a port entry. */
  function PortText(p: Port): string {
    p.protocol + "/" + if p.high == p.low then Itoa(p.low) else Itoa(p.low) + ("-" + Itoa(p.high))
  }

  lemma ParsePortIsPort(entry: string)
    ensures ParsePort(entry).Ok? ==> IsPort(ParsePort(entry).value)
  {
    if ParsePort(entry).Ok? {
      assert entry[..3] == entry[..4][..3];
      assert "tcp/"[..3] == "tcp" && "udp/"[..3] == "udp";
    }
  }

  /** The hyphen of a port text stands right after the lower number. */
  lemma HyphenAfterDigits(digits: string, rest: string)
    requires AllDigits(digits)
    requires rest == [] || rest[0] == '-'
    ensures HyphenIndex(digits + rest) == |digits|
  {
    var text := digits + rest;
    assert forall k :: 0 <= k < |digits| ==> text[k] == digits[k] && IsDigit(digits[k]);
    if rest != [] {
      assert text[|digits|] == '-';
    }
  }

  lemma ParseParts(entry: string, protocol: string, rest: string)
    requires protocol in ["tcp", "udp"] && entry == protocol + "/" + rest
    ensures |entry| >= 4 && entry[..4] in ["tcp/", "udp/"] && entry[..3] == protocol && entry[4..] == rest
  {
    assert entry[..4] == protocol + "/";
    assert "tcp" + "/" == "tcp/" && "udp" + "/" == "udp/";
  }

  lemma NumberText(n: nat)
    requires IsPortNumber(n)
    ensures IsPortText(Itoa(n)) && Atoi(Itoa(n)) == n
  {
    ItoaLength(n);
    AtoiItoa(n);
  }

  predicate OneNumber(entry: string, protocol: string, text: string) {
    entry == protocol + "/" + text && 1 <= |text| <= 5 && AllDigits(text)
  }

  predicate TwoNumbers(entry: string, protocol: string, low: string, high: string) {
    && entry == protocol + "/" + (low + ("-" + high))
    && 1 <= |low| <= 5 && AllDigits(low) && 1 <= |high| <= 5 && AllDigits(high)
  }

  predicate HasForm(entry: string, protocol: string, low: string, high: string) {
    (protocol == "tcp" || protocol == "udp") && (OneNumber(entry, protocol, low) || TwoNumbers(entry, protocol, low, high))
  }

  /** What the parser answers on each of the two forms. */
  lemma ParsePortOfForm(entry: string, protocol: string, low: string, high: string)
    requires protocol == "tcp" || protocol == "udp"
    ensures OneNumber(entry, protocol, low) ==>
      ParsePort(entry) == if 1 <= Atoi(low) <= 65535 then Ok(Port(protocol, Atoi(low), Atoi(low))) else Err(OutsideNumbers)
    ensures TwoNumbers(entry, protocol, low, high) ==>
      ParsePort(entry) ==
        if !(1 <= Atoi(low) <= 65535 && 1 <= Atoi(high) <= 65535) then Err(OutsideNumbers)
        else if Atoi(high) < Atoi(low) then Err(Reversed)
        else Ok(Port(protocol, Atoi(low), Atoi(high)))
  {
    if OneNumber(entry, protocol, low) {
      ParseParts(entry, protocol, low);
      HyphenAfterDigits(low, "");
      assert low + "" == low && low[..|low|] == low;
    }
    if TwoNumbers(entry, protocol, low, high) {
      var rest := low + ("-" + high);
      ParseParts(entry, protocol, rest);
      HyphenAfterDigits(low, "-" + high);
      assert rest[..|low|] == low && rest[|low| + 1..] == high;
    }
  }

  /** The parser refuses the form of exactly the entries that have neither form. */
  lemma ParsePortRefusesTheForm(entry: string)
    ensures ParsePort(entry) == Err(BadForm) <==>
      !exists protocol, low, high :: HasForm(entry, protocol, low, high)
  {
    if ParsePort(entry) != Err(BadForm) {
      var rest := entry[4..];
      var at := HyphenIndex(rest);
      assert entry[..3] == entry[..4][..3] && "tcp/"[..3] == "tcp" && "udp/"[..3] == "udp";
      assert entry == entry[..4] + rest;
      assert entry[..4] == entry[..3] + "/";
      if at == |rest| {
        assert rest[..at] == rest;
        assert HasForm(entry, entry[..3], rest, rest);
      } else {
        assert rest == rest[..at] + ("-" + rest[at + 1..]);
        assert HasForm(entry, entry[..3], rest[..at], rest[at + 1..]);
      }
    }
    forall protocol, low, high | HasForm(entry, protocol, low, high)
      ensures ParsePort(entry) != Err(BadForm)
    {
      ParsePortOfForm(entry, protocol, low, high);
    }
  }

  /** ParsePublishPort: one published port is one port and never a range. */
  function ParsePublishPort(entry: string): Result<Port, PortError> {
    match ParsePort(entry)
    case Err(e) => Err(e)
    case Ok(p) => if p.high != p.low then Err(IsARange) else Ok(p)
  }

  /** Every port has an entry that parses back to it, so the parser refuses no port and it
      swaps no two numbers. */
  lemma ParsePortRoundTrip(p: Port)
    requires IsPort(p)
    ensures ParsePort(PortText(p)) == Ok(p)
  {
    var low, high := Itoa(p.low), Itoa(p.high);
    NumberText(p.low);
    NumberText(p.high);
    ParsePortOfForm(PortText(p), p.protocol, low, high);
  }

  /** A published port is an entry of one port: a range of one port is one too. */
  lemma ParsePublishPortExactly(entry: string)
    ensures ParsePublishPort(entry).Ok? <==> ParsePort(entry).Ok? && ParsePort(entry).value.low == ParsePort(entry).value.high
    ensures ParsePublishPort(entry).Ok? ==> ParsePublishPort(entry) == ParsePort(entry)
    ensures ParsePublishPort(entry) == Err(IsARange) <==> ParsePort(entry).Ok? && ParsePort(entry).value.low < ParsePort(entry).value.high
    ensures ParsePort(entry).Err? ==> ParsePublishPort(entry) == ParsePort(entry)
  {
    ParsePortIsPort(entry);
  }

  /** The examples of the documentation, and entries that the parser refuses. */
  lemma PortEntries(entry: string)
    ensures entry == "tcp/22" ==> ParsePort(entry) == Ok(Port("tcp", 22, 22))
    ensures entry == "udp/1-22" ==> ParsePort(entry) == Ok(Port("udp", 1, 22))
    ensures entry == "tcp/22-1" ==> ParsePort(entry) == Err(Reversed)
    ensures entry == "tcp/0" ==> ParsePort(entry) == Err(OutsideNumbers)
    ensures entry == "tcp-22" ==> ParsePort(entry) == Err(BadForm)
  {
    NumberTexts();
    var one, many := "22", "1";
    assert "tcp" + "/" + one == "tcp/22" && "tcp" + "/" + "0" == "tcp/0";
    assert "udp" + "/" + (many + ("-" + one)) == "udp/1-22" && "tcp" + "/" + (one + ("-" + many)) == "tcp/22-1";
    ParsePortOfForm(entry, "tcp", one, many);
    ParsePortOfForm(entry, "udp", many, one);
    ParsePortOfForm(entry, "tcp", "0", "0");
    assert entry == "tcp-22" ==> entry[..4][3] == '-';
  }

  predicate ValidMode(mode: string) {
    mode in ["", ENFORCE, OBSERVE]
  }

  predicate ValidRule(r: Rule, declared: set<string>) {
    && r.from != "" && r.from != INTERNET
    && (r.from == HOST || r.from in declared)
    && r.to != ""
    && (r.to == HOST || r.to == INTERNET || r.to in declared)
    && r.from != r.to
    && forall entry :: entry in r.ports ==> ParsePort(entry).Ok?
  }

  /** No check of the rule fails: an end is a declared tailnet or one of the two words. */
  predicate PassesEveryCheck(r: Rule, declared: set<string>) {
    && !(r.from == "" || r.from == "internet" || (r.from != "host" && r.from !in declared))
    && !(r.to == "" || (r.to != "host" && r.to != "internet" && r.to !in declared))
    && r.from != r.to
    && forall entry :: entry in r.ports ==> ParsePort(entry).Ok?
  }

  predicate ValidSet(access: RuleSet, declared: set<string>) {
    ValidMode(access.mode) && forall r :: r in access.rules ==> ValidRule(r, declared)
  }

  /** RuleSet.Validate: the mode failure and the number of every rule that fails, together. */
  method Validate(access: RuleSet, declared: set<string>) returns (badMode: bool, badRules: seq<nat>)
    ensures badMode <==> !ValidMode(access.mode)
    ensures forall i :: 0 <= i < |access.rules| ==> (i + 1 in badRules <==> !ValidRule(access.rules[i], declared))
    ensures !badMode && badRules == [] <==> ValidSet(access, declared)
    ensures badMode <==> access.mode !in ["", "enforce", "observe"]
    ensures forall i :: 0 <= i < |access.rules| ==> (i + 1 !in badRules <==> PassesEveryCheck(access.rules[i], declared))
  {
    badMode := !ValidMode(access.mode);
    badRules := [];
    for i := 0 to |access.rules|
      invariant forall k :: 0 <= k < i ==> (k + 1 in badRules <==> !ValidRule(access.rules[k], declared))
      invariant forall n :: n in badRules ==> 1 <= n <= i && !ValidRule(access.rules[n - 1], declared)
    {
      if !ValidRule(access.rules[i], declared) {
        badRules := badRules + [i + 1];
      }
    }
    if badRules != [] {
      assert badRules[0] in badRules;
      assert access.rules[badRules[0] - 1] in access.rules;
    }
  }

  /** The port list of a rule covers one protocol and port. An empty list covers every one. */
  predicate PortsCover(ports: seq<string>, protocol: string, number: nat) {
    ports == [] ||
    exists entry :: entry in ports && EntryCovers(entry, protocol, number)
  }

  predicate EntryCovers(entry: string, protocol: string, number: nat) {
    ParsePort(entry).Ok? &&
    var p := ParsePort(entry).value;
    p.protocol == protocol && p.low <= number <= p.high
  }

  /** RuleSet.CoversHost: the search loop answers whether some rule from the tailnet to the
      host covers the port. */
  method CoversHost(access: RuleSet, from: string, protocol: string, number: nat) returns (covers: bool)
    ensures covers <==>
      exists r :: r in access.rules && r.from == from && r.to == "host" && PortsCover(r.ports, protocol, number)
  {
    for i := 0 to |access.rules|
      invariant forall r :: r in access.rules[..i] && r.from == from && r.to == HOST ==> !PortsCover(r.ports, protocol, number)
    {
      var rule := access.rules[i];
      assert access.rules[..i + 1] == access.rules[..i] + [rule];
      if rule.from == from && rule.to == HOST {
        if |rule.ports| == 0 {
          return true;
        }
        for k := 0 to |rule.ports|
          invariant forall entry :: entry in rule.ports[..k] ==> !EntryCovers(entry, protocol, number)
        {
          assert rule.ports[..k + 1] == rule.ports[..k] + [rule.ports[k]];
          var parsed := ParsePort(rule.ports[k]);
          if parsed.Ok? && parsed.value.protocol == protocol && parsed.value.low <= number <= parsed.value.high {
            assert EntryCovers(rule.ports[k], protocol, number);
            return true;
          }
        }
        assert rule.ports[..|rule.ports|] == rule.ports;
      }
    }
    assert access.rules[..|access.rules|] == access.rules;
    return false;
  }
}
