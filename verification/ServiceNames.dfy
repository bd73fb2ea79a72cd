/** The names that the host gives peers and services (internal/hostaccess/peers.go). */
module ServiceNames {
  import opened Text
  import S = SplitDns

  const SERVICE_PREFIX := "svc:"

  // ----- the label of a service

  predicate LabelChar(c: char) {
    'a' <= c <= 'z' || '0' <= c <= '9'
  }

  /** TrimSpace, ToLower and TrimPrefix. */
  function Stripped(name: string): string {
    var n := S.Lower(S.TrimRight(S.TrimLeft(name)));
    if SERVICE_PREFIX <= n then n[|SERVICE_PREFIX|..] else n
  }

  function Mapped(s: string): (r: string)
    ensures |r| == |s|
  {
    seq(|s|, i requires 0 <= i < |s| => if LabelChar(s[i]) then s[i] else '-')
  }

  function TrimHyphensLeft(s: string): string {
    if s != [] && s[0] == '-' then TrimHyphensLeft(s[1..]) else s
  }

  /** strings.TrimRight of hyphens. */
  function TrimHyphensRight(s: string): string {
    if s != [] && s[|s| - 1] == '-' then TrimHyphensRight(s[..|s| - 1]) else s
  }

  /** strings.ReplaceAll of two hyphens by one, from the left. */
  function Halved(s: string): string {
    if s == [] then []
    else if |s| > 1 && s[0] == '-' && s[1] == '-' then ['-'] + Halved(s[2..])
    else [s[0]] + Halved(s[1..])
  }

  /** Every run of hyphens as one hyphen. */
  function Collapsed(s: string): string {
    if s == [] then []
    else if |s| > 1 && s[0] == '-' && s[1] == '-' then Collapsed(s[1..])
    else [s[0]] + Collapsed(s[1..])
  }

  predicate TwoAt(s: string, i: nat) {
    i + 1 < |s| && s[i] == '-' && s[i + 1] == '-'
  }

  predicate NoTwo(s: string) {
    forall i: nat :: i < |s| ==> !TwoAt(s, i)
  }

  lemma {:induction false} HalvedShrinks(s: string)
    ensures |Halved(s)| <= |s| && (!NoTwo(s) ==> |Halved(s)| < |s|)
    ensures Halved(s) == [] <==> s == []
    ensures s != [] ==> (Halved(s)[0] == '-' <==> s[0] == '-')
  {
    if s != [] {
      if |s| > 1 && s[0] == '-' && s[1] == '-' {
        HalvedShrinks(s[2..]);
      } else {
        HalvedShrinks(s[1..]);
        if !NoTwo(s) {
          var i: nat :| i < |s| && TwoAt(s, i);
          assert TwoAt(s[1..], i - 1);
        }
      }
    }
  }

  /** One replacement leaves the collapsed text, so the loop that repeats it reaches the text
      in which every run is one hyphen. */
  lemma {:induction false} HalvedCollapsesTheSame(s: string)
    ensures Collapsed(Halved(s)) == Collapsed(s)
    decreases |s|
  {
    if s != [] {
      var two := |s| > 1 && s[0] == '-' && s[1] == '-';
      var rest := if two then s[2..] else s[1..];
      HalvedCollapsesTheSame(rest);
      HalvedShrinks(rest);
      var h := Halved(s);
      assert h[1..] == Halved(rest);
      if two {
        assert s[1..][1..] == rest;
      }
    }
  }

  lemma {:induction false} CollapsedIsFixed(s: string)
    requires NoTwo(s)
    ensures Collapsed(s) == s
  {
    if s != [] {
      assert !TwoAt(s, 0);
      forall i: nat | i < |s[1..]|
        ensures !TwoAt(s[1..], i)
      {
        assert !TwoAt(s, i + 1);
      }
      CollapsedIsFixed(s[1..]);
    }
  }

  lemma {:induction false} CollapsedHasNoTwo(s: string)
    ensures NoTwo(Collapsed(s)) && (s != [] ==> Collapsed(s) != [] && Collapsed(s)[0] == s[0])
  {
    if s != [] {
      CollapsedHasNoTwo(s[1..]);
      var c := Collapsed(s);
      if !(|s| > 1 && s[0] == '-' && s[1] == '-') {
        forall i: nat | i < |c|
          ensures !TwoAt(c, i)
        {
          assert i > 0 ==> (TwoAt(c, i) <==> TwoAt(c[1..], i - 1));
        }
      }
    }
  }

  /** The loop that replaces two hyphens by one until none is left. */
  method Collapse(s: string) returns (text: string)
    ensures text == Collapsed(s)
  {
    text := s;
    while !NoTwo(text)
      invariant Collapsed(text) == Collapsed(s)
      decreases |text|
    {
      HalvedCollapsesTheSame(text);
      HalvedShrinks(text);
      text := Halved(text);
    }
    CollapsedIsFixed(text);
  }

  function Cut(s: string): string {
    if |s| > 63 then TrimHyphensRight(s[..63]) else s
  }

  /** serviceLabel, where an empty label stands for none. */
  function Label(name: string): string {
    Cut(Collapsed(TrimHyphensRight(TrimHyphensLeft(Mapped(Stripped(name))))))
  }

  /** serviceLabelPattern, or no label, and no two hyphens in a row. */
  predicate IsLabel(l: string) {
    && |l| <= 63 && (forall i :: 0 <= i < |l| ==> LabelChar(l[i]) || l[i] == '-')
    && (l != "" ==> LabelChar(l[0]) && LabelChar(l[|l| - 1]))
    && NoTwo(l)
  }

  predicate Plain(s: string) {
    forall i :: 0 <= i < |s| ==> LabelChar(s[i]) || s[i] == '-'
  }

  /** The text starts and ends with a letter or a digit, if it holds one at all. */
  predicate Trimmed(s: string) {
    Plain(s) && (s != "" ==> LabelChar(s[0]) && LabelChar(s[|s| - 1]))
  }

  predicate SomeLabelChar(s: string) {
    exists i :: 0 <= i < |s| && LabelChar(s[i])
  }

  lemma {:induction false} TrimLeftShape(s: string)
    requires Plain(s)
    ensures var t := TrimHyphensLeft(s); Plain(t) && (t != "" ==> LabelChar(t[0])) && (t != "" <==> SomeLabelChar(s))
  {
    if s != "" && s[0] == '-' {
      TrimLeftShape(s[1..]);
      assert SomeLabelChar(s) <==> SomeLabelChar(s[1..]) by {
        if SomeLabelChar(s) {
          var i :| 0 <= i < |s| && LabelChar(s[i]);
          assert s[1..][i - 1] == s[i];
        }
      }
    }
  }

  lemma {:induction false} TrimRightShape(s: string)
    requires Plain(s) && (s != "" ==> LabelChar(s[0]))
    ensures var t := TrimHyphensRight(s); Trimmed(t) && (t != "" <==> s != "") && t <= s
  {
    if s != "" && s[|s| - 1] == '-' {
      TrimRightShape(s[..|s| - 1]);
    }
  }

  lemma {:induction false} CollapsedShape(s: string)
    requires Plain(s)
    ensures Plain(Collapsed(s)) && (s != "" ==> Collapsed(s) != "" && Collapsed(s)[|Collapsed(s)| - 1] == s[|s| - 1])
  {
    if s != "" {
      CollapsedShape(s[1..]);
      if |s| == 1 {
        assert s[1..] == "";
      }
    }
  }

  lemma CutShape(s: string)
    requires Trimmed(s) && NoTwo(s)
    ensures IsLabel(Cut(s)) && (Cut(s) != "" <==> s != "")
  {
    if |s| > 63 {
      TrimRightShape(s[..63]);
      var t := Cut(s);
      forall i: nat | i < |t|
        ensures !TwoAt(t, i)
      {
        assert !TwoAt(s, i);
      }
    }
  }

  /** Every label is one DNS label, and a service has one exactly when its name holds a letter
      or a digit behind the prefix. */
  lemma LabelIsADnsLabel(name: string)
    ensures IsLabel(Label(name))
    ensures Label(name) != "" <==> SomeLabelChar(Stripped(name))
  {
    var m := Mapped(Stripped(name));
    var l := TrimHyphensLeft(m);
    var r := TrimHyphensRight(l);
    var s := Stripped(name);
    assert forall i :: 0 <= i < |s| ==> (LabelChar(m[i]) <==> LabelChar(s[i]));
    TrimLeftShape(m);
    TrimRightShape(l);
    CollapsedShape(r);
    CollapsedHasNoTwo(r);
    CutShape(Collapsed(r));
  }

  lemma LabelIsPlainText(l: string)
    requires IsLabel(l)
    ensures Stripped(l) == l && Mapped(l) == l
    ensures TrimHyphensLeft(l) == l && TrimHyphensRight(l) == l
  {
    if l != "" {
      assert !S.IsSpace(l[0]) && !S.IsSpace(l[|l| - 1]);
      assert S.TrimLeft(l) == l && S.TrimRight(l) == l;
      assert S.Lower(l) == l;
      assert |l| > 3 ==> l[3] != ':';
      assert SERVICE_PREFIX[3] == ':';
    }
  }

  /** The name of a service is stable: the label of a label is that label. */
  lemma LabelOfLabel(name: string)
    ensures Label(Label(name)) == Label(name)
  {
    var l := Label(name);
    LabelIsADnsLabel(name);
    LabelIsPlainText(l);
    CollapsedIsFixed(l);
  }
}
