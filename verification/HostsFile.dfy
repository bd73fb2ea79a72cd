/** The managed block of the hosts file (internal/hostaccess/hosts.go). */
module HostsFile {
  import opened Text

  const MANAGED := "HYDRASCALE MANAGED BLOCK"
  const BEGIN := "# BEGIN " + (MANAGED + " - DO NOT EDIT")
  const END := "# END " + MANAGED

  // ----- where a marker stands

  predicate At(s: string, mark: string, i: nat) {
    i + |mark| <= |s| && forall j {:trigger mark[j]} :: 0 <= j < |mark| ==> s[i + j] == mark[j]
  }

  /** strings.Index: the first place of the marker. */
  function Index(s: string, mark: string): (r: Option<nat>)
    ensures r.Some? ==> At(s, mark, r.value) && forall k: nat :: k < r.value ==> !At(s, mark, k)
    ensures r.None? ==> forall k: nat :: !At(s, mark, k)
  {
    IndexFrom(s, mark, 0)
  }

  function IndexFrom(s: string, mark: string, i: nat): (r: Option<nat>)
    requires forall k: nat :: k < i ==> !At(s, mark, k)
    ensures r.Some? ==> At(s, mark, r.value) && forall k: nat :: k < r.value ==> !At(s, mark, k)
    ensures r.None? ==> forall k: nat :: !At(s, mark, k)
    decreases |s| + 1 - i
  {
    if i > |s| then None
    else if At(s, mark, i) then Some(i)
    else IndexFrom(s, mark, i + 1)
  }

  predicate Without(s: string, c: char) {
    forall j :: 0 <= j < |s| ==> s[j] != c
  }

  /** A marker starts with the only hash sign that it holds, and it holds no newline. */
  predicate IsMarker(mark: string) {
    mark != "" && mark[0] == '#' && (forall j :: 0 < j < |mark| ==> mark[j] != '#') && Without(mark, '\n')
  }

  lemma ManagedIsPlain()
    ensures Without(MANAGED, '#') && Without(MANAGED, '\n')
  {
  }

  lemma ClosingIsPlain()
    ensures Without(" - DO NOT EDIT", '#') && Without(" - DO NOT EDIT", '\n')
  {
  }

  lemma MarkersAreMarkers()
    ensures IsMarker(BEGIN) && IsMarker(END)
    ensures BEGIN[2] != END[2]
  {
    ManagedIsPlain();
    ClosingIsPlain();
  }

  /** No marker reaches across the start of a text that starts with a hash sign. */
  lemma AtSplit(p: string, x: string, mark: string, i: nat)
    requires IsMarker(mark) && x != "" && x[0] == '#'
    ensures At(p + x, mark, i) <==> At(p, mark, i) || (i >= |p| && At(x, mark, i - |p|))
  {
    var s, d := p + x, |p| - i;
    assert 0 < d < |mark| ==> mark[d] != '#';
    assert s[|p|] == '#';
  }

  lemma AtNewline(p: string, mark: string, i: nat)
    requires IsMarker(mark)
    ensures At(p + "\n", mark, i) <==> At(p, mark, i)
  {
    var s := p + "\n";
    assert s[|p|] == '\n' && mark[|mark| - 1] != '\n';
  }

  // ----- the block

  /** A block with a body between its marker lines. */
  function BlockOf(body: string): string {
    BEGIN + ("\n" + (body + (END + "\n")))
  }

  function EndAt(body: string): nat {
    |BEGIN| + 1 + |body|
  }

  /** The text holds no marker. */
  ghost predicate Clean(s: string) {
    forall i: nat :: !At(s, BEGIN, i) && !At(s, END, i)
  }

  /** No marker reaches across a newline. */
  lemma AtLine(p: string, q: string, mark: string, i: nat)
    requires IsMarker(mark)
    ensures At(p + ("\n" + q), mark, i) <==> At(p, mark, i) || (i > |p| && At(q, mark, i - |p| - 1))
  {
    var s, d := p + ("\n" + q), |p| - i;
    assert s[|p|] == '\n';
    assert 0 <= d < |mark| ==> mark[d] != '\n';
    if i > |p| {
      assert forall j :: 0 <= j < |q| ==> s[|p| + 1 + j] == q[j];
    }
  }

  /** A marker holds itself once and not the other one. */
  lemma AtMarker(i: nat)
    ensures At(BEGIN, BEGIN, i) <==> i == 0
    ensures At(END, END, i) <==> i == 0
    ensures !At(BEGIN, END, i) && !At(END, BEGIN, i)
  {
    MarkersAreMarkers();
    assert BEGIN[0] == END[0] == '#';
  }

  lemma AtBehind(body: string, mark: string, i: nat)
    requires IsMarker(mark) && !At(body, mark, i)
    ensures At(body + (END + "\n"), mark, i) <==> i >= |body| && At(END, mark, i - |body|)
  {
    MarkersAreMarkers();
    AtSplit(body, END + "\n", mark, i);
    if i >= |body| {
      AtNewline(END, mark, i - |body|);
    }
  }

  /** The markers of a block stand at its start and behind its body, and nowhere else. */
  lemma MarkersOfBlock(body: string, i: nat)
    requires Clean(body)
    ensures At(BlockOf(body), BEGIN, i) <==> i == 0
    ensures At(BlockOf(body), END, i) <==> i == EndAt(body)
  {
    MarkersAreMarkers();
    var q := body + (END + "\n");
    AtLine(BEGIN, q, BEGIN, i);
    AtLine(BEGIN, q, END, i);
    AtMarker(i);
    if i > |BEGIN| {
      MarkersOfRest(body, i - |BEGIN| - 1);
    }
  }

  lemma MarkersOfRest(body: string, j: nat)
    requires Clean(body)
    ensures !At(body + (END + "\n"), BEGIN, j)
    ensures At(body + (END + "\n"), END, j) <==> j == |body|
  {
    MarkersAreMarkers();
    AtBehind(body, BEGIN, j);
    AtBehind(body, END, j);
    if j >= |body| {
      AtMarker(j - |body|);
    }
  }

  function Line(address: string, name: string): string {
    address + "  " + name + "\n"
  }

  /** The lines of one name: its IPv4 record before its IPv6 record. */
  function LinesOf(name: string, v4: map<string, string>, v6: map<string, string>): string {
    (if name in v4 then Line(v4[name], name) else "") + (if name in v6 then Line(v6[name], name) else "")
  }

  function Lines(names: seq<string>, v4: map<string, string>, v6: map<string, string>): string {
    if names == [] then "" else Lines(names[..|names| - 1], v4, v6) + LinesOf(names[|names| - 1], v4, v6)
  }

  /** The block of the records, in the order of the names. */
  ghost function Block(v4: map<string, string>, v6: map<string, string>): string {
    BlockOf(Lines(Listing(v4.Keys + v6.Keys), v4, v6))
  }

  method RecordLines(name: string, v4: map<string, string>, v6: map<string, string>) returns (lines: string)
    ensures lines == LinesOf(name, v4, v6)
  {
    lines := "";
    if name in v4 {
      lines := Line(v4[name], name);
    }
    if name in v6 {
      lines := lines + Line(v6[name], name);
    } else {
      assert lines + "" == lines;
    }
  }

  /** buildManagedBlock. The sort makes the map order invisible. */
  method BuildManagedBlock(v4: map<string, string>, v6: map<string, string>) returns (block: string)
    ensures block == Block(v4, v6)
  {
    var names := SortedKeys(v4.Keys + v6.Keys);
    SortedListingUnique(names, Listing(v4.Keys + v6.Keys));
    var body := "";
    for i := 0 to |names|
      invariant body == Lines(names[..i], v4, v6)
    {
      assert names[..i + 1][..i] == names[..i];
      var lines := RecordLines(names[i], v4, v6);
      body := body + lines;
    }
    assert names[..|names|] == names;
    block := BlockOf(body);
  }

  predicate PairedAt(s: string, j: nat)
    requires j < |s|
  {
    s[j] != ' ' || (j > 0 && s[j - 1] == ' ') || (j + 1 < |s| && s[j + 1] == ' ')
  }

  /** A space in the text stands beside another one. */
  predicate PairedSpaces(s: string) {
    forall j :: 0 <= j < |s| ==> PairedAt(s, j)
  }

  /** Each marker holds a space beside two other characters. */
  lemma PairedSpacesAreClean(s: string)
    requires PairedSpaces(s)
    ensures Clean(s)
  {
    MarkersAreMarkers();
    assert BEGIN[0] == END[0] == '#' && BEGIN[1] == END[1] == ' ' && BEGIN[2] == 'B' && END[2] == 'E';
    forall i: nat
      ensures !At(s, BEGIN, i) && !At(s, END, i)
    {
      assert i + 1 < |s| ==> PairedAt(s, i + 1);
    }
  }

  /** The names and the addresses hold no space: ParsePeers puts a hyphen for each one. A hash
      sign is allowed. */
  predicate Spaceless(records: map<string, string>) {
    forall name :: name in records ==> Without(name, ' ') && Without(records[name], ' ')
  }

  lemma BothPaired(a: string, b: string)
    requires PairedSpaces(a) && PairedSpaces(b)
    ensures PairedSpaces(a + b)
  {
    var s := a + b;
    forall j | 0 <= j < |s|
      ensures PairedAt(s, j)
    {
      if j < |a| {
        assert PairedAt(a, j);
      } else {
        assert PairedAt(b, j - |a|);
      }
    }
  }

  lemma LineIsPaired(address: string, name: string)
    requires Without(address, ' ') && Without(name, ' ')
    ensures PairedSpaces(Line(address, name))
  {
    var s, n := Line(address, name), |address|;
    assert s[n] == ' ' && s[n + 1] == ' ';
    forall j | 0 <= j < |s|
      ensures PairedAt(s, j)
    {
      assert s[j] == ' ' ==> j == n || j == n + 1;
    }
  }

  lemma LinesOfArePaired(name: string, v4: map<string, string>, v6: map<string, string>)
    requires Spaceless(v4) && Spaceless(v6)
    ensures PairedSpaces(LinesOf(name, v4, v6))
  {
    var a := if name in v4 then Line(v4[name], name) else "";
    var b := if name in v6 then Line(v6[name], name) else "";
    if name in v4 {
      LineIsPaired(v4[name], name);
    }
    if name in v6 {
      LineIsPaired(v6[name], name);
    }
    BothPaired(a, b);
  }

  lemma {:induction false} LinesArePaired(names: seq<string>, v4: map<string, string>, v6: map<string, string>)
    requires Spaceless(v4) && Spaceless(v6)
    ensures PairedSpaces(Lines(names, v4, v6))
  {
    if names != [] {
      var last := names[|names| - 1];
      LinesArePaired(names[..|names| - 1], v4, v6);
      LinesOfArePaired(last, v4, v6);
      BothPaired(Lines(names[..|names| - 1], v4, v6), LinesOf(last, v4, v6));
    }
  }

  /** The body of every block that the daemon writes holds no marker. */
  lemma RecordsAreClean(names: seq<string>, v4: map<string, string>, v6: map<string, string>)
    requires Spaceless(v4) && Spaceless(v6)
    ensures Clean(Lines(names, v4, v6))
  {
    LinesArePaired(names, v4, v6);
    PairedSpacesAreClean(Lines(names, v4, v6));
  }

  // ----- the text transformation

  /** The first block of the text, with its newline. */
  function FindBlock(content: string): (r: Option<(nat, nat)>)
    ensures r.Some? ==> r.value.0 < r.value.1 <= |content|
  {
    match (Index(content, BEGIN), Index(content, END))
    case (Some(b), Some(e)) =>
      if e <= b then None
      else
        var end := e + |END|;
        Some((b, if end < |content| && content[end] == '\n' then end + 1 else end))
    case _ => None
  }

  function Separator(content: string): string {
    if content != "" && content[|content| - 1] != '\n' then "\n" else ""
  }

  /** The text after UpdateHostsFile, where an empty block stands for no records. */
  function Updated(content: string, block: string): string {
    match FindBlock(content)
    case Some((b, end)) => content[..b] + block + content[end..]
    case None => if block == "" then content else content + Separator(content) + block
  }

  lemma BlockEndsALine(body: string, after: string, mark: string, i: nat)
    requires IsMarker(mark)
    ensures At(BlockOf(body) + after, mark, i) <==> At(BlockOf(body), mark, i) || (i >= |BlockOf(body)| && At(after, mark, i - |BlockOf(body)|))
  {
    var head := BEGIN + ("\n" + (body + END));
    assert BlockOf(body) == head + "\n";
    assert BlockOf(body) + after == head + ("\n" + after);
    AtLine(head, after, mark, i);
    AtNewline(head, mark, i);
  }

  /** Where the markers stand in a text with a block behind a clean text. */
  lemma MarkersBehind(p: string, body: string, after: string, i: nat)
    requires Clean(p) && Clean(body)
    ensures var s := p + (BlockOf(body) + after);
      && (i <= |p| ==> (At(s, BEGIN, i) <==> i == |p|))
      && (i <= |p| + EndAt(body) ==> (At(s, END, i) <==> i == |p| + EndAt(body)))
  {
    MarkersAreMarkers();
    var x := BlockOf(body) + after;
    assert x[0] == BEGIN[0];
    AtSplit(p, x, BEGIN, i);
    AtSplit(p, x, END, i);
    if i >= |p| {
      BlockEndsALine(body, after, BEGIN, i - |p|);
      BlockEndsALine(body, after, END, i - |p|);
      MarkersOfBlock(body, i - |p|);
    }
  }

  lemma IndexIs(s: string, mark: string, i: nat)
    requires At(s, mark, i) && forall k: nat :: k < i ==> !At(s, mark, k)
    ensures Index(s, mark) == Some(i)
  {
  }

  lemma NewlineEndsTheBlock(p: string, body: string, after: string)
    ensures var s, end := p + (BlockOf(body) + after), |p| + EndAt(body) + |END|;
      end + 1 == |p| + |BlockOf(body)| <= |s| && s[end] == '\n'
  {
    var s, end := p + (BlockOf(body) + after), EndAt(body) + |END|;
    assert BlockOf(body)[end] == '\n';
    assert s[|p| + end] == BlockOf(body)[end];
  }

  lemma BeginOfBlock(p: string, body: string, after: string, s: string)
    requires Clean(p) && Clean(body) && s == p + (BlockOf(body) + after)
    ensures Index(s, BEGIN) == Some(|p|)
  {
    forall i: nat | i <= |p|
      ensures At(s, BEGIN, i) <==> i == |p|
    {
      MarkersBehind(p, body, after, i);
    }
    IndexIs(s, BEGIN, |p|);
  }

  lemma EndOfBlock(p: string, body: string, after: string, s: string, e: nat)
    requires Clean(p) && Clean(body) && s == p + (BlockOf(body) + after) && e == |p| + EndAt(body)
    ensures Index(s, END) == Some(e)
  {
    forall i: nat | i <= e
      ensures At(s, END, i) <==> i == e
    {
      MarkersBehind(p, body, after, i);
    }
    IndexIs(s, END, e);
  }

  /** A block between two markers that ends a line. */
  lemma FindsAt(s: string, b: nat, e: nat)
    requires Index(s, BEGIN) == Some(b) && Index(s, END) == Some(e) && b < e
    requires e + |END| < |s| && s[e + |END|] == '\n'
    ensures FindBlock(s) == Some((b, e + |END| + 1))
  {
  }

  /** The block behind a clean text is the block that the update finds, whole. */
  lemma FindsTheBlock(p: string, body: string, after: string)
    requires Clean(p) && Clean(body)
    ensures FindBlock(p + (BlockOf(body) + after)) == Some((|p|, |p| + |BlockOf(body)|))
  {
    var s, e := p + (BlockOf(body) + after), |p| + EndAt(body);
    BeginOfBlock(p, body, after, s);
    EndOfBlock(p, body, after, s, e);
    NewlineEndsTheBlock(p, body, after);
    FindsAt(s, |p|, e);
  }

  lemma Slices(p: string, mid: string, after: string)
    ensures var s := p + (mid + after); s[..|p|] == p && s[|p| + |mid|..] == after
  {
  }

  /** An update replaces the block and nothing else: it keeps the text before it and after
      it, and with no records the block is gone. */
  lemma UpdateReplacesTheBlock(p: string, body: string, after: string, block: string)
    requires Clean(p) && Clean(body)
    ensures Updated(p + (BlockOf(body) + after), block) == p + block + after
  {
    FindsTheBlock(p, body, after);
    Slices(p, BlockOf(body), after);
  }

  /** The first update keeps the whole text and adds at most one newline before the block;
      the removal of the block gives the text back with that newline. */
  lemma FirstUpdateThenRemoval(content: string, body: string)
    requires Clean(content) && Clean(body)
    ensures Updated(content, BlockOf(body)) == content + Separator(content) + BlockOf(body)
    ensures Separator(content) == if content == "" || content[|content| - 1] == '\n' then "" else "\n"
    ensures Updated(Updated(content, BlockOf(body)), "") == content + Separator(content)
  {
    var p := content + Separator(content);
    CleanBefore(content);
    assert Updated(content, BlockOf(body)) == p + (BlockOf(body) + "");
    UpdateReplacesTheBlock(p, body, "", "");
    assert p + "" + "" == p;
  }

  lemma CleanBefore(content: string)
    requires Clean(content)
    ensures Clean(content + Separator(content))
  {
    MarkersAreMarkers();
    if Separator(content) == "" {
      assert content + "" == content;
    } else {
      forall i: nat
        ensures !At(content + "\n", BEGIN, i) && !At(content + "\n", END, i)
      {
        AtNewline(content, BEGIN, i);
        AtNewline(content, END, i);
      }
    }
  }

  /** After an update of a text whose surroundings hold no marker there is one block. */
  lemma OneBlock(p: string, body: string, after: string, i: nat)
    requires Clean(p) && Clean(after) && Clean(body)
    ensures var s := p + (BlockOf(body) + after);
      && (At(s, BEGIN, i) <==> i == |p|)
      && (At(s, END, i) <==> i == |p| + EndAt(body))
  {
    MarkersAreMarkers();
    var x, j := BlockOf(body) + after, i - |p|;
    assert x[0] == BEGIN[0];
    AtSplit(p, x, BEGIN, i);
    AtSplit(p, x, END, i);
    if j >= 0 {
      BlockEndsALine(body, after, BEGIN, j);
      BlockEndsALine(body, after, END, j);
      MarkersOfBlock(body, j);
    }
  }

  // ----- the second update

  lemma AtSeparator(c: string, mark: string, i: nat)
    requires IsMarker(mark)
    ensures At(c + Separator(c), mark, i) <==> At(c, mark, i)
  {
    AtNewline(c, mark, i);
    assert c + "" == c;
  }

  lemma FirstOf(s: string, c: string, mark: string, behind: nat)
    requires |c| <= behind && mark != "" && forall i: nat :: At(s, mark, i) <==> At(c, mark, i) || i == behind
    ensures Index(s, mark) == match Index(c, mark) case Some(i) => Some(i) case None => Some(behind)
  {
    match Index(c, mark)
    case Some(i) => IndexIs(s, mark, i);
    case None => IndexIs(s, mark, behind);
  }

  /** The first place of a marker behind an append: where the text held it, or in the block. */
  lemma IndexAfterAppend(c: string, p: string, s: string, block: string, mark: string, behind: nat)
    requires IsMarker(mark) && p == c + Separator(c) && s == p + block && block != "" && block[0] == '#'
    requires behind >= |p| && forall j: nat :: At(block, mark, j) <==> j == behind - |p|
    ensures Index(s, mark) == match Index(c, mark) case Some(i) => Some(i) case None => Some(behind)
  {
    forall i: nat
      ensures At(s, mark, i) <==> At(c, mark, i) || i == behind
    {
      AtSplit(p, block, mark, i);
      AtSeparator(c, mark, i);
    }
    FirstOf(s, c, mark, behind);
  }

  lemma MarksOfBlock(body: string, block: string)
    requires Clean(body) && block == BlockOf(body)
    ensures IsMarker(BEGIN) && IsMarker(END) && block != "" && block[0] == '#'
    ensures forall j: nat :: At(block, BEGIN, j) <==> j == 0
    ensures forall j: nat :: At(block, END, j) <==> j == EndAt(body)
  {
    MarkersAreMarkers();
    assert block[0] == BEGIN[0];
    forall j: nat
      ensures At(block, BEGIN, j) <==> j == 0
      ensures At(block, END, j) <==> j == EndAt(body)
    {
      MarkersOfBlock(body, j);
    }
  }

  lemma BeginAfterAppend(c: string, p: string, s: string, body: string)
    requires Clean(body) && p == c + Separator(c) && s == p + BlockOf(body)
    ensures Index(s, BEGIN) == match Index(c, BEGIN) case Some(i) => Some(i) case None => Some(|p|)
  {
    MarksOfBlock(body, BlockOf(body));
    IndexAfterAppend(c, p, s, BlockOf(body), BEGIN, |p|);
  }

  lemma EndAfterAppend(c: string, p: string, s: string, body: string)
    requires Clean(body) && p == c + Separator(c) && s == p + BlockOf(body)
    ensures Index(s, END) == match Index(c, END) case Some(i) => Some(i) case None => Some(|p| + EndAt(body))
  {
    MarksOfBlock(body, BlockOf(body));
    IndexAfterAppend(c, p, s, BlockOf(body), END, |p| + EndAt(body));
  }

  /** An end marker with no begin marker before it hides every block: each update appends
      another one. */
  lemma StrayEndMarkerGrows(c: string, body: string)
    requires Clean(body) && Index(c, END).Some? && FindBlock(c).None?
    ensures var s := Updated(c, BlockOf(body)); Updated(s, BlockOf(body)) == s + Separator(s) + BlockOf(body)
  {
    var p := c + Separator(c);
    BeginAfterAppend(c, p, p + BlockOf(body), body);
    EndAfterAppend(c, p, p + BlockOf(body), body);
  }

  /** A begin marker with no end marker takes the text behind it into the block: the second
      update deletes that text. */
  lemma UnclosedMarkerLosesText(c: string, body: string)
    requires Clean(body) && Index(c, BEGIN).Some? && Index(c, END).None?
    ensures Updated(Updated(c, BlockOf(body)), BlockOf(body)) == c[..Index(c, BEGIN).value] + BlockOf(body)
  {
    var p, block := c + Separator(c), BlockOf(body);
    AppendedEnds(c, p, p + block, body);
    LosesText(c, p, p + block, block, |p| + EndAt(body));
  }

  lemma LosesText(c: string, p: string, s: string, block: string, e: nat)
    requires p == c + Separator(c) && s == p + block && block != "" && e >= |p|
    requires Index(c, BEGIN).Some? && Index(c, END).None?
    requires Index(s, BEGIN) == Index(c, BEGIN) && Index(s, END) == Some(e)
    requires e + |END| + 1 == |s| && s[e + |END|] == '\n'
    ensures Updated(Updated(c, block), block) == c[..Index(c, BEGIN).value] + block
  {
    AppendsBehind(c, block);
    AppendedHead(c, p, block, s, Index(c, BEGIN).value);
    UpdateToTheEnd(c, s, block, Index(c, BEGIN).value, e);
  }

  lemma AppendsBehind(c: string, block: string)
    requires Index(c, END).None? && block != ""
    ensures Updated(c, block) == c + Separator(c) + block
  {
  }

  lemma AppendedEnds(c: string, p: string, s: string, body: string)
    requires Clean(body) && p == c + Separator(c) && s == p + BlockOf(body)
    requires Index(c, BEGIN).Some? && Index(c, END).None?
    ensures Index(s, BEGIN) == Index(c, BEGIN) && Index(s, END) == Some(|p| + EndAt(body)) && BlockOf(body) != ""
    ensures |p| + EndAt(body) + |END| + 1 == |s| && s[|p| + EndAt(body) + |END|] == '\n'
  {
    BeginAfterAppend(c, p, s, body);
    EndAfterAppend(c, p, s, body);
    BlockIsLast(p, s, body);
  }

  lemma AppendedHead(c: string, p: string, block: string, s: string, b: nat)
    requires p == c + Separator(c) && s == p + block && Index(c, BEGIN) == Some(b)
    ensures b < |c| <= |p| <= |s| && s[..b] == c[..b]
  {
    HeadOfBoth(c, Separator(c), p, block, s, b);
  }

  lemma HeadOfBoth(c: string, separator: string, p: string, block: string, s: string, b: nat)
    requires p == c + separator && s == p + block && b <= |c|
    ensures |c| <= |s| && s[..b] == c[..b]
  {
  }

  lemma BlockIsLast(p: string, s: string, body: string)
    requires s == p + BlockOf(body)
    ensures var e := |p| + EndAt(body); e + |END| + 1 == |s| && s[e + |END|] == '\n'
  {
    NewlineEndsTheBlock(p, body, "");
    assert BlockOf(body) + "" == BlockOf(body);
  }

  lemma UpdateToTheEnd(c: string, s: string, block: string, b: nat, e: nat)
    requires Index(s, BEGIN) == Some(b) && Index(s, END) == Some(e) && b < e && b <= |c| <= |s| && s[..b] == c[..b]
    requires e + |END| + 1 == |s| && s[e + |END|] == '\n'
    ensures Updated(s, block) == c[..b] + block
  {
    assert FindBlock(s) == Some((b, |s|));
    assert s[|s|..] == "";
  }

  lemma PrefixIsClean(c: string)
    requires FindBlock(c).Some?
    ensures Clean(c[..FindBlock(c).value.0])
  {
    var b := FindBlock(c).value.0;
    forall i: nat
      ensures !At(c[..b], BEGIN, i) && !At(c[..b], END, i)
    {
      assert At(c[..b], BEGIN, i) ==> At(c, BEGIN, i);
      assert At(c[..b], END, i) ==> At(c, END, i);
      MarkersAreMarkers();
    }
  }

  /** A second update with the same records changes nothing exactly when the text holds a
      complete block or no marker at all. */
  lemma SecondUpdateIsIdleExactly(c: string, body: string)
    requires Clean(body)
    ensures var s := Updated(c, BlockOf(body));
      Updated(s, BlockOf(body)) == s <==> FindBlock(c).Some? || (Index(c, BEGIN).None? && Index(c, END).None?)
  {
    var block := BlockOf(body);
    if FindBlock(c).Some? {
      var (b, end) := FindBlock(c).value;
      PrefixIsClean(c);
      assert c[..b] + block + c[end..] == c[..b] + (block + c[end..]);
      UpdateReplacesTheBlock(c[..b], body, c[end..], block);
    } else if Index(c, END).Some? {
      StrayEndMarkerGrows(c, body);
      var s := Updated(c, block);
      assert |s + Separator(s) + block| > |s|;
    } else if Index(c, BEGIN).Some? {
      UnclosedMarkerLosesText(c, body);
      assert Index(c, BEGIN).value < |c|;
      assert |Updated(c, block)| >= |c| + |block|;
    } else {
      var p := c + Separator(c);
      CleanBefore(c);
      assert p + block == p + (block + "");
      UpdateReplacesTheBlock(p, body, "", block);
      assert p + block + "" == p + block;
    }
  }

  // ----- the file

  class File {
    var content: Option<string>
    var writes: nat

    constructor (content: Option<string>)
      ensures this.content == content && writes == 0
    {
      this.content, writes := content, 0;
    }

    function Text(): string
      reads this
    {
      match content case Some(text) => text case None => ""
    }

    /** UpdateHostsFile, with the block of the records or an empty block. */
    method Rewrite(block: string, writable: bool) returns (failed: bool)
      modifies this
      ensures var updated := Updated(old(Text()), block);
        && (failed <==> !writable && updated != old(Text()))
        && (failed ==> content == old(content) && writes == old(writes))
        && (!failed ==> Text() == updated && writes == old(writes) + if updated == old(Text()) then 0 else 1)
    {
      var text := Text();
      var updated := "";
      var found := FindBlock(text);
      if found.Some? {
        var (b, end) := found.value;
        SameBlockSameText(text, b, end, block);
        if block == text[b..end] {
          return false;
        }
        updated := text[..b] + block + text[end..];
      } else {
        if block == "" {
          return false;
        }
        if |text| > 0 && text[|text| - 1] != '\n' {
          updated := text + "\n" + block;
        } else {
          assert text + "" + block == text + block;
          updated := text + block;
        }
        assert |updated| > |text|;
      }
      if !writable {
        return true;
      }
      content, writes := Some(updated), writes + 1;
      failed := false;
    }

    /** UpdateHostsFile. A missing file reads as an empty text, a failure changes nothing, and
        the file is written exactly when its text changes. */
    method Update(v4: map<string, string>, v6: map<string, string>, readable: bool, writable: bool) returns (failed: bool)
      modifies this
      ensures var block := if v4 == map[] && v6 == map[] then "" else Block(v4, v6);
        var updated := Updated(old(Text()), block);
        && (failed <==> !readable || (!writable && updated != old(Text())))
        && (failed ==> content == old(content) && writes == old(writes))
        && (!failed ==> Text() == updated && writes == old(writes) + if updated == old(Text()) then 0 else 1)
    {
      if !readable {
        return true;
      }
      var block := "";
      if v4 != map[] || v6 != map[] {
        block := BuildManagedBlock(v4, v6);
      }
      failed := Rewrite(block, writable);
    }

    /** The rebuilt text equals the old text exactly when the block is the old block. */
    static lemma SameBlockSameText(text: string, b: nat, end: nat, block: string)
      requires b < end <= |text|
      ensures text[..b] + block + text[end..] == text <==> block == text[b..end]
    {
      var rebuilt := text[..b] + block + text[end..];
      assert text == text[..b] + text[b..end] + text[end..];
      if rebuilt == text {
        assert |block| == end - b;
        assert rebuilt[b..b + |block|] == block;
      }
    }
  }

  /** Two updates with the same records on a writable file. The second one writes nothing
      exactly when the text held a complete block or no marker at all; with no records it
      writes nothing exactly when the first one left no complete block. */
  method UpdateTwice(f: File, v4: map<string, string>, v6: map<string, string>) returns (idle: bool)
    requires Spaceless(v4) && Spaceless(v6)
    modifies f
    ensures var c := old(f.Text());
      idle <==>
        if v4 == map[] && v6 == map[] then FindBlock(Updated(c, "")).None?
        else FindBlock(c).Some? || (Index(c, BEGIN).None? && Index(c, END).None?)
  {
    ghost var c := f.Text();
    var _ := f.Update(v4, v6, true, true);
    var writes := f.writes;
    ghost var once := f.Text();
    var _ := f.Update(v4, v6, true, true);
    idle := f.writes == writes;
    if v4 == map[] && v6 == map[] {
      NoRecordsIdleExactly(once);
    } else {
      var names := Listing(v4.Keys + v6.Keys);
      RecordsAreClean(names, v4, v6);
      SecondUpdateIsIdleExactly(c, Lines(names, v4, v6));
    }
  }

  lemma NoRecordsIdleExactly(c: string)
    ensures Updated(c, "") == c <==> FindBlock(c).None?
  {
    if FindBlock(c).Some? {
      var (b, end) := FindBlock(c).value;
      assert |Updated(c, "")| == |c| - (end - b);
    }
  }

  // ----- the text of the block

  lemma LinesOfOne(name: string, v4: map<string, string>, v6: map<string, string>)
    ensures Lines([name], v4, v6) == LinesOf(name, v4, v6)
  {
    assert [name][..0] == [];
    assert Lines([name], v4, v6) == "" + LinesOf(name, v4, v6);
  }

  lemma OneName(name: string)
    ensures Listing({name}) == [name]
  {
    BeforeTotal(name, name);
    assert Elements([name]) == {name};
    SortedListingUnique(Listing({name}), [name]);
  }

  /** The text of a block with one record of each family under one name: the marker lines, and
      between them the address, two spaces and the name, the IPv4 record first. */
  lemma BlockOfOneName(name: string, a4: string, a6: string)
    ensures Block(map[name := a4], map[name := a6]) ==
      "# BEGIN " + ("HYDRASCALE MANAGED BLOCK" + " - DO NOT EDIT") +
      ("\n" + (((a4 + "  " + name + "\n") + (a6 + "  " + name + "\n")) + ("# END " + "HYDRASCALE MANAGED BLOCK" + "\n")))
    ensures Block(map[name := a4], map[]) ==
      "# BEGIN " + ("HYDRASCALE MANAGED BLOCK" + " - DO NOT EDIT") +
      ("\n" + ((a4 + "  " + name + "\n") + ("# END " + "HYDRASCALE MANAGED BLOCK" + "\n")))
  {
    var v4, v6, none := map[name := a4], map[name := a6], map[];
    assert v4.Keys + v6.Keys == {name} && v4.Keys + none.Keys == {name};
    OneName(name);
    LinesOfOne(name, v4, v6);
    LinesOfOne(name, v4, none);
    assert LinesOf(name, v4, none) == Line(a4, name) + "" == Line(a4, name);
  }

  /** One more name adds its own lines behind the names before it. */
  lemma LinesInOrder(names: seq<string>, name: string, v4: map<string, string>, v6: map<string, string>)
    ensures Lines(names + [name], v4, v6) == Lines(names, v4, v6) + LinesOf(name, v4, v6)
  {
    assert (names + [name])[..|names|] == names;
  }
}
