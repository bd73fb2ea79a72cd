/** The bytes that an edit of a policy document changes, the edits that undo each other, and
    the indent of a new entry (internal/policy/document.go). */
module PolicyBytes {
  import opened Text
  import opened T = PolicyTree
  import opened E = PolicyEdits

  // ----- one range of bytes

  /** The bytes that the new last member brings, with the comma that it needs before it. */
  function AddedMember(ms: seq<Member>, ms': seq<Member>): string {
    if ms' == [] then ""
    else
      var m := ms'[|ms'| - 1];
      Appended(ms == [], ObjectComma(ms), PackMember(m), m.value.after.Some?)
  }

  function AddedElement(es: seq<Value>, es': seq<Value>): string {
    if es' == [] then ""
    else
      var v := es'[|es'| - 1];
      Appended(es == [], ArrayComma(es), Pack(v), v.after.Some?)
  }

  function DroppedMember(ms: seq<Member>, k: nat): string {
    if k < |ms| then Dropped(ObjectTexts(ms), k, ObjectComma(ms), ObjectComma(Without(ms, k))) else ""
  }

  function DroppedElement(es: seq<Value>, k: int): string {
    if 0 <= k < |es| then Dropped(ArrayTexts(es), k, ArrayComma(es), ArrayComma(Without(es, k))) else ""
  }

  function BodyOf(ms: seq<Member>, key: string): string {
    if Holds(ms, key) then PackBody(ms[IndexOf(ms, key)].value.body) else ""
  }

  function Parsed(entry: Option<Body>): string {
    match entry case Some(b) => PackBody(b) case None => ""
  }

  /** The bytes that an edit takes out. */
  function Gone(root: Value, e: Edit): string {
    match e
    case ReplaceEntry(section, index, _) =>
      if 0 <= index < |Entries(root, section)| then PackBody(Entries(root, section)[index].body) else ""
    case RemoveEntry(section, index) => DroppedElement(Entries(root, section), index)
    case ReplaceMapEntry(section, key, _) => BodyOf(Inner(Top(root), section), key)
    case RemoveMapEntry(section, key) =>
      DroppedMember(Inner(Top(root), section), IndexOf(Inner(Top(root), section), key))
    case RenameMapEntry(section, key, _) =>
      var ms := Inner(Top(root), section);
      if Holds(ms, key) then ms[IndexOf(ms, key)].raw else ""
    case ReplaceRoute(cidr, _) => BodyOf(RoutesOf(root), cidr)
    case RemoveRoute(cidr) => DroppedMember(RoutesOf(root), IndexOf(RoutesOf(root), cidr))
    case SetExitNode(_) => BodyOf(Inner(Top(root), APPROVERS), "exitNode")
    case _ => ""
  }

  /** The bytes that an edit puts in their place, where r is the tree after the edit. */
  function Put(root: Value, r: Value, e: Edit, quote: Quote): string {
    var ms, ms' := Inner(Top(root), e.Section()), Inner(Top(r), e.Section());
    if (e.AddEntry? || e.AddMapEntry? || e.AddRoute? || e.SetExitNode?) && !Holds(Top(root), e.Section())
    then AddedMember(Top(root), Top(r))
    else match e
      case AddEntry(section, _) => AddedElement(Entries(root, section), Entries(r, section))
      case ReplaceEntry(_, _, entry) => Parsed(entry)
      case RemoveEntry(_, _) => ""
      case AddMapEntry(section, _, _) => AddedMember(ms, ms')
      case ReplaceMapEntry(_, _, entry) => Parsed(entry)
      case RemoveMapEntry(_, _) => ""
      case RenameMapEntry(_, _, newKey) => quote(newKey)
      case AddRoute(_, _) => if Holds(ms, "routes") then AddedMember(RoutesOf(root), RoutesOf(r)) else AddedMember(ms, ms')
      case ReplaceRoute(_, approvers) => PackBody(approvers)
      case RemoveRoute(_) => ""
      case SetExitNode(approvers) => if Holds(ms, "exitNode") then PackBody(approvers) else AddedMember(ms, ms')
  }

  lemma SectionSpliced(root: Value, i: nat, b: Body, gone: string, put: string)
    requires root.body.Object? && i < |root.body.members|
    requires Splice(PackBody(root.body.members[i].value.body), PackBody(b), gone, put)
    ensures Splice(Pack(root), Pack(SetSection(root, i, b)), gone, put)
  {
    var ms, end := root.body.members, root.body.end;
    MemberBodyChanged(ms, i, b, end, gone, put);
    BodyChanged(root, Object(SetMember(ms, i, b), end), gone, put);
  }

  lemma TopAppended(root: Value, m: Member)
    requires root.body.Object?
    ensures Splice(Pack(root), Pack(AppendTop(root, m)), "", AddedMember(Top(root), Top(AppendTop(root, m))))
  {
    var ms, end := root.body.members, root.body.end;
    MemberAppended(ms, m, end);
    BodyChanged(root, Object(ms + [m], end), "", AddedMember(ms, ms + [m]));
  }

  lemma WholeBody(a: string, b: string)
    ensures Splice(a, b, a, b)
  {
    assert SpliceAt(a, b, a, b, "", "");
  }

  lemma AddEntryBytes(root: Value, e: Edit, quote: Quote)
    requires e.AddEntry? && Edited(root, e, quote).Ok?
    ensures var r := Edited(root, e, quote).value; Splice(Pack(root), Pack(r), "", Put(root, r, e, quote))
  {
    var r := Edited(root, e, quote).value;
    ListEditStays(root, e, quote);
    OnlyMemberAt(Top(root), Top(r), e.section);
    if Holds(Top(root), e.section) {
      var i := IndexOf(Top(root), e.section);
      var b := Top(root)[i].value.body;
      var es' := Entries(r, e.section);
      ElementAppended(b.elements, es'[|b.elements|], b.end);
      SectionSpliced(root, i, Array(es', b.end), "", AddedElement(b.elements, es'));
    } else {
      TopAppended(root, Top(r)[|Top(root)|]);
    }
  }

  lemma ReplaceEntryBytes(root: Value, e: Edit, quote: Quote)
    requires e.ReplaceEntry? && Edited(root, e, quote).Ok?
    ensures var r := Edited(root, e, quote).value; Splice(Pack(root), Pack(r), Gone(root, e), Put(root, r, e, quote))
  {
    var i := ArraySection(root, e.section).value;
    var b := root.body.members[i].value.body;
    var old0 := b.elements[e.index];
    WholeBody(PackBody(old0.body), PackBody(e.entry.value));
    BodyChanged(old0, e.entry.value, PackBody(old0.body), PackBody(e.entry.value));
    ElementChanged(b.elements, e.index, SetBody(old0, e.entry.value), b.end, PackBody(old0.body), PackBody(e.entry.value));
    SectionSpliced(root, i, Array(b.elements[e.index := SetBody(old0, e.entry.value)], b.end), PackBody(old0.body), PackBody(e.entry.value));
  }

  lemma RemoveEntryBytes(root: Value, e: Edit, quote: Quote)
    requires e.RemoveEntry? && Edited(root, e, quote).Ok?
    ensures Splice(Pack(root), Pack(Edited(root, e, quote).value), Gone(root, e), "")
  {
    var i := ArraySection(root, e.section).value;
    var b := root.body.members[i].value.body;
    ElementDropped(b.elements, e.index, b.end);
    SectionSpliced(root, i, Array(Without(b.elements, e.index), b.end), Gone(root, e), "");
  }

  lemma ValueReplaced(ms: seq<Member>, k: nat, b: Body, end: string)
    requires k < |ms|
    ensures Splice(PackBody(Object(ms, end)), PackBody(Object(SetMember(ms, k, b), end)), PackBody(ms[k].value.body), PackBody(b))
  {
    WholeBody(PackBody(ms[k].value.body), PackBody(b));
    MemberBodyChanged(ms, k, b, end, PackBody(ms[k].value.body), PackBody(b));
  }

  lemma KeyReplaced(ms: seq<Member>, k: nat, raw: string, name: string, end: string)
    requires k < |ms|
    ensures Splice(PackBody(Object(ms, end)), PackBody(Object(ms[k := ms[k].(raw := raw, name := name)], end)), ms[k].raw, raw)
  {
    var m := ms[k];
    var m', rest := m.(raw := raw, name := name), m.gap + ":" + Pack(m.value);
    assert SpliceAt(m.before + m.raw + rest, m.before + raw + rest, m.raw, raw, m.before, rest);
    MemberChanged(ms, k, m', end, m.raw, raw);
  }

  lemma MapEditBytes(root: Value, e: Edit, quote: Quote)
    requires e.AddMapEntry? || e.ReplaceMapEntry? || e.RemoveMapEntry? || e.RenameMapEntry?
    requires Edited(root, e, quote).Ok? && Holds(Top(root), e.Section())
    ensures var r := Edited(root, e, quote).value; Splice(Pack(root), Pack(r), Gone(root, e), Put(root, r, e, quote))
  {
    var r := Edited(root, e, quote).value;
    MapEditMembers(root, e, quote);
    MapEditStays(root, e, quote);
    OnlyMemberAt(Top(root), Top(r), e.section);
    var i := IndexOf(Top(root), e.section);
    var b := Top(root)[i].value.body;
    var ms, ms' := b.members, Inner(Top(r), e.section);
    var k := IndexOf(ms, e.key);
    if e.AddMapEntry? {
      MemberAppended(ms, ms'[k], b.end);
    } else if e.ReplaceMapEntry? {
      ValueReplaced(ms, k, e.entry.value, b.end);
    } else if e.RemoveMapEntry? {
      MemberDropped(ms, k, b.end);
    } else {
      KeyReplaced(ms, k, quote(e.newKey), e.newKey, b.end);
    }
    SectionSpliced(root, i, Object(ms', b.end), Gone(root, e), Put(root, r, e, quote));
  }

  /** The bytes of one route edit inside autoApprovers.routes. */
  lemma RoutesSpliced(m: Member, e: Edit, quote: Quote)
    requires m.value.body.Object? && (e.AddRoute? || e.ReplaceRoute? || e.RemoveRoute?)
    requires e.AddRoute? <==> !Holds(m.value.body.members, e.cidr)
    ensures var rs := m.value.body.members;
      var gone := if e.ReplaceRoute? then BodyOf(rs, e.cidr) else if e.RemoveRoute? then DroppedMember(rs, IndexOf(rs, e.cidr)) else "";
      var put := if e.ReplaceRoute? then PackBody(e.approvers) else if e.RemoveRoute? then "" else AddedMember(rs, NewRoutes(m, e, quote).members);
      Splice(PackBody(m.value.body), PackBody(NewRoutes(m, e, quote)), gone, put)
  {
    var rs, end := m.value.body.members, m.value.body.end;
    var k := IndexOf(rs, e.cidr);
    if e.AddRoute? {
      MemberAppended(rs, NewRoutes(m, e, quote).members[|rs|], end);
    } else if e.ReplaceRoute? {
      ValueReplaced(rs, k, e.approvers, end);
    } else {
      MemberDropped(rs, k, end);
    }
  }

  lemma HeldRouteBytes(root: Value, e: Edit, quote: Quote)
    requires Edited(root, e, quote).Ok? && (e.AddRoute? || e.ReplaceRoute? || e.RemoveRoute?)
    requires Holds(Top(root), APPROVERS) && Holds(Inner(Top(root), APPROVERS), "routes")
    ensures var r := Edited(root, e, quote).value; Splice(Pack(root), Pack(r), Gone(root, e), Put(root, r, e, quote))
  {
    var r := Edited(root, e, quote).value;
    RouteEdit(root, e, quote);
    RouteEditIsOnlyMember(root, e, quote);
    var ms, ms' := Inner(Top(root), APPROVERS), Inner(Top(r), APPROVERS);
    OnlyMemberAt(ms, ms', "routes");
    var i, j := IndexOf(Top(root), APPROVERS), IndexOf(ms, "routes");
    var m, end := ms[j], Top(root)[i].value.body.end;
    RoutesSpliced(m, e, quote);
    MemberBodyChanged(ms, j, NewRoutes(m, e, quote), end, Gone(root, e), Put(root, r, e, quote));
    SectionSpliced(root, i, Object(SetMember(ms, j, NewRoutes(m, e, quote)), end), Gone(root, e), Put(root, r, e, quote));
  }

  /** An edit of autoApprovers that adds a member of it at the end. */
  lemma NewApproverBytes(root: Value, r: Value, key: string)
    requires OnlySection(root, r, APPROVERS) && Holds(Top(root), APPROVERS)
    requires var i := IndexOf(Top(root), APPROVERS);
      var b, b' := Top(root)[i].value.body, Top(r)[i].value.body;
      b.Object? && b'.Object? && b'.end == b.end && OnlyMember(b.members, b'.members, key) && !Holds(b.members, key)
    ensures Splice(Pack(root), Pack(r), "", AddedMember(Inner(Top(root), APPROVERS), Inner(Top(r), APPROVERS)))
  {
    OnlyMemberAt(Top(root), Top(r), APPROVERS);
    var i := IndexOf(Top(root), APPROVERS);
    var b, b' := Top(root)[i].value.body, Top(r)[i].value.body;
    MemberAppended(b.members, b'.members[|b.members|], b.end);
    SectionSpliced(root, i, b', "", AddedMember(b.members, b'.members));
  }

  lemma FirstRouteBytes(root: Value, e: Edit, quote: Quote)
    requires Edited(root, e, quote).Ok? && (e.AddRoute? || e.ReplaceRoute? || e.RemoveRoute?)
    requires Holds(Top(root), APPROVERS) && !Holds(Inner(Top(root), APPROVERS), "routes")
    ensures var r := Edited(root, e, quote).value; Splice(Pack(root), Pack(r), "", AddedMember(Inner(Top(root), APPROVERS), Inner(Top(r), APPROVERS)))
  {
    var r := Edited(root, e, quote).value;
    EditStaysInItsSection(root, e, quote);
    RouteEditIsOnlyMember(root, e, quote);
    NewApproverBytes(root, r, "routes");
  }

  lemma RouteBytes(root: Value, e: Edit, quote: Quote)
    requires Edited(root, e, quote).Ok? && (e.AddRoute? || e.ReplaceRoute? || e.RemoveRoute?)
    ensures var r := Edited(root, e, quote).value; Splice(Pack(root), Pack(r), Gone(root, e), Put(root, r, e, quote))
  {
    var r := Edited(root, e, quote).value;
    if !Holds(Top(root), APPROVERS) {
      EditStaysInItsSection(root, e, quote);
      TopAppended(root, Top(r)[|Top(root)|]);
    } else if Holds(Inner(Top(root), APPROVERS), "routes") {
      HeldRouteBytes(root, e, quote);
    } else {
      FirstRouteBytes(root, e, quote);
    }
  }

  lemma ExitNodeBytes(root: Value, e: Edit, quote: Quote)
    requires e.SetExitNode? && Edited(root, e, quote).Ok?
    ensures var r := Edited(root, e, quote).value; Splice(Pack(root), Pack(r), Gone(root, e), Put(root, r, e, quote))
  {
    var r := Edited(root, e, quote).value;
    ExitNodeStays(root, e, quote);
    if !Holds(Top(root), APPROVERS) {
      TopAppended(root, Top(r)[|Top(root)|]);
    } else {
      var i := IndexOf(Top(root), APPROVERS);
      var b := Top(root)[i].value.body;
      if Holds(b.members, "exitNode") {
        var k := IndexOf(b.members, "exitNode");
        ValueReplaced(b.members, k, e.approvers, b.end);
        SectionSpliced(root, i, Object(SetMember(b.members, k, e.approvers), b.end), Gone(root, e), PackBody(e.approvers));
      } else {
        ExitNodeIsOnlyMember(root, e, quote);
        NewApproverBytes(root, r, "exitNode");
      }
    }
  }

  /** Every edit that succeeds changes one range of bytes, and every byte before and after
      that range stays: an add inserts the bytes of one new node with its commas, a removal
      deletes the bytes of one node with its comma, a replacement swaps the bytes of one value,
      and a rename swaps the bytes of one key. */
  lemma EditChangesOneRange(root: Value, e: Edit, quote: Quote)
    requires Edited(root, e, quote).Ok?
    ensures var r := Edited(root, e, quote).value; Splice(Pack(root), Pack(r), Gone(root, e), Put(root, r, e, quote))
  {
    if e.AddEntry? {
      AddEntryBytes(root, e, quote);
    } else if e.ReplaceEntry? {
      ReplaceEntryBytes(root, e, quote);
    } else if e.RemoveEntry? {
      RemoveEntryBytes(root, e, quote);
    } else if e.AddRoute? || e.ReplaceRoute? || e.RemoveRoute? {
      RouteBytes(root, e, quote);
    } else if e.SetExitNode? {
      ExitNodeBytes(root, e, quote);
    } else if Holds(Top(root), e.Section()) {
      MapEditBytes(root, e, quote);
    } else {
      TopAppended(root, NewMapSection(e.section, e.key, e.entry.value, TopIndent(Top(root)), quote));
    }
  }

  // ----- runs of edits

  /** The tree after a run of edits, where an edit that fails changes nothing. */
  function Run(root: Value, edits: seq<Edit>, quote: Quote): Value {
    if edits == [] then root
    else
      var before := Run(root, edits[..|edits| - 1], quote);
      match Edited(before, edits[|edits| - 1], quote)
      case Ok(r) => r
      case Err(_) => before
  }

  /** A run of edits duplicates no top-level key and no key of a map-shaped section, and it
      leaves every section that no edit of it names. */
  lemma {:induction false} RunKeepsKeysAndSections(root: Value, edits: seq<Edit>, quote: Quote, section: string)
    ensures KeysDistinct(Top(root)) ==> KeysDistinct(Top(Run(root, edits, quote)))
    ensures KeysDistinct(Inner(Top(root), section)) ==> KeysDistinct(Inner(Top(Run(root, edits, quote)), section))
    ensures (forall e :: e in edits ==> e.Section() != section) ==>
      && Inner(Top(Run(root, edits, quote)), section) == Inner(Top(root), section)
      && Entries(Run(root, edits, quote), section) == Entries(root, section)
  {
    if edits != [] {
      var front, e := edits[..|edits| - 1], edits[|edits| - 1];
      RunKeepsKeysAndSections(root, front, quote, section);
      assert e in edits && forall other :: other in front ==> other in edits;
      var before := Run(root, front, quote);
      if Edited(before, e, quote).Ok? {
        var r := Edited(before, e, quote).value;
        EditKeepsKeysDistinct(before, e, quote, section);
        EditStaysInItsSection(before, e, quote);
        if e.Section() != section {
          OtherSectionsStay(before, r, e.Section(), section);
        }
      }
    }
  }

  // ----- edits that undo each other

  /** AddEntry on a section that the document holds, then RemoveEntry of the last index, gives
      the tree back, and so every byte. */
  lemma AddEntryThenRemove(root: Value, section: string, entry: Body, quote: Quote)
    requires Holds(Top(root), section) && EntryAdded(root, section, Some(entry), quote).Ok?
    ensures var r := EntryAdded(root, section, Some(entry), quote).value;
      EntryRemoved(r, section, |Entries(root, section)|) == Ok(root)
  {
    var r := EntryAdded(root, section, Some(entry), quote).value;
    ListEditStays(root, AddEntry(section, Some(entry)), quote);
    OnlyMemberAt(Top(root), Top(r), section);
    var es, es' := Entries(root, section), Entries(r, section);
    assert Without(es', |es|) == es;
    var i := IndexOf(Top(root), section);
    assert SetMember(Top(r), i, Top(root)[i].value.body) == Top(root);
  }

  /** AddMapEntry on a section that the document holds, then RemoveMapEntry of the key. */
  lemma AddMapEntryThenRemove(root: Value, section: string, key: string, entry: Body, quote: Quote)
    requires Holds(Top(root), section) && MapEntryAdded(root, section, key, Some(entry), quote).Ok?
    ensures var r := MapEntryAdded(root, section, key, Some(entry), quote).value;
      MapEntryRemoved(r, section, key) == Ok(root)
  {
    var r := MapEntryAdded(root, section, key, Some(entry), quote).value;
    var e := AddMapEntry(section, key, Some(entry));
    MapEditStays(root, e, quote);
    MapEditMembers(root, e, quote);
    OnlyMemberAt(Top(root), Top(r), section);
    var ms, ms' := Inner(Top(root), section), Inner(Top(r), section);
    AbsentStays(ms, ms'[|ms|], key);
    assert Without(ms', |ms|) == ms;
    var i := IndexOf(Top(root), section);
    assert SetMember(Top(r), i, Top(root)[i].value.body) == Top(root);
  }

  /** AddAutoApproverRoute into routes that the document holds, then its removal. */
  lemma AddRouteThenRemove(root: Value, cidr: string, approvers: Body, quote: Quote)
    requires Routes(root, false, quote).Ok? && RouteAdded(root, cidr, approvers, quote).Ok?
    ensures RouteRemoved(RouteAdded(root, cidr, approvers, quote).value, cidr, quote) == Ok(root)
  {
    var e, r := AddRoute(cidr, approvers), RouteAdded(root, cidr, approvers, quote).value;
    RouteEdit(root, e, quote);
    RouteEditIsOnlyMember(root, e, quote);
    OnlyMemberAt(Top(root), Top(r), APPROVERS);
    var ms, ms' := Inner(Top(root), APPROVERS), Inner(Top(r), APPROVERS);
    OnlyMemberAt(ms, ms', "routes");
    var rs, rs' := RoutesOf(root), RoutesOf(r);
    AbsentStays(rs, rs'[|rs|], cidr);
    assert Without(rs', |rs|) == rs;
    var i, j := IndexOf(Top(root), APPROVERS), IndexOf(ms, "routes");
    assert SetMember(ms', j, ms[j].value.body) == ms;
    assert SetMember(Top(r), i, Top(root)[i].value.body) == Top(root);
  }

  /** A rename and the rename back give the tree back exactly when the document wrote the key
      the way that the code writes a key. */
  lemma RenameBackExactly(root: Value, section: string, key: string, newKey: string, quote: Quote)
    requires MapEntryRenamed(root, section, key, newKey, quote).Ok? && KeysDistinct(Inner(Top(root), section))
    ensures var r := MapEntryRenamed(root, section, key, newKey, quote).value;
      var ms := Inner(Top(root), section);
      && MapEntryRenamed(r, section, newKey, key, quote).Ok?
      && (MapEntryRenamed(r, section, newKey, key, quote) == Ok(root) <==> ms[IndexOf(ms, key)].raw == quote(key))
  {
    var e, r := RenameMapEntry(section, key, newKey), MapEntryRenamed(root, section, key, newKey, quote).value;
    MapEditStays(root, e, quote);
    MapEditMembers(root, e, quote);
    OnlyMemberAt(Top(root), Top(r), section);
    var ms, ms' := Inner(Top(root), section), Inner(Top(r), section);
    var i, k := IndexOf(Top(root), section), IndexOf(ms, key);
    assert ms'[k].name == newKey;
    assert forall n :: 0 <= n < |ms| ==> ms'[n].name != key;
    assert IndexOf(ms', newKey) == k;
    var back := ms'[k := ms'[k].(raw := quote(key), name := key)];
    assert back == ms[k := ms[k].(raw := quote(key))];
    var b := Top(root)[i].value.body;
    assert SetMember(Top(r), i, Object(back, b.end)) == SetMember(Top(root), i, Object(back, b.end));
    if ms[k].raw == quote(key) {
      assert back == ms;
      assert SetMember(Top(root), i, b) == Top(root);
    } else {
      assert back[k] != ms[k];
      assert SetMember(Top(root), i, Object(back, b.end))[i] != Top(root)[i];
    }
  }

  // ----- the indent of a new entry

  predicate IsBlank(c: char) {
    c in [' ', '\t', '\n', '\r']
  }

  predicate AllBlank(s: string) {
    forall i :: 0 <= i < |s| ==> IsBlank(s[i])
  }

  /** A block comment closes in the text. */
  predicate Closes(s: string) {
    exists i :: 0 <= i < |s| - 1 && ClosesAt(s, i)
  }

  predicate ClosesAt(s: string, i: nat)
    requires i < |s| - 1
  {
    s[i] == '*' && s[i + 1] == '/'
  }

  /** hujson.Extra: blanks and comments. */
  datatype Piece = Blank(c: char) | Line(text: string) | Block(text: string)

  predicate GoodPiece(p: Piece) {
    match p
    case Blank(c) => IsBlank(c)
    case Line(text) => '\n' !in text
    case Block(text) => !Closes(text)
  }

  function PieceText(p: Piece): string {
    match p
    case Blank(c) => [c]
    case Line(text) => "//" + text + "\n"
    case Block(text) => "/*" + text + "*/"
  }

  function Join(ps: seq<Piece>): string {
    if ps == [] then "" else PieceText(ps[0]) + Join(ps[1..])
  }

  ghost predicate MadeOf(s: string, ps: seq<Piece>) {
    s == Join(ps) && forall i :: 0 <= i < |ps| ==> GoodPiece(ps[i])
  }

  ghost predicate IsExtra(s: string) {
    exists ps :: MadeOf(s, ps)
  }

  lemma {:induction false} TailConcat(a: string, b: string)
    ensures Tail(a + b) == if '\n' in b then Tail(b) else Tail(a) + b
    decreases |b|
  {
    if b == [] {
      assert a + b == a && Tail(a) + b == Tail(a);
    } else {
      var s, front, last := a + b, b[..|b| - 1], b[|b| - 1];
      assert s[..|s| - 1] == a + front && s[|s| - 1] == last && b == front + [last];
      if last != '\n' {
        TailConcat(a, front);
        assert '\n' in b <==> '\n' in front;
        assert (Tail(a) + front) + [last] == Tail(a) + b;
      }
    }
  }

  lemma ClosesInside(a: string, b: string)
    requires Closes(a) || Closes(b)
    ensures Closes(a + b)
  {
    if Closes(a) {
      var i :| 0 <= i < |a| - 1 && ClosesAt(a, i);
      assert ClosesAt(a + b, i);
    } else {
      var i :| 0 <= i < |b| - 1 && ClosesAt(b, i);
      assert ClosesAt(a + b, |a| + i);
    }
  }

  lemma TailOfBlock(text: string)
    ensures Closes(Tail("/*" + text + "*/"))
  {
    var open, close := "/*" + text, "*/";
    assert ClosesAt(close, 0);
    TailConcat(open, close);
    ClosesInside(Tail(open), close);
  }

  lemma TailOfLine(text: string)
    ensures Tail("//" + text + "\n") == ""
  {
    var s := "//" + text + "\n";
    assert s[|s| - 1] == '\n';
  }

  lemma TailOfOneLine(s: string)
    requires '\n' !in s
    ensures Tail(s) == s
  {
    TailConcat("", s);
    assert "" + s == s;
  }

  /** The tail of one piece. */
  lemma TailOfPiece(p: Piece)
    requires GoodPiece(p)
    ensures AllBlank(Tail(PieceText(p))) || Closes(Tail(PieceText(p)))
  {
    match p
    case Blank(c) =>
    case Line(text) => TailOfLine(text);
    case Block(text) => TailOfBlock(text);
  }

  lemma {:induction false} TailIsBlankOrCloses(ps: seq<Piece>)
    requires forall i :: 0 <= i < |ps| ==> GoodPiece(ps[i])
    ensures AllBlank(Tail(Join(ps))) || Closes(Tail(Join(ps)))
  {
    if ps != [] {
      var a, b := PieceText(ps[0]), Join(ps[1..]);
      TailIsBlankOrCloses(ps[1..]);
      TailOfPiece(ps[0]);
      TailConcat(a, b);
      if '\n' !in b {
        TailOfOneLine(b);
        if Closes(Tail(a)) || Closes(b) {
          ClosesInside(Tail(a), b);
        }
      }
    }
  }

  /** The first end of a block comment at or after i. */
  function FirstClose(s: string, i: nat): (k: nat)
    requires i <= |s|
    ensures i <= k <= |s|
    ensures k < |s| ==> k < |s| - 1 && ClosesAt(s, k)
    ensures forall j :: i <= j < k && j < |s| - 1 ==> !ClosesAt(s, j)
    decreases |s| - i
  {
    if i + 1 >= |s| then |s| else if ClosesAt(s, i) then i else FirstClose(s, i + 1)
  }

  function LineEnd(s: string): (k: nat)
    ensures k <= |s| && (k < |s| ==> s[k] == '\n')
    ensures forall j :: 0 <= j < k ==> s[j] != '\n'
  {
    if s == "" || s[0] == '\n' then 0 else 1 + LineEnd(s[1..])
  }

  /** Reading the text from its start gives blanks and whole comments. A text without a
      newline holds no whole line comment, so there it gives blanks and block comments. */
  predicate ReadsAsExtra(s: string)
    decreases |s|
  {
    if s == "" then true
    else if IsBlank(s[0]) then ReadsAsExtra(s[1..])
    else if "//" <= s then var k := LineEnd(s); k < |s| && ReadsAsExtra(s[k + 1..])
    else if "/*" <= s then var k := FirstClose(s, 2); k < |s| && ReadsAsExtra(s[k + 2..])
    else false
  }

  lemma PieceBefore(p: Piece, rest: string)
    requires GoodPiece(p) && IsExtra(rest)
    ensures IsExtra(PieceText(p) + rest)
  {
    var ps :| MadeOf(rest, ps);
    var more := [p] + ps;
    assert more[1..] == ps;
    assert MadeOf(PieceText(p) + rest, more);
  }

  lemma LineAhead(s: string) returns (text: string, rest: string)
    requires "//" <= s && LineEnd(s) < |s|
    ensures GoodPiece(Line(text)) && s == PieceText(Line(text)) + rest && rest == s[LineEnd(s) + 1..]
  {
    var k := LineEnd(s);
    text, rest := s[2..k], s[k + 1..];
    assert s[..2] == "//";
    assert s == s[..2] + text + [s[k]] + rest;
  }

  lemma BlockAhead(s: string) returns (text: string, rest: string)
    requires "/*" <= s && FirstClose(s, 2) < |s|
    ensures GoodPiece(Block(text)) && s == PieceText(Block(text)) + rest && rest == s[FirstClose(s, 2) + 2..]
  {
    var k := FirstClose(s, 2);
    text, rest := s[2..k], s[k + 2..];
    assert s[..2] == "/*";
    assert s == s[..2] + text + [s[k], s[k + 1]] + rest;
    assert [s[k], s[k + 1]] == "*/";
    assert forall j :: 0 <= j < |text| - 1 ==> (ClosesAt(text, j) <==> ClosesAt(s, j + 2));
  }

  lemma {:induction false} ReadTextIsExtra(s: string)
    requires ReadsAsExtra(s)
    ensures IsExtra(s)
    decreases |s|
  {
    if s == "" {
      assert MadeOf(s, []);
    } else if IsBlank(s[0]) {
      ReadTextIsExtra(s[1..]);
      PieceBefore(Blank(s[0]), s[1..]);
      assert s == PieceText(Blank(s[0])) + s[1..];
    } else if "//" <= s {
      var text, rest := LineAhead(s);
      ReadTextIsExtra(rest);
      PieceBefore(Line(text), rest);
    } else {
      var text, rest := BlockAhead(s);
      ReadTextIsExtra(rest);
      PieceBefore(Block(text), rest);
    }
  }

  lemma BlockEnds(text: string, rest: string)
    requires !Closes(text)
    ensures var s := PieceText(Block(text)) + rest;
      FirstClose(s, 2) == |text| + 2 && s[|text| + 4..] == rest && "/*" <= s && !("//" <= s) && !IsBlank(s[0])
  {
    var s := PieceText(Block(text)) + rest;
    var n := |text|;
    assert s[..2] == "/*" && s[0] == '/' && s[1] == '*';
    assert forall j :: 0 <= j < n ==> s[j + 2] == text[j];
    assert s[n + 2] == '*' && s[n + 3] == '/';
    assert ClosesAt(s, n + 2);
    forall j | 2 <= j < n + 2
      ensures !ClosesAt(s, j)
    {
      if j < n + 1 {
        assert !ClosesAt(text, j - 2);
      } else {
        assert s[j + 1] == '*';
      }
    }
    assert FirstClose(s, 2) == n + 2;
  }

  lemma LineEnds(text: string, rest: string)
    requires '\n' !in text
    ensures var s := PieceText(Line(text)) + rest;
      LineEnd(s) == |text| + 2 && s[|text| + 3..] == rest && "//" <= s && !IsBlank(s[0])
  {
    var s := PieceText(Line(text)) + rest;
    assert forall j :: 0 <= j < |text| ==> s[j + 2] == text[j];
    assert s[|text| + 2] == '\n';
  }

  lemma {:induction false} PiecesRead(ps: seq<Piece>)
    requires forall i :: 0 <= i < |ps| ==> GoodPiece(ps[i])
    ensures ReadsAsExtra(Join(ps))
  {
    if ps != [] {
      var rest := Join(ps[1..]);
      PiecesRead(ps[1..]);
      assert GoodPiece(ps[0]);
      match ps[0]
      case Blank(c) =>
        assert ([c] + rest)[1..] == rest;
      case Line(text) =>
        LineEnds(text, rest);
      case Block(text) =>
        BlockEnds(text, rest);
    }
  }

  /** A text is blanks and comments exactly when the scan from its start says so. */
  lemma ReadsExactly(s: string)
    ensures IsExtra(s) <==> ReadsAsExtra(s)
  {
    if IsExtra(s) {
      var ps :| MadeOf(s, ps);
      PiecesRead(ps);
    }
    if ReadsAsExtra(s) {
      ReadTextIsExtra(s);
    }
  }

  lemma {:induction false} BlanksRead(s: string)
    requires AllBlank(s)
    ensures ReadsAsExtra(s)
  {
    if s != "" {
      BlanksRead(s[1..]);
    }
  }

  lemma NewlineBefore(indent: string)
    ensures IsExtra("\n" + indent) <==> ReadsAsExtra(indent)
  {
    var s := "\n" + indent;
    assert s[0] == '\n' && s[1..] == indent;
    ReadsExactly(s);
  }

  /** The text of a new entry stays blanks and comments exactly when the indent that it copies,
      read from its own start, is blanks and whole block comments. A blank indent is, and the
      indent is blank exactly when no block comment closes after the last newline of the text
      before the entry. */
  lemma IndentKeepsTheDocumentExactly(extra: string)
    requires IsExtra(extra) && TrailingIndent(extra).Some?
    ensures var indent := TrailingIndent(extra).value;
      && (IsExtra("\n" + indent) <==> ReadsAsExtra(indent))
      && (AllBlank(indent) <==> !Closes(indent))
      && (AllBlank(indent) ==> ReadsAsExtra(indent))
  {
    var indent := TrailingIndent(extra).value;
    NewlineBefore(indent);
    TailOfExtra(extra);
    if AllBlank(indent) {
      BlanksRead(indent);
    }
  }

  lemma TailOfExtra(extra: string)
    requires IsExtra(extra) && TrailingIndent(extra).Some?
    ensures AllBlank(TrailingIndent(extra).value) <==> !Closes(TrailingIndent(extra).value)
  {
    var ps :| MadeOf(extra, ps);
    TailIsBlankOrCloses(ps);
  }

  lemma WholeCommentReads(indent: string)
    requires indent == "/**/"
    ensures ReadsAsExtra(indent) && !AllBlank(indent)
  {
    BlockEnds("", "");
    assert PieceText(Block("")) + "" == indent;
    assert indent[0] == '/';
  }

  lemma WholeCommentBehind(indent: string, s: string)
    requires indent == "/**/" && s == "\n" + indent && ReadsAsExtra(indent)
    ensures IsExtra(s)
  {
    assert s[1..] == indent;
    ReadsExactly(s);
  }

  lemma WholeCommentTail(indent: string, s: string)
    requires indent == "/**/" && s == "\n" + indent
    ensures TrailingIndent(s) == Some(indent)
  {
    assert '\n' !in indent && s[0] == '\n';
    TailConcat("\n", indent);
    assert Tail("\n") == "" && "" + indent == indent;
  }

  /** A whole comment after the last newline is copied and does no harm. */
  lemma WholeCommentIsCopied()
    ensures IsExtra("\n/**/") && TrailingIndent("\n/**/") == Some("/**/")
    ensures !AllBlank("/**/") && IsExtra("\n" + "/**/")
  {
    var indent, s := "/**/", "\n/**/";
    assert s == "\n" + indent;
    WholeCommentReads(indent);
    WholeCommentBehind(indent, s);
    WholeCommentTail(indent, s);
  }

  /** The text before the only entry of the section acls holds one block comment of two lines. */
  function CommentedDocument(): Value {
    Value("", Object([Member("", "\"acls\"", "acls", "",
      Value("", Array([Value("/*\nb*/", Literal("1"), None)], ""), None))], ""), None)
  }

  lemma TwoLineComment()
    ensures IsExtra("/*\nb*/")
  {
    assert ClosesAt("\nb", 0) ==> false;
    assert !Closes("\nb");
    BlockEnds("\nb", "");
    assert PieceText(Block("\nb")) + "" == "/*\nb*/";
    ReadsExactly("/*\nb*/");
  }

  lemma SecondLine()
    ensures TrailingIndent("/*\nb*/") == Some("b*/")
  {
    TailConcat("/*\n", "b*/");
    assert "/*\n"[2] == '\n' && Tail("/*\n") == "";
    assert "/*\n" + "b*/" == "/*\nb*/" && "" + "b*/" == "b*/";
  }

  lemma SecondLineIsNoExtra()
    ensures !IsExtra("\nb*/")
  {
    var s := "\nb*/";
    assert s[1..] == "b*/";
    assert !ReadsAsExtra("b*/");
    ReadsExactly(s);
  }

  /** The exception is real: after a block comment of two lines, the new entry starts with
      the second line of that comment, which no huJSON text holds between two values. */
  lemma CommentBreaksTheNewEntry(quote: Quote)
    ensures IsExtra(Entries(CommentedDocument(), "acls")[0].before)
    ensures EntryAdded(CommentedDocument(), "acls", Some(Literal("2")), quote).Ok?
    ensures var es := Entries(EntryAdded(CommentedDocument(), "acls", Some(Literal("2")), quote).value, "acls");
      |es| == 2 && es[1].before == "\nb*/" && !IsExtra(es[1].before)
  {
    TwoLineComment();
    SecondLine();
    SecondLineIsNoExtra();
    var root := CommentedDocument();
    assert IndexOf(Top(root), "acls") == 0;
    assert Entries(root, "acls")[0].before == "/*\nb*/";
    assert "\n" + "b*/" == "\nb*/";
  }
}
