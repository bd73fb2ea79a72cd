/** When a policy document keeps the form of huJSON over an edit: each text between two tokens of
    the tree is blanks and comments (internal/policy/document.go). */
module PolicyForm {
  import opened Text
  import opened T = PolicyTree
  import opened E = PolicyEdits
  import opened B = PolicyBytes

  ghost predicate Formed(v: Value) {
    IsExtra(v.before) && FormedBody(v.body) && (v.after.Some? ==> IsExtra(v.after.value))
  }

  ghost predicate FormedBody(b: Body) {
    match b
    case Literal(_) => true
    case Array(elements, end) => IsExtra(end) && forall i :: 0 <= i < |elements| ==> Formed(elements[i])
    case Object(members, end) => IsExtra(end) && forall i :: 0 <= i < |members| ==> FormedMember(members[i])
  }

  ghost predicate FormedMember(m: Member) {
    IsExtra(m.before) && IsExtra(m.gap) && Formed(m.value)
  }

  ghost predicate FormedElements(es: seq<Value>) {
    forall i :: 0 <= i < |es| ==> Formed(es[i])
  }

  ghost predicate FormedMembers(ms: seq<Member>) {
    forall i :: 0 <= i < |ms| ==> FormedMember(ms[i])
  }

  // ----- the parts of a tree

  lemma OneMoreElement(es: seq<Value>, v: Value)
    ensures FormedElements(es + [v]) <==> FormedElements(es) && Formed(v)
  {
    var more := es + [v];
    assert more[|es|] == v;
    assert forall i :: 0 <= i < |es| ==> more[i] == es[i];
  }

  lemma OneMoreMember(ms: seq<Member>, m: Member)
    ensures FormedMembers(ms + [m]) <==> FormedMembers(ms) && FormedMember(m)
  {
    var more := ms + [m];
    assert more[|ms|] == m;
    assert forall i :: 0 <= i < |ms| ==> more[i] == ms[i];
  }

  /** A new body that is formed when the old one is and x holds. */
  lemma BodySet(ms: seq<Member>, k: nat, b: Body, x: bool)
    requires k < |ms|
    requires FormedBody(b) <==> FormedBody(ms[k].value.body) && x
    ensures FormedMembers(SetMember(ms, k, b)) <==> FormedMembers(ms) && x
  {
    var others := SetMember(ms, k, b);
    assert forall i :: 0 <= i < |ms| && i != k ==> others[i] == ms[i];
    BodyInMember(ms[k], b, x);
    if FormedMembers(others) {
      assert FormedMember(others[k]);
      forall i | 0 <= i < |ms|
        ensures FormedMember(ms[i])
      {
        assert i != k ==> FormedMember(others[i]);
      }
    }
    if FormedMembers(ms) && x {
      assert FormedMember(ms[k]);
    }
  }

  lemma BodyInMember(m: Member, b: Body, x: bool)
    requires FormedBody(b) <==> FormedBody(m.value.body) && x
    ensures FormedMember(m.(value := SetBody(m.value, b))) <==> FormedMember(m) && x
  {
    var v := SetBody(m.value, b);
    assert Formed(m.value) <==> IsExtra(m.value.before) && FormedBody(m.value.body) && (m.value.after.Some? ==> IsExtra(m.value.after.value));
    assert Formed(v) <==> IsExtra(v.before) && FormedBody(b) && (v.after.Some? ==> IsExtra(v.after.value));
  }

  lemma SectionSet(root: Value, i: nat, b: Body, x: bool)
    requires root.body.Object? && i < |root.body.members|
    requires FormedBody(b) <==> FormedBody(root.body.members[i].value.body) && x
    ensures Formed(SetSection(root, i, b)) <==> Formed(root) && x
  {
    BodySet(root.body.members, i, b, x);
    var ms := SetMember(root.body.members, i, b);
    assert FormedBody(root.body) <==> IsExtra(root.body.end) && FormedMembers(root.body.members);
    assert FormedBody(Object(ms, root.body.end)) <==> IsExtra(root.body.end) && FormedMembers(ms);
  }

  lemma TopAppended(root: Value, m: Member)
    requires root.body.Object?
    ensures Formed(AppendTop(root, m)) <==> Formed(root) && FormedMember(m)
  {
    OneMoreMember(root.body.members, m);
    var ms := root.body.members + [m];
    assert FormedBody(root.body) <==> IsExtra(root.body.end) && FormedMembers(root.body.members);
    assert FormedBody(Object(ms, root.body.end)) <==> IsExtra(root.body.end) && FormedMembers(ms);
  }

  lemma ShortTexts()
    ensures IsExtra("") && IsExtra(" ")
  {
    ReadsExactly("");
    assert " "[1..] == "";
    ReadsExactly(" ");
  }

  lemma NewElementForm(b: Body, indent: string, comma: bool)
    ensures Formed(NewElement(b, indent, comma)) <==> ReadsAsExtra(indent) && FormedBody(b)
  {
    ShortTexts();
    NewlineBefore(indent);
  }

  lemma NewMemberForm(key: string, b: Body, indent: string, comma: bool, quote: Quote)
    ensures FormedMember(NewMember(key, b, indent, comma, quote)) <==> ReadsAsExtra(indent) && FormedBody(b)
  {
    ShortTexts();
    NewlineBefore(indent);
    assert Formed(Value(" ", b, After(comma))) <==> FormedBody(b);
  }

  lemma EmptySectionForm(key: string, indent: string, comma: bool, quote: Quote)
    ensures FormedMember(EmptySection(key, indent, comma, quote)) <==> ReadsAsExtra(indent)
  {
    NewMemberForm(key, Object([], "\n" + indent), indent, comma, quote);
    NewlineBefore(indent);
  }

  lemma NewSectionForm(section: string, entry: Body, indent: string, quote: Quote)
    requires FormedBody(entry)
    ensures FormedMember(NewSection(section, entry, indent, quote)) <==> ReadsAsExtra(indent) && ReadsAsExtra(indent + "  ")
  {
    var es := [NewElement(entry, indent + "  ", true)];
    NewElementForm(entry, indent + "  ", true);
    NewlineBefore(indent);
    NewMemberForm(section, Array(es, "\n" + indent), indent, true, quote);
    assert FormedBody(Array(es, "\n" + indent)) <==> IsExtra("\n" + indent) && Formed(es[0]);
  }

  lemma NewMapSectionForm(section: string, key: string, entry: Body, indent: string, quote: Quote)
    requires FormedBody(entry)
    ensures FormedMember(NewMapSection(section, key, entry, indent, quote)) <==> ReadsAsExtra(indent) && ReadsAsExtra(indent + "  ")
  {
    var ms := [NewMember(key, entry, indent + "  ", true, quote)];
    NewMemberForm(key, entry, indent + "  ", true, quote);
    NewlineBefore(indent);
    NewMemberForm(section, Object(ms, "\n" + indent), indent, true, quote);
    assert FormedBody(Object(ms, "\n" + indent)) <==> IsExtra("\n" + indent) && FormedMember(ms[0]);
  }

  // ----- the texts that an edit copies

  /** The texts that stand behind a new newline after the edit. */
  function Copied(root: Value, e: Edit, quote: Quote): seq<string> {
    match e
    case AddEntry(section, _) => CopiedForEntry(root, section)
    case AddMapEntry(section, _, _) => CopiedForMapEntry(root, section)
    case AddRoute(_, _) => CopiedForApprovers(root) + CopiedForRoutes(root, quote) + CopiedForRoute(root, quote)
    case SetExitNode(_) => CopiedForApprovers(root) + CopiedForExitNode(root, quote)
    case _ => []
  }

  function CopiedForEntry(root: Value, section: string): seq<string> {
    var ms := Top(root);
    var i := IndexOf(ms, section);
    if i == |ms| then [TopIndent(ms), TopIndent(ms) + "  "]
    else if ms[i].value.body.Array? then [ArrayIndent(ms[i], ms[i].value.body.elements)] else []
  }

  function CopiedForMapEntry(root: Value, section: string): seq<string> {
    var ms := Top(root);
    var i := IndexOf(ms, section);
    if i == |ms| then [TopIndent(ms), TopIndent(ms) + "  "]
    else if ms[i].value.body.Object? then [MapIndent(ms[i], ms[i].value.body.members)] else []
  }

  /** A new section autoApprovers. */
  function CopiedForApprovers(root: Value): seq<string> {
    var ms := Top(root);
    if IndexOf(ms, APPROVERS) == |ms| then [TopIndent(ms)] else []
  }

  /** A new member routes. */
  function CopiedForRoutes(root: Value, quote: Quote): seq<string> {
    match Approvers(root, true, quote)
    case Err(_) => []
    case Ok((root1, i)) =>
      var m := root1.body.members[i];
      var inner := m.value.body.members;
      if IndexOf(inner, "routes") == |inner| then [MapIndent(m, inner)] else []
  }

  /** The new route. */
  function CopiedForRoute(root: Value, quote: Quote): seq<string> {
    match Routes(root, true, quote)
    case Err(_) => []
    case Ok((root1, i, j)) =>
      var m := root1.body.members[i].value.body.members[j];
      [MapIndent(m, m.value.body.members)]
  }

  /** A new member exitNode. */
  function CopiedForExitNode(root: Value, quote: Quote): seq<string> {
    match Approvers(root, true, quote)
    case Err(_) => []
    case Ok((root1, i)) =>
      var m := root1.body.members[i];
      var inner := m.value.body.members;
      if IndexOf(inner, "exitNode") == |inner| then [MapIndent(m, inner)] else []
  }

  predicate AllRead(texts: seq<string>) {
    forall i :: 0 <= i < |texts| ==> ReadsAsExtra(texts[i])
  }

  lemma BothRead(a: seq<string>, b: seq<string>)
    ensures AllRead(a + b) <==> AllRead(a) && AllRead(b)
  {
    var c := a + b;
    assert forall i :: 0 <= i < |a| ==> c[i] == a[i];
    assert forall i :: 0 <= i < |b| ==> c[|a| + i] == b[i];
  }

  lemma OneRead(s: string)
    ensures AllRead([s]) <==> ReadsAsExtra(s)
  {
    assert [s][0] == s;
  }

  lemma TwoRead(s: string, t: string)
    ensures AllRead([s, t]) <==> ReadsAsExtra(s) && ReadsAsExtra(t)
  {
    assert [s, t][0] == s && [s, t][1] == t;
  }

  // ----- each edit

  /** The body that the edit takes from its caller is formed. */
  ghost predicate FormedEdit(e: Edit) {
    match e
    case AddEntry(_, Some(b)) => FormedBody(b)
    case ReplaceEntry(_, _, Some(b)) => FormedBody(b)
    case AddMapEntry(_, _, Some(b)) => FormedBody(b)
    case ReplaceMapEntry(_, _, Some(b)) => FormedBody(b)
    case AddRoute(_, b) => FormedBody(b)
    case ReplaceRoute(_, b) => FormedBody(b)
    case SetExitNode(b) => FormedBody(b)
    case _ => true
  }

  lemma FormedAt(root: Value, i: nat)
    requires Formed(root) && root.body.Object? && i < |root.body.members|
    ensures FormedBody(root.body.members[i].value.body)
  {
    MemberAt(root.body, i);
  }

  lemma MemberAt(b: Body, k: nat)
    requires FormedBody(b) && b.Object? && k < |b.members|
    ensures FormedMembers(b.members) && FormedMember(b.members[k])
    ensures Formed(b.members[k].value) && FormedBody(b.members[k].value.body)
  {
    assert FormedMember(b.members[k]);
    var m := b.members[k];
    assert Formed(m.value);
  }

  lemma ElementAt(b: Body, k: nat)
    requires FormedBody(b) && b.Array? && k < |b.elements|
    ensures FormedElements(b.elements) && Formed(b.elements[k])
  {
  }

  lemma ObjectForm(ms: seq<Member>, end: string)
    ensures FormedBody(Object(ms, end)) <==> IsExtra(end) && FormedMembers(ms)
  {
  }

  lemma EntryForm(root: Value, section: string, entry: Body, quote: Quote)
    requires Formed(root) && FormedBody(entry) && EntryAdded(root, section, Some(entry), quote).Ok?
    ensures Formed(EntryAdded(root, section, Some(entry), quote).value) <==> AllRead(CopiedForEntry(root, section))
  {
    var ms := root.body.members;
    var i := IndexOf(ms, section);
    if i == |ms| {
      var m := NewSection(section, entry, TopIndent(ms), quote);
      NewSectionForm(section, entry, TopIndent(ms), quote);
      TopAppended(root, m);
      TwoRead(TopIndent(ms), TopIndent(ms) + "  ");
    } else {
      var b := ms[i].value.body;
      var v := NewElement(entry, ArrayIndent(ms[i], b.elements), NewComma(b.elements));
      NewElementForm(entry, ArrayIndent(ms[i], b.elements), NewComma(b.elements));
      OneMoreElement(b.elements, v);
      var grown := Array(b.elements + [v], b.end);
      assert FormedBody(b) <==> IsExtra(b.end) && FormedElements(b.elements);
      assert FormedBody(grown) <==> IsExtra(b.end) && FormedElements(grown.elements);
      SectionSet(root, i, grown, Formed(v));
      OneRead(ArrayIndent(ms[i], b.elements));
    }
  }

  /** An object with one more member. */
  lemma GrownObject(ms: seq<Member>, end: string, m: Member)
    ensures FormedBody(Object(ms + [m], end)) <==> FormedBody(Object(ms, end)) && FormedMember(m)
  {
    OneMoreMember(ms, m);
    assert FormedBody(Object(ms, end)) <==> IsExtra(end) && FormedMembers(ms);
    assert FormedBody(Object(ms + [m], end)) <==> IsExtra(end) && FormedMembers(ms + [m]);
  }

  lemma MapEntryForm(root: Value, section: string, key: string, entry: Body, quote: Quote)
    requires Formed(root) && FormedBody(entry) && MapEntryAdded(root, section, key, Some(entry), quote).Ok?
    ensures Formed(MapEntryAdded(root, section, key, Some(entry), quote).value) <==> AllRead(CopiedForMapEntry(root, section))
  {
    var ms := root.body.members;
    var i := IndexOf(ms, section);
    if i == |ms| {
      var m := NewMapSection(section, key, entry, TopIndent(ms), quote);
      NewMapSectionForm(section, key, entry, TopIndent(ms), quote);
      TopAppended(root, m);
      TwoRead(TopIndent(ms), TopIndent(ms) + "  ");
    } else {
      var b := ms[i].value.body;
      var m := NewMember(key, entry, MapIndent(ms[i], b.members), NewMapComma(b.members), quote);
      NewMemberForm(key, entry, MapIndent(ms[i], b.members), NewMapComma(b.members), quote);
      GrownObject(b.members, b.end, m);
      SectionSet(root, i, Object(b.members + [m], b.end), FormedMember(m));
      OneRead(MapIndent(ms[i], b.members));
    }
  }

  /** An edit that only takes text away, or that puts a parsed body in the place of another one. */
  lemma ArrayEditForm(root: Value, e: Edit, quote: Quote)
    requires Formed(root) && FormedEdit(e) && Edited(root, e, quote).Ok? && (e.ReplaceEntry? || e.RemoveEntry?)
    ensures Formed(Edited(root, e, quote).value)
  {
    var i := IndexOf(root.body.members, e.section);
    FormedAt(root, i);
    var b := root.body.members[i].value.body;
    ElementAt(b, e.index);
    if e.ReplaceEntry? {
      ElementReplaced(b.elements, e.index, e.entry.value);
      ArrayForm(b.elements[e.index := SetBody(b.elements[e.index], e.entry.value)], b.end);
      SectionSet(root, i, Array(b.elements[e.index := SetBody(b.elements[e.index], e.entry.value)], b.end), true);
    } else {
      FewerElements(b.elements, e.index);
      ArrayForm(Without(b.elements, e.index), b.end);
      SectionSet(root, i, Array(Without(b.elements, e.index), b.end), true);
    }
  }

  lemma ArrayForm(es: seq<Value>, end: string)
    ensures FormedBody(Array(es, end)) <==> IsExtra(end) && FormedElements(es)
  {
  }

  lemma ElementReplaced(es: seq<Value>, k: nat, b: Body)
    requires FormedElements(es) && k < |es| && FormedBody(b)
    ensures FormedElements(es[k := SetBody(es[k], b)])
  {
    assert Formed(es[k]);
    assert Formed(SetBody(es[k], b));
  }

  lemma FewerElements(es: seq<Value>, k: nat)
    requires FormedElements(es) && k < |es|
    ensures FormedElements(Without(es, k))
  {
    var few := Without(es, k);
    assert forall n :: 0 <= n < |few| ==> few[n] == es[if n < k then n else n + 1];
  }

  lemma MapEditForm(root: Value, e: Edit, quote: Quote)
    requires Formed(root) && FormedEdit(e) && Edited(root, e, quote).Ok? && (e.ReplaceMapEntry? || e.RemoveMapEntry?)
    ensures Formed(Edited(root, e, quote).value)
  {
    var i := IndexOf(root.body.members, e.section);
    FormedAt(root, i);
    var b := root.body.members[i].value.body;
    var k := IndexOf(b.members, e.key);
    MemberAt(b, k);
    if e.ReplaceMapEntry? {
      BodySet(b.members, k, e.entry.value, true);
      ObjectForm(SetMember(b.members, k, e.entry.value), b.end);
      SectionSet(root, i, Object(SetMember(b.members, k, e.entry.value), b.end), true);
    } else {
      FewerMembers(b.members, k);
      ObjectForm(Without(b.members, k), b.end);
      SectionSet(root, i, Object(Without(b.members, k), b.end), true);
    }
  }

  lemma RenameForm(root: Value, e: Edit, quote: Quote)
    requires Formed(root) && Edited(root, e, quote).Ok? && e.RenameMapEntry?
    ensures Formed(Edited(root, e, quote).value)
  {
    var i := IndexOf(root.body.members, e.section);
    FormedAt(root, i);
    var b := root.body.members[i].value.body;
    var k := IndexOf(b.members, e.key);
    MemberAt(b, k);
    var ms := b.members[k := b.members[k].(raw := quote(e.newKey), name := e.newKey)];
    assert forall n :: 0 <= n < |ms| && n != k ==> ms[n] == b.members[n];
    ObjectForm(ms, b.end);
    SectionSet(root, i, Object(ms, b.end), true);
  }

  lemma FewerMembers(ms: seq<Member>, k: nat)
    requires FormedMembers(ms) && k < |ms|
    ensures FormedMembers(Without(ms, k))
  {
    var few := Without(ms, k);
    assert forall n :: 0 <= n < |few| ==> few[n] == ms[if n < k then n else n + 1];
  }

  // ----- the edits of autoApprovers

  lemma ApproversForm(root: Value, create: bool, quote: Quote)
    requires Formed(root) && Approvers(root, create, quote).Ok?
    ensures var (root1, i) := Approvers(root, create, quote).value;
      Formed(root1) <==> AllRead(CopiedForApprovers(root))
  {
    var ms := root.body.members;
    if IndexOf(ms, APPROVERS) == |ms| {
      EmptySectionForm(APPROVERS, TopIndent(ms), true, quote);
      TopAppended(root, EmptySection(APPROVERS, TopIndent(ms), true, quote));
      OneRead(TopIndent(ms));
    }
  }

  lemma RoutesForm(root: Value, quote: Quote)
    requires Formed(root) && Routes(root, true, quote).Ok?
    ensures Formed(Routes(root, true, quote).value.0) <==> AllRead(CopiedForApprovers(root)) && AllRead(CopiedForRoutes(root, quote))
  {
    ApproversForm(root, true, quote);
    var (root1, i) := Approvers(root, true, quote).value;
    var m := root1.body.members[i];
    var b := m.value.body;
    if IndexOf(b.members, "routes") == |b.members| {
      var indent, comma := MapIndent(m, b.members), NewMapComma(b.members);
      var routes := EmptySection("routes", indent, comma, quote);
      EmptySectionForm("routes", indent, comma, quote);
      GrownObject(b.members, b.end, routes);
      SectionSet(root1, i, Object(b.members + [routes], b.end), FormedMember(routes));
      OneRead(indent);
    }
  }

  /** A body two levels below the root. */
  lemma RoutesSet(root: Value, i: nat, j: nat, b: Body, x: bool)
    requires root.body.Object? && i < |root.body.members|
    requires root.body.members[i].value.body.Object? && j < |root.body.members[i].value.body.members|
    requires FormedBody(b) <==> FormedBody(root.body.members[i].value.body.members[j].value.body) && x
    ensures Formed(SetRoutes(root, i, j, b)) <==> Formed(root) && x
  {
    var inner := root.body.members[i].value.body;
    var ms := SetMember(inner.members, j, b);
    BodySet(inner.members, j, b, x);
    assert FormedBody(inner) <==> IsExtra(inner.end) && FormedMembers(inner.members);
    assert FormedBody(Object(ms, inner.end)) <==> IsExtra(inner.end) && FormedMembers(ms);
    SectionSet(root, i, Object(ms, inner.end), x);
  }

  lemma RouteAddedForm(root: Value, cidr: string, approvers: Body, quote: Quote)
    requires Formed(root) && FormedBody(approvers) && RouteAdded(root, cidr, approvers, quote).Ok?
    ensures Formed(RouteAdded(root, cidr, approvers, quote).value) <==>
      AllRead(CopiedForApprovers(root) + CopiedForRoutes(root, quote) + CopiedForRoute(root, quote))
  {
    RoutesForm(root, quote);
    var (root1, i, j) := Routes(root, true, quote).value;
    var m := root1.body.members[i].value.body.members[j];
    var b := m.value.body;
    var indent, comma := MapIndent(m, b.members), NewMapComma(b.members);
    var route := NewMember(cidr, approvers, indent, comma, quote);
    NewMemberForm(cidr, approvers, indent, comma, quote);
    GrownObject(b.members, b.end, route);
    RoutesSet(root1, i, j, Object(b.members + [route], b.end), FormedMember(route));
    OneRead(indent);
    BothRead(CopiedForApprovers(root), CopiedForRoutes(root, quote));
    BothRead(CopiedForApprovers(root) + CopiedForRoutes(root, quote), CopiedForRoute(root, quote));
  }

  lemma RouteChangedForm(root: Value, e: Edit, quote: Quote)
    requires Formed(root) && FormedEdit(e) && Edited(root, e, quote).Ok? && (e.ReplaceRoute? || e.RemoveRoute?)
    ensures Formed(Edited(root, e, quote).value)
  {
    var (root1, i, j) := Routes(root, false, quote).value;
    assert root1 == root;
    FormedAt(root, i);
    var inner := root.body.members[i].value.body;
    MemberAt(inner, j);
    var b := inner.members[j].value.body;
    var k := IndexOf(b.members, e.cidr);
    MemberAt(b, k);
    if e.ReplaceRoute? {
      BodySet(b.members, k, e.approvers, true);
      ObjectForm(SetMember(b.members, k, e.approvers), b.end);
      RoutesSet(root, i, j, Object(SetMember(b.members, k, e.approvers), b.end), true);
    } else {
      FewerMembers(b.members, k);
      ObjectForm(Without(b.members, k), b.end);
      RoutesSet(root, i, j, Object(Without(b.members, k), b.end), true);
    }
  }

  lemma ExitNodeForm(root: Value, approvers: Body, quote: Quote)
    requires Formed(root) && FormedBody(approvers) && ExitNodeSet(root, approvers, quote).Ok?
    ensures Formed(ExitNodeSet(root, approvers, quote).value) <==>
      AllRead(CopiedForApprovers(root) + CopiedForExitNode(root, quote))
  {
    ApproversForm(root, true, quote);
    var (root1, i) := Approvers(root, true, quote).value;
    var m := root1.body.members[i];
    var b := m.value.body;
    var k := IndexOf(b.members, "exitNode");
    BothRead(CopiedForApprovers(root), CopiedForExitNode(root, quote));
    if k < |b.members| {
      assert root1 == root;
      FormedAt(root, i);
      MemberAt(b, k);
      BodySet(b.members, k, approvers, true);
      ObjectForm(SetMember(b.members, k, approvers), b.end);
      SectionSet(root, i, Object(SetMember(b.members, k, approvers), b.end), true);
    } else {
      var indent, comma := MapIndent(m, b.members), NewMapComma(b.members);
      var node := NewMember("exitNode", approvers, indent, comma, quote);
      NewMemberForm("exitNode", approvers, indent, comma, quote);
      GrownObject(b.members, b.end, node);
      SectionSet(root1, i, Object(b.members + [node], b.end), FormedMember(node));
      OneRead(indent);
    }
  }

  /** Every successful edit of a formed document gives a formed document exactly when each text
      that it copies behind a new newline, read from its own start, is blanks and whole block
      comments. An edit that adds no member and no entry copies none. */
  lemma EditKeepsTheFormExactly(root: Value, e: Edit, quote: Quote)
    requires Formed(root) && FormedEdit(e) && Edited(root, e, quote).Ok?
    ensures Formed(Edited(root, e, quote).value) <==> AllRead(Copied(root, e, quote))
  {
    match e
    case AddEntry(section, entry) => EntryForm(root, section, entry.value, quote);
    case AddMapEntry(section, key, entry) => MapEntryForm(root, section, key, entry.value, quote);
    case AddRoute(cidr, approvers) => RouteAddedForm(root, cidr, approvers, quote);
    case SetExitNode(approvers) => ExitNodeForm(root, approvers, quote);
    case ReplaceRoute(_, _) => RouteChangedForm(root, e, quote);
    case RemoveRoute(_) => RouteChangedForm(root, e, quote);
    case RenameMapEntry(_, _, _) => RenameForm(root, e, quote);
    case ReplaceMapEntry(_, _, _) => MapEditForm(root, e, quote);
    case RemoveMapEntry(_, _) => MapEditForm(root, e, quote);
    case _ => ArrayEditForm(root, e, quote);
  }

  // ----- an entry that vanishes

  /** The comment before the only entry ends in a line that starts with two slashes. */
  function SlashedDocument(): Value {
    Value("", Object([Member("", "\"acls\"", "acls", "",
      Value("", Array([Value("/*\n//*/", Literal("1"), None)], "\n"), None))], ""), None)
  }

  /** The same bytes as the edited document, with one entry and a line comment behind it. */
  function SwallowedDocument(): Value {
    Value("", Object([Member("", "\"acls\"", "acls", "",
      Value("", Array([Value("/*\n//*/", Literal("1"), Some(""))], "\n//*/2\n"), None))], ""), None)
  }

  lemma SlashedComment()
    ensures IsExtra("/*\n//*/")
  {
    BlockEnds("\n//", "");
    assert PieceText(Block("\n//")) + "" == "/*\n//*/";
    ReadsExactly("/*\n//*/");
  }

  lemma SwallowedEnd()
    ensures IsExtra("\n//*/2\n") && IsExtra("\n")
  {
    var line := "//*/2\n";
    LineEnds("*/2", "");
    assert PieceText(Line("*/2")) + "" == line;
    NewlineBefore(line);
    assert "\n" + line == "\n//*/2\n";
    NewlineBefore("");
    assert "\n" + "" == "\n";
  }

  lemma SlashedTail()
    ensures TrailingIndent("/*\n//*/") == Some("//*/") && !ReadsAsExtra("//*/")
  {
    TailBehind("/*", "//*/");
    assert "/*" + ("\n" + "//*/") == "/*\n//*/";
    NoNewline("//*/");
  }

  lemma TailBehind(a: string, b: string)
    requires '\n' !in b
    ensures TrailingIndent(a + ("\n" + b)) == Some(b)
  {
    var first := a + "\n";
    assert a + ("\n" + b) == first + b;
    TailConcat(first, b);
    assert first[|a|] == '\n' && Tail(first) == "";
    assert (first + b)[|a|] == '\n';
    assert "" + b == b;
  }

  lemma NoNewline(s: string)
    requires "//" <= s && '\n' !in s
    ensures !ReadsAsExtra(s)
  {
    assert s[0] == '/';
  }

  /** The bytes of a document that lost its form can still be huJSON: here they are the bytes of
      a formed document with one entry, and the new entry is part of a comment. */
  lemma EntryVanishesInAComment(quote: Quote)
    ensures Formed(SlashedDocument()) && Formed(SwallowedDocument())
    ensures EntryAdded(SlashedDocument(), "acls", Some(Literal("2")), quote).Ok?
    ensures var r := EntryAdded(SlashedDocument(), "acls", Some(Literal("2")), quote).value;
      && |Entries(r, "acls")| == 2 && |Entries(SwallowedDocument(), "acls")| == 1
      && !Formed(r) && Pack(r) == Pack(SwallowedDocument())
  {
    SlashedComment();
    SwallowedEnd();
    SlashedTail();
    ShortTexts();
    SlashedForm();
    LostForm(quote);
    SamePack(quote);
  }

  lemma LostForm(quote: Quote)
    requires Formed(SlashedDocument()) && TrailingIndent("/*\n//*/") == Some("//*/") && !ReadsAsExtra("//*/")
    ensures EntryAdded(SlashedDocument(), "acls", Some(Literal("2")), quote).Ok?
    ensures !Formed(EntryAdded(SlashedDocument(), "acls", Some(Literal("2")), quote).value)
    ensures |Entries(SwallowedDocument(), "acls")| == 1
  {
    var root := SlashedDocument();
    assert IndexOf(Top(root), "acls") == 0 && IndexOf(Top(SwallowedDocument()), "acls") == 0;
    EntryForm(root, "acls", Literal("2"), quote);
    OneRead("//*/");
  }

  /** A document with the one section acls, an array. */
  function ArrayDocument(es: seq<Value>, end: string): Value {
    Value("", Object([Member("", "\"acls\"", "acls", "", Value("", Array(es, end), None))], ""), None)
  }

  lemma ArrayDocumentForm(es: seq<Value>, end: string)
    requires FormedElements(es) && IsExtra(end)
    ensures Formed(ArrayDocument(es, end))
  {
    ShortTexts();
    var v := Value("", Array(es, end), None);
    assert Formed(v);
    var m := Member("", "\"acls\"", "acls", "", v);
    assert FormedMember(m);
    assert FormedMembers([m]);
    ObjectForm([m], "");
  }

  lemma SlashedForm()
    requires IsExtra("/*\n//*/") && IsExtra("\n//*/2\n") && IsExtra("\n") && IsExtra("")
    ensures Formed(SlashedDocument()) && Formed(SwallowedDocument())
  {
    var one := Value("/*\n//*/", Literal("1"), None);
    assert Formed(one) && Formed(one.(after := Some("")));
    ArrayDocumentForm([one], "\n");
    ArrayDocumentForm([one.(after := Some(""))], "\n//*/2\n");
  }

  lemma PackOfDocument(es: seq<Value>, end: string, fs: seq<Value>, end': string)
    requires PackBody(Array(es, end)) == PackBody(Array(fs, end'))
    ensures Pack(ArrayDocument(es, end)) == Pack(ArrayDocument(fs, end'))
  {
    var v, w := Value("", Array(es, end), None), Value("", Array(fs, end'), None);
    assert Pack(v) == Pack(w);
    var m, n := Member("", "\"acls\"", "acls", "", v), Member("", "\"acls\"", "acls", "", w);
    assert PackMember(m) == PackMember(n);
    assert ObjectTexts([m]) == [PackMember(m)] && ObjectTexts([n]) == [PackMember(n)];
    assert PackBody(Object([m], "")) == PackBody(Object([n], ""));
  }

  lemma SamePack(quote: Quote)
    requires TrailingIndent("/*\n//*/") == Some("//*/")
    ensures var r := EntryAdded(SlashedDocument(), "acls", Some(Literal("2")), quote).value;
      Pack(r) == Pack(SwallowedDocument()) && |Entries(r, "acls")| == 2
  {
    var one, two := Value("/*\n//*/", Literal("1"), None), Value("\n//*/", Literal("2"), None);
    var last := one.(after := Some(""));
    var r := EntryAdded(SlashedDocument(), "acls", Some(Literal("2")), quote).value;
    assert IndexOf(Top(SlashedDocument()), "acls") == 0;
    assert "\n" + "//*/" == "\n//*/";
    assert [one] + [two] == [one, two];
    assert r.body.members == [Member("", "\"acls\"", "acls", "", Value("", Array([one, two], "\n"), None))];
    assert r == ArrayDocument([one, two], "\n");
    assert SwallowedDocument() == ArrayDocument([last], "\n//*/2\n");
    ListsAgree(one, two, last);
    PackOfDocument([one, two], "\n", [last], "\n//*/2\n");
    assert IndexOf(Top(r), "acls") == 0;
  }

  lemma ListsAgree(one: Value, two: Value, last: Value)
    requires one == Value("/*\n//*/", Literal("1"), None) && two == Value("\n//*/", Literal("2"), None) && last == one.(after := Some(""))
    ensures PackBody(Array([one, two], "\n")) == PackBody(Array([last], "\n//*/2\n"))
  {
    var a, b := "/*\n//*/" + "1", "\n//*/" + "2";
    assert Pack(one) == a && Pack(two) == b && Pack(last) == a;
    assert ArrayTexts([one, two]) == [a, b] && ArrayTexts([last]) == [a];
    assert [a, b][1..] == [b];
    assert List([a, b], false) == a + ("," + (b + ""));
    assert List([a], true) == a + ",";
    assert (a + ("," + (b + ""))) + ("\n" + "]") == (a + ",") + ("\n//*/2\n" + "]");
  }
}
