/** What each edit of a policy document leaves behind, and when it refuses, section by section and
    entry by entry. */
module PolicyLaws {
  import opened Text
  import opened T = PolicyTree
  import opened E = PolicyEdits

  // ----- indents and new nodes

  /** The text ends in a newline and this indent. */
  ghost predicate EndsInIndent(extra: string, indent: string) {
    exists x :: IndentBehind(extra, x, indent)
  }

  predicate IndentBehind(extra: string, x: string, indent: string) {
    extra == x + "\n" + indent && '\n' !in indent
  }

  lemma {:induction false} TailExactly(x: string, indent: string)
    requires '\n' !in indent
    ensures E.Tail(x + "\n" + indent) == indent
    decreases |indent|
  {
    var s := x + "\n" + indent;
    if indent == "" {
      assert s[|s| - 1] == '\n';
    } else {
      var front := indent[..|indent| - 1];
      assert s[..|s| - 1] == x + "\n" + front && s[|s| - 1] == indent[|indent| - 1];
      assert indent[|indent| - 1] in indent;
      TailExactly(x, front);
    }
  }

  /** The indent of a text is what stands behind its last newline. */
  lemma TrailingIndentExactly(extra: string, indent: string)
    ensures EndsInIndent(extra, indent) ==> E.TrailingIndent(extra) == Some(indent)
    ensures '\n' !in extra ==> E.TrailingIndent(extra) == None
  {
    if x :| IndentBehind(extra, x, indent) {
      TailExactly(x, indent);
      assert extra[|x|] == '\n';
    }
  }

  /** A new entry stands under the last one, and in an empty list, or behind an entry on the same
      line, two spaces to the right of the key of the section. */
  lemma EntryIndentsExactly(m: Member, es: seq<Value>, ms: seq<Member>, indent: string)
    ensures es != [] && EndsInIndent(es[|es| - 1].before, indent) ==> E.ArrayIndent(m, es) == indent
    ensures (es == [] || '\n' !in es[|es| - 1].before) && EndsInIndent(m.before, indent) ==> E.ArrayIndent(m, es) == indent + "  "
    ensures (es == [] || '\n' !in es[|es| - 1].before) && '\n' !in m.before ==> E.ArrayIndent(m, es) == "  "
    ensures ms != [] && EndsInIndent(ms[|ms| - 1].before, indent) ==> E.MapIndent(m, ms) == indent
    ensures (ms == [] || '\n' !in ms[|ms| - 1].before) && EndsInIndent(m.before, indent) ==> E.MapIndent(m, ms) == indent + "  "
    ensures (ms == [] || '\n' !in ms[|ms| - 1].before) && '\n' !in m.before ==> E.MapIndent(m, ms) == "  "
  {
    TrailingIndentExactly(m.before, indent);
    if es != [] {
      TrailingIndentExactly(es[|es| - 1].before, indent);
    }
    if ms != [] {
      TrailingIndentExactly(ms[|ms| - 1].before, indent);
    }
  }

  /** A new section stands under the last key that starts a line, or two spaces in. */
  lemma {:induction false} TopIndentExactly(ms: seq<Member>, k: nat, indent: string)
    requires k <= |ms| && forall j :: k < j < |ms| ==> '\n' !in ms[j].before
    ensures k < |ms| && EndsInIndent(ms[k].before, indent) ==> E.TopIndent(ms) == indent
    ensures k == 0 && (ms != [] ==> '\n' !in ms[0].before) ==> E.TopIndent(ms) == "  "
    decreases |ms|
  {
    if ms != [] {
      TrailingIndentExactly(ms[|ms| - 1].before, indent);
      if k < |ms| - 1 {
        TopIndentExactly(ms[..|ms| - 1], k, indent);
      } else if k == 0 {
        assert ms[..|ms| - 1] == [];
      }
    }
  }

  /** What an edit writes. Each new node starts a line; a new key is followed by a colon and a space;
      a whole new section holds its one entry two spaces to the right, with a comma behind it, and
      closes on a line of its own. */
  lemma NewNodesExactly(key: string, inner: string, b: Body, indent: string, comma: bool, quote: Quote)
    ensures Pack(E.NewElement(b, indent, comma)) == "\n" + indent + PackBody(b)
    ensures PackMember(E.NewMember(key, b, indent, comma, quote)) == "\n" + indent + quote(key) + ": " + PackBody(b)
    ensures PackMember(E.NewSection(key, b, indent, quote)) ==
      "\n" + indent + quote(key) + ": [" + ("\n" + (indent + "  ") + PackBody(b) + "," + ("\n" + indent + "]"))
    ensures PackMember(E.NewMapSection(key, inner, b, indent, quote)) ==
      "\n" + indent + quote(key) + ": {" + ("\n" + (indent + "  ") + quote(inner) + ": " + PackBody(b) + "," + ("\n" + indent + "}"))
    ensures E.NewMember(key, b, indent, comma, quote).name == key == E.NewSection(key, b, indent, quote).name == E.NewMapSection(key, inner, b, indent, quote).name
    ensures (E.NewElement(b, indent, comma).after.Some? <==> comma) && (E.NewMember(key, b, indent, comma, quote).value.after.Some? <==> comma)
    ensures E.NewSection(key, b, indent, quote).value.after.Some? && E.NewMapSection(key, inner, b, indent, quote).value.after.Some?
  {
    PackedMember(key, b, indent, comma, quote);
    PackedMember(inner, b, indent + "  ", true, quote);
    OneElement(b, indent, quote);
    OneMember(inner, b, indent, quote);
    var list := Array([E.NewElement(b, indent + "  ", true)], "\n" + indent);
    var object' := Object([E.NewMember(inner, b, indent + "  ", true, quote)], "\n" + indent);
    PackedMember(key, list, indent, true, quote);
    PackedMember(key, object', indent, true, quote);
    Opens("\n" + indent + quote(key), "[", "\n" + (indent + "  ") + PackBody(b) + "," + ("\n" + indent + "]"));
    Opens("\n" + indent + quote(key), "{", "\n" + (indent + "  ") + quote(inner) + ": " + PackBody(b) + "," + ("\n" + indent + "}"));
  }

  lemma Opens(head: string, open: string, rest: string)
    requires |open| == 1
    ensures head + ": " + (open + rest) == head + (": " + open) + rest
    ensures open == "[" ==> ": " + open == ": ["
    ensures open == "{" ==> ": " + open == ": {"
  {
  }

  lemma PackedMember(key: string, b: Body, indent: string, comma: bool, quote: Quote)
    ensures Pack(E.NewElement(b, indent, comma)) == "\n" + indent + PackBody(b)
    ensures PackMember(E.NewMember(key, b, indent, comma, quote)) == "\n" + indent + quote(key) + ": " + PackBody(b)
  {
    var v := E.NewElement(b, indent, comma);
    assert Pack(v) == "\n" + indent + PackBody(b) + "";
    var m := E.NewMember(key, b, indent, comma, quote);
    assert Pack(m.value) == " " + PackBody(b) + "";
    assert PackMember(m) == "\n" + indent + quote(key) + ("" + ":" + (" " + PackBody(b)));
    assert "" + ":" + (" " + PackBody(b)) == ": " + PackBody(b);
  }

  lemma OneElement(b: Body, indent: string, quote: Quote)
    ensures PackBody(Array([E.NewElement(b, indent + "  ", true)], "\n" + indent)) ==
      "[" + ("\n" + (indent + "  ") + PackBody(b) + "," + ("\n" + indent + "]"))
  {
    var v := E.NewElement(b, indent + "  ", true);
    PackedMember("", b, indent + "  ", true, quote);
    assert ArrayTexts([v]) == [Pack(v)];
    assert List([Pack(v)], true) == Pack(v) + ",";
  }

  lemma OneMember(key: string, b: Body, indent: string, quote: Quote)
    ensures PackBody(Object([E.NewMember(key, b, indent + "  ", true, quote)], "\n" + indent)) ==
      "{" + ("\n" + (indent + "  ") + quote(key) + ": " + PackBody(b) + "," + ("\n" + indent + "}"))
  {
    var m := E.NewMember(key, b, indent + "  ", true, quote);
    PackedMember(key, b, indent + "  ", true, quote);
    assert ObjectTexts([m]) == [PackMember(m)];
    assert List([PackMember(m)], true) == PackMember(m) + ",";
  }

  lemma ListOfTwo(a: string, b: string, comma: bool)
    ensures List([a, b], comma) == a + ("," + (b + Comma(comma))) && List([a], comma) == a + Comma(comma)
  {
    assert [a, b][1..] == [b];
    assert List([b], comma) == b + Comma(comma);
  }

  /** The bytes of a list and of an object with two entries: a comma between them, and one behind the
      last entry that has a text after it. */
  lemma PackedPairs(v: Value, w: Value, m: Member, n: Member, end: string)
    ensures PackBody(Array([v, w], end)) == "[" + ((Pack(v) + ("," + (Pack(w) + if w.after.Some? then "," else ""))) + (end + "]"))
    ensures PackBody(Object([m, n], end)) ==
      "{" + ((PackMember(m) + ("," + (PackMember(n) + if n.value.after.Some? then "," else ""))) + (end + "}"))
    ensures PackMember(m) == m.before + m.raw + (m.gap + ":" + Pack(m.value))
  {
    assert ArrayTexts([v, w]) == [Pack(v), Pack(w)] && ObjectTexts([m, n]) == [PackMember(m), PackMember(n)];
    ListOfTwo(Pack(v), Pack(w), w.after.Some?);
    ListOfTwo(PackMember(m), PackMember(n), n.value.after.Some?);
  }

  // ----- the list sections

  /** The section that the document holds first under this name. */
  predicate SectionAt(root: Value, section: string, i: nat) {
    root.body.Object? && i < |root.body.members| && root.body.members[i].name == section
    && forall k :: 0 <= k < i ==> root.body.members[k].name != section
  }

  /** The member with another body in its value, and nothing else changed. */
  function WithBody(m: Member, b: Body): Member {
    Member(m.before, m.raw, m.name, m.gap, Value(m.value.before, b, m.value.after))
  }

  /** The edit succeeds, and it changes the document in one place: section i has this body. */
  predicate Becomes(root: Value, r: Result<Value, Error>, i: nat, b: Body) {
    root.body.Object? && i < |root.body.members| &&
    r == Ok(Value(root.before, Object(root.body.members[i := WithBody(root.body.members[i], b)], root.body.end), root.after))
  }

  /** The edit succeeds, and the document has one more section, the last one. */
  predicate Gains(root: Value, r: Result<Value, Error>, m: Member) {
    root.body.Object? && r == Ok(Value(root.before, Object(root.body.members + [m], root.body.end), root.after))
  }

  predicate NoSectionNamed(root: Value, section: string) {
    root.body.Object? && forall k :: 0 <= k < |root.body.members| ==> root.body.members[k].name != section
  }

  lemma SectionIndex(root: Value, section: string, i: nat)
    ensures SectionAt(root, section, i) ==> IndexOf(Top(root), section) == i && Holds(Top(root), section)
    ensures NoSectionNamed(root, section) ==> IndexOf(Top(root), section) == |Top(root)| && !Holds(Top(root), section)
  {
  }

  lemma AddEntryExactly(root: Value, section: string, entry: Option<Body>, quote: Quote, i: nat)
    ensures var r := Edited(root, AddEntry(section, entry), quote);
      && (entry.None? ==> r == Err(ParseFailed))
      && (entry.Some? && !root.body.Object? ==> r == Err(RootNotObject))
      && (entry.Some? && NoSectionNamed(root, section) ==>
            Gains(root, r, E.NewSection(section, entry.value, E.TopIndent(Top(root)), quote)))
      && (entry.Some? && SectionAt(root, section, i) && !Top(root)[i].value.body.Array? ==> r == Err(NotAnArray))
      && (entry.Some? && SectionAt(root, section, i) && Top(root)[i].value.body.Array? ==>
            var es := Top(root)[i].value.body.elements;
            var v := E.NewElement(entry.value, E.ArrayIndent(Top(root)[i], es), es == [] || es[|es| - 1].after.Some?);
            Becomes(root, r, i, Array(es + [v], Top(root)[i].value.body.end)))
  {
    SectionIndex(root, section, i);
  }

  /** The checks that the edits of a list entry share, in their order. */
  lemma ListRefusals(root: Value, section: string, index: int, entry: Option<Body>, quote: Quote, i: nat)
    ensures var r, q := Edited(root, ReplaceEntry(section, index, entry), quote), Edited(root, RemoveEntry(section, index), quote);
      && (!root.body.Object? ==> r == q == Err(RootNotObject))
      && (NoSectionNamed(root, section) ==> r == q == Err(NoSection))
      && (SectionAt(root, section, i) && !Top(root)[i].value.body.Array? ==> r == q == Err(NotAnArray))
      && (SectionAt(root, section, i) && Top(root)[i].value.body.Array? ==>
            var n := |Top(root)[i].value.body.elements|;
            && (index < 0 || index >= n ==> r == q == Err(OutOfRange))
            && (0 <= index < n && entry.None? ==> r == Err(ParseFailed)))
  {
    SectionIndex(root, section, i);
  }

  /** A replacement changes the body of one entry and a removal takes one entry out. */
  lemma ListEditsExactly(root: Value, section: string, index: int, entry: Option<Body>, quote: Quote, i: nat)
    requires SectionAt(root, section, i) && Top(root)[i].value.body.Array? && 0 <= index < |Top(root)[i].value.body.elements|
    ensures var r, q := Edited(root, ReplaceEntry(section, index, entry), quote), Edited(root, RemoveEntry(section, index), quote);
      var es, end := Top(root)[i].value.body.elements, Top(root)[i].value.body.end;
      && (entry.Some? ==>
            Becomes(root, r, i, Array(es[..index] + [Value(es[index].before, entry.value, es[index].after)] + es[index + 1..], end)))
      && Becomes(root, q, i, Array(es[..index] + es[index + 1..], end))
  {
    SectionIndex(root, section, i);
    var es := Top(root)[i].value.body.elements;
    if entry.Some? {
      assert es[index := Value(es[index].before, entry.value, es[index].after)]
          == es[..index] + [Value(es[index].before, entry.value, es[index].after)] + es[index + 1..];
    }
  }

  // ----- the map sections

  predicate KeyAt(ms: seq<Member>, key: string, k: nat) {
    k < |ms| && ms[k].name == key && forall j :: 0 <= j < k ==> ms[j].name != key
  }

  predicate NoKeyNamed(ms: seq<Member>, key: string) {
    forall j :: 0 <= j < |ms| ==> ms[j].name != key
  }

  lemma KeyIndex(ms: seq<Member>, key: string, k: nat)
    ensures KeyAt(ms, key, k) ==> IndexOf(ms, key) == k && Holds(ms, key)
    ensures NoKeyNamed(ms, key) ==> IndexOf(ms, key) == |ms| && !Holds(ms, key)
  {
  }

  /** What an add puts behind the members of an object that m holds: it stands under the last one,
      and a comma follows it where one followed the last one, or where it is the first. */
  function NewLast(m: Member, ms: seq<Member>, key: string, b: Body, quote: Quote): Member {
    E.NewMember(key, b, E.MapIndent(m, ms), ms == [] || ms[|ms| - 1].value.after.Some?, quote)
  }

  lemma AddMapEntryExactly(root: Value, section: string, key: string, entry: Option<Body>, quote: Quote, i: nat, k: nat)
    ensures var r := Edited(root, AddMapEntry(section, key, entry), quote);
      && (entry.None? ==> r == Err(ParseFailed))
      && (entry.Some? && !root.body.Object? ==> r == Err(RootNotObject))
      && (entry.Some? && NoSectionNamed(root, section) ==>
            Gains(root, r, E.NewMapSection(section, key, entry.value, E.TopIndent(Top(root)), quote)))
      && (entry.Some? && SectionAt(root, section, i) && !Top(root)[i].value.body.Object? ==> r == Err(NotAnObject))
      && (entry.Some? && SectionAt(root, section, i) && Top(root)[i].value.body.Object? ==>
            var ms := Top(root)[i].value.body.members;
            && (KeyAt(ms, key, k) ==> r == Err(HasKey))
            && (NoKeyNamed(ms, key) ==>
                  Becomes(root, r, i, Object(ms + [NewLast(Top(root)[i], ms, key, entry.value, quote)], Top(root)[i].value.body.end))))
  {
    SectionIndex(root, section, i);
    if SectionAt(root, section, i) && Top(root)[i].value.body.Object? {
      KeyIndex(Top(root)[i].value.body.members, key, k);
    }
  }

  /** The checks that the edits of a map entry share, in their order. */
  lemma MapRefusals(root: Value, section: string, key: string, newKey: string, entry: Option<Body>, quote: Quote, i: nat)
    ensures var r, q, n := Edited(root, ReplaceMapEntry(section, key, entry), quote), Edited(root, RemoveMapEntry(section, key), quote),
        Edited(root, RenameMapEntry(section, key, newKey), quote);
      && (!root.body.Object? ==> r == q == n == Err(RootNotObject))
      && (NoSectionNamed(root, section) ==> r == q == n == Err(NoSection))
      && (SectionAt(root, section, i) && !Top(root)[i].value.body.Object? ==> r == q == n == Err(NotAnObject))
      && (SectionAt(root, section, i) && Top(root)[i].value.body.Object? && NoKeyNamed(Top(root)[i].value.body.members, key) ==>
            r == q == n == Err(NoKey))
  {
    SectionIndex(root, section, i);
    if SectionAt(root, section, i) && Top(root)[i].value.body.Object? {
      KeyIndex(Top(root)[i].value.body.members, key, 0);
    }
  }

  /** A replacement changes the body of the value of one key, a removal takes one member out, and a
      rename changes how one key is written, and refuses a key that the section holds. */
  lemma MapEditsExactly(root: Value, section: string, key: string, newKey: string, entry: Option<Body>, quote: Quote, i: nat, k: nat, taken: nat)
    requires SectionAt(root, section, i) && Top(root)[i].value.body.Object? && KeyAt(Top(root)[i].value.body.members, key, k)
    ensures var r, q, n := Edited(root, ReplaceMapEntry(section, key, entry), quote), Edited(root, RemoveMapEntry(section, key), quote),
        Edited(root, RenameMapEntry(section, key, newKey), quote);
      var ms, end := Top(root)[i].value.body.members, Top(root)[i].value.body.end;
      var m := ms[k];
      && (entry.None? ==> r == Err(ParseFailed))
      && (entry.Some? ==> Becomes(root, r, i, Object(ms[k := WithBody(m, entry.value)], end)))
      && Becomes(root, q, i, Object(ms[..k] + ms[k + 1..], end))
      && (KeyAt(ms, newKey, taken) ==> n == Err(HasKey))
      && (NoKeyNamed(ms, newKey) ==> Becomes(root, n, i, Object(ms[k := Member(m.before, quote(newKey), newKey, m.gap, m.value)], end)))
  {
    SectionIndex(root, section, i);
    KeyIndex(Top(root)[i].value.body.members, key, k);
    KeyIndex(Top(root)[i].value.body.members, newKey, taken);
  }

  // ----- autoApprovers

  /** Where the document keeps the routes: section i is autoApprovers, and its member j is routes. */
  predicate RoutesAt(root: Value, i: nat, j: nat) {
    && SectionAt(root, "autoApprovers", i) && Top(root)[i].value.body.Object?
    && KeyAt(Top(root)[i].value.body.members, "routes", j) && Top(root)[i].value.body.members[j].value.body.Object?
  }

  predicate ApproversAt(root: Value, i: nat) {
    SectionAt(root, "autoApprovers", i) && Top(root)[i].value.body.Object?
  }

  /** When a route edit refuses: the root, autoApprovers or routes is no object, or an edit that may
      not create one of the two misses it. */
  lemma RouteRefusals(root: Value, cidr: string, approvers: Body, quote: Quote, i: nat, j: nat)
    ensures var a, r, q := Edited(root, AddRoute(cidr, approvers), quote), Edited(root, ReplaceRoute(cidr, approvers), quote),
        Edited(root, RemoveRoute(cidr), quote);
      && (!root.body.Object? ==> a == r == q == Err(RootNotObject))
      && (SectionAt(root, "autoApprovers", i) && !Top(root)[i].value.body.Object? ==> a == r == q == Err(NotAnObject))
      && (NoSectionNamed(root, "autoApprovers") ==> r == q == Err(NoSection))
      && (ApproversAt(root, i) && NoKeyNamed(Top(root)[i].value.body.members, "routes") ==> r == q == Err(NoSection))
      && (ApproversAt(root, i) && KeyAt(Top(root)[i].value.body.members, "routes", j) && !Top(root)[i].value.body.members[j].value.body.Object? ==>
            a == r == q == Err(NotAnObject))
  {
    SectionIndex(root, "autoApprovers", i);
    if ApproversAt(root, i) {
      KeyIndex(Top(root)[i].value.body.members, "routes", j);
    }
  }

  /** The routes with another body: section i with member j changed. */
  function RoutesWith(root: Value, i: nat, j: nat, b: Body): Body
    requires RoutesAt(root, i, j)
  {
    var approvers := Top(root)[i].value.body;
    Object(approvers.members[j := WithBody(approvers.members[j], b)], approvers.end)
  }

  lemma AddRouteExactly(root: Value, cidr: string, approvers: Body, quote: Quote, i: nat, j: nat, k: nat)
    requires RoutesAt(root, i, j)
    ensures var a := Edited(root, AddRoute(cidr, approvers), quote);
      var m := Top(root)[i].value.body.members[j];
      var rs, end := m.value.body.members, m.value.body.end;
      && (KeyAt(rs, cidr, k) ==> a == Err(HasKey))
      && (NoKeyNamed(rs, cidr) ==> Becomes(root, a, i, RoutesWith(root, i, j, Object(rs + [NewLast(m, rs, cidr, approvers, quote)], end))))
  {
    SectionIndex(root, "autoApprovers", i);
    KeyIndex(Top(root)[i].value.body.members, "routes", j);
    KeyIndex(Top(root)[i].value.body.members[j].value.body.members, cidr, k);
  }

  lemma RouteEditsExactly(root: Value, cidr: string, approvers: Body, quote: Quote, i: nat, j: nat, k: nat)
    requires RoutesAt(root, i, j)
    ensures var r, q := Edited(root, ReplaceRoute(cidr, approvers), quote), Edited(root, RemoveRoute(cidr), quote);
      var m := Top(root)[i].value.body.members[j];
      var rs, end := m.value.body.members, m.value.body.end;
      && (NoKeyNamed(rs, cidr) ==> r == q == Err(NoKey))
      && (KeyAt(rs, cidr, k) ==>
            && Becomes(root, r, i, RoutesWith(root, i, j, Object(rs[k := WithBody(rs[k], approvers)], end)))
            && Becomes(root, q, i, RoutesWith(root, i, j, Object(rs[..k] + rs[k + 1..], end))))
  {
    SectionIndex(root, "autoApprovers", i);
    KeyIndex(Top(root)[i].value.body.members, "routes", j);
    KeyIndex(Top(root)[i].value.body.members[j].value.body.members, cidr, k);
  }

  /** A new routes member with one route. */
  function FirstRoute(routes: Member, cidr: string, approvers: Body, quote: Quote): Member
    requires routes.value.body.Object?
  {
    WithBody(routes, Object([NewLast(routes, [], cidr, approvers, quote)], routes.value.body.end))
  }

  /** An add creates what is missing: routes behind the members of autoApprovers, and autoApprovers
      with routes behind the sections of the document. */
  lemma FirstRouteExactly(root: Value, cidr: string, approvers: Body, quote: Quote, i: nat)
    ensures var a := Edited(root, AddRoute(cidr, approvers), quote);
      && (ApproversAt(root, i) && NoKeyNamed(Top(root)[i].value.body.members, "routes") ==>
            var m := Top(root)[i];
            var ms := m.value.body.members;
            var routes := NewLast(m, ms, "routes", Object([], "\n" + E.MapIndent(m, ms)), quote);
            Becomes(root, a, i, Object(ms + [FirstRoute(routes, cidr, approvers, quote)], m.value.body.end)))
      && (NoSectionNamed(root, "autoApprovers") ==>
            var top := E.TopIndent(Top(root));
            var section := E.NewMember("autoApprovers", Object([], "\n" + top), top, true, quote);
            var routes := NewLast(section, [], "routes", Object([], "\n" + E.MapIndent(section, [])), quote);
            Gains(root, a, WithBody(section, Object([FirstRoute(routes, cidr, approvers, quote)], "\n" + top))))
  {
    SectionIndex(root, "autoApprovers", i);
    if ApproversAt(root, i) && NoKeyNamed(Top(root)[i].value.body.members, "routes") {
      KeyIndex(Top(root)[i].value.body.members, "routes", 0);
      RouteBehind(root, cidr, approvers, quote, i);
    }
    if NoSectionNamed(root, "autoApprovers") {
      RouteInNewSection(root, cidr, approvers, quote);
    }
  }

  lemma RouteBehind(root: Value, cidr: string, approvers: Body, quote: Quote, i: nat)
    requires ApproversAt(root, i) && NoKeyNamed(Top(root)[i].value.body.members, "routes")
    ensures var m := Top(root)[i];
      var ms := m.value.body.members;
      var routes := NewLast(m, ms, "routes", Object([], "\n" + E.MapIndent(m, ms)), quote);
      Becomes(root, Edited(root, AddRoute(cidr, approvers), quote), i, Object(ms + [FirstRoute(routes, cidr, approvers, quote)], m.value.body.end))
  {
    SectionIndex(root, "autoApprovers", i);
    var m := Top(root)[i];
    var ms := m.value.body.members;
    KeyIndex(ms, "routes", 0);
    var routes := NewLast(m, ms, "routes", Object([], "\n" + E.MapIndent(m, ms)), quote);
    assert routes == E.EmptySection("routes", E.MapIndent(m, ms), E.NewMapComma(ms), quote);
    SetAppended(ms, routes, FirstRoute(routes, cidr, approvers, quote).value.body);
    var root1 := SetSection(root, i, Object(ms + [routes], m.value.body.end));
    assert Routes(root, true, quote) == Ok((root1, i, |ms|));
    assert root1.body.members[i].value.body.members[|ms|] == routes;
    var route := NewLast(routes, [], cidr, approvers, quote);
    assert [] + [route] == [route];
    assert Edited(root, AddRoute(cidr, approvers), quote) == Ok(SetRoutes(root1, i, |ms|, Object([route], routes.value.body.end)));
    SetTwice(Top(root), i, Object(ms + [routes], m.value.body.end), Object(ms + [FirstRoute(routes, cidr, approvers, quote)], m.value.body.end));
  }

  /** autoApproversObject creates the section at the end of the document. */
  lemma SectionCreated(root: Value, section: Member, root1: Value, quote: Quote)
    requires NoSectionNamed(root, "autoApprovers") && root1 == AppendTop(root, section)
    requires section == E.NewMember("autoApprovers", Object([], "\n" + E.TopIndent(Top(root))), E.TopIndent(Top(root)), true, quote)
    ensures var i := |Top(root)|;
      && Top(root1) == Top(root) + [section] && IndexOf(Top(root1), "autoApprovers") == i
      && ApproversAt(root1, i) && NoKeyNamed(section.value.body.members, "routes")
      && Approvers(root, true, quote) == Ok((root1, i)) == Approvers(root1, true, quote)
  {
    SectionIndex(root, "autoApprovers", 0);
    AbsentStays(Top(root), section, "autoApprovers");
    assert Top(root1) == Top(root) + [section] && Top(root1)[|Top(root)|] == section;
  }

  lemma SameRoutes(root: Value, root1: Value, cidr: string, approvers: Body, quote: Quote)
    requires Approvers(root, true, quote) == Approvers(root1, true, quote)
    ensures Edited(root, AddRoute(cidr, approvers), quote) == Edited(root1, AddRoute(cidr, approvers), quote)
  {
    assert Routes(root, true, quote) == Routes(root1, true, quote);
  }

  lemma RouteInNewSection(root: Value, cidr: string, approvers: Body, quote: Quote)
    requires NoSectionNamed(root, "autoApprovers")
    ensures var a := Edited(root, AddRoute(cidr, approvers), quote);
      var top := E.TopIndent(Top(root));
      var section := E.NewMember("autoApprovers", Object([], "\n" + top), top, true, quote);
      var routes := NewLast(section, [], "routes", Object([], "\n" + E.MapIndent(section, [])), quote);
      Gains(root, a, WithBody(section, Object([FirstRoute(routes, cidr, approvers, quote)], "\n" + top)))
  {
    var top := E.TopIndent(Top(root));
    var section := E.NewMember("autoApprovers", Object([], "\n" + top), top, true, quote);
    var root1 := AppendTop(root, section);
    SectionCreated(root, section, root1, quote);
    SameRoutes(root, root1, cidr, approvers, quote);
    RouteBehind(root1, cidr, approvers, quote, |Top(root)|);
    EditStaysInItsSection(root1, AddRoute(cidr, approvers), quote);
    LastChanged(Top(root), section, Top(Edited(root, AddRoute(cidr, approvers), quote).value));
    var routes := NewLast(section, [], "routes", Object([], "\n" + E.MapIndent(section, [])), quote);
    assert [] + [FirstRoute(routes, cidr, approvers, quote)] == [FirstRoute(routes, cidr, approvers, quote)];
  }

  lemma LastChanged(ms: seq<Member>, m: Member, ms': seq<Member>)
    requires |ms'| == |ms| + 1 && ms' == SetMember(ms + [m], |ms|, ms'[|ms|].value.body)
    ensures ms' == ms + [WithBody(m, ms'[|ms|].value.body)]
  {
    SetAppended(ms, m, ms'[|ms|].value.body);
  }

  /** The exit node: the one member of autoApprovers with this name takes the approvers, and it is
      created where it is missing. */
  lemma SetExitNodeExactly(root: Value, approvers: Body, quote: Quote, i: nat, k: nat)
    ensures var a := Edited(root, SetExitNode(approvers), quote);
      && (!root.body.Object? ==> a == Err(RootNotObject))
      && (SectionAt(root, "autoApprovers", i) && !Top(root)[i].value.body.Object? ==> a == Err(NotAnObject))
      && (ApproversAt(root, i) ==>
            var m := Top(root)[i];
            var ms, end := m.value.body.members, m.value.body.end;
            && (KeyAt(ms, "exitNode", k) ==> Becomes(root, a, i, Object(ms[k := WithBody(ms[k], approvers)], end)))
            && (NoKeyNamed(ms, "exitNode") ==> Becomes(root, a, i, Object(ms + [NewLast(m, ms, "exitNode", approvers, quote)], end))))
      && (NoSectionNamed(root, "autoApprovers") ==>
            var top := E.TopIndent(Top(root));
            var section := E.NewMember("autoApprovers", Object([], "\n" + top), top, true, quote);
            Gains(root, a, WithBody(section, Object([NewLast(section, [], "exitNode", approvers, quote)], "\n" + top))))
  {
    SectionIndex(root, "autoApprovers", i);
    if ApproversAt(root, i) {
      KeyIndex(Top(root)[i].value.body.members, "exitNode", k);
    }
    if NoSectionNamed(root, "autoApprovers") {
      var top := E.TopIndent(Top(root));
      var section := E.NewMember("autoApprovers", Object([], "\n" + top), top, true, quote);
      var node := NewLast(section, [], "exitNode", approvers, quote);
      SetAppended(Top(root), section, Object([node], "\n" + top));
      var root1 := AppendTop(root, section);
      assert Approvers(root, true, quote) == Ok((root1, |Top(root)|));
      assert root1.body.members[|Top(root)|] == section && [] + [node] == [node];
      assert Edited(root, SetExitNode(approvers), quote) == Ok(SetSection(root1, |Top(root)|, Object([node], "\n" + top)));
    }
  }
}
