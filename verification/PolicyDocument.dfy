/** The policy document and its edits in place (internal/policy/document.go). Parsing is a
    library, so an edit takes the parsed value of its entry, where None stands for text that
    does not parse, and Quote is the function that writes a key. */
module PolicyDocument {
  import opened Text
  import opened T = PolicyTree
  import opened E = PolicyEdits
  import B = PolicyBytes

  /** An edit that fails changes nothing; an edit that succeeds gives the edited tree, and it
      changes one range of the bytes. */
  ghost predicate Follows(before: Value, after: Value, error: Option<Error>, e: Edit, quote: Quote) {
    match Edited(before, e, quote)
    case Err(x) => error == Some(x) && after == before
    case Ok(r) => error == None && after == r && Splice(Pack(before), Pack(after), B.Gone(before, e), B.Put(before, after, e, quote))
  }

  lemma EditFollows(before: Value, e: Edit, quote: Quote)
    requires KeysDistinct(Top(before)) && Edited(before, e, quote).Ok?
    ensures Follows(before, Edited(before, e, quote).value, None, e, quote)
    ensures KeysDistinct(Top(Edited(before, e, quote).value))
  {
    B.EditChangesOneRange(before, e, quote);
    EditKeepsKeysDistinct(before, e, quote, "");
  }

  class Document {
    var root: Value
    const quote: Quote

    constructor (parsed: Value, quote: Quote)
      ensures root == parsed && this.quote == quote
    {
      root := parsed;
      this.quote := quote;
    }

    /** No top-level key occurs twice. */
    ghost predicate Valid()
      reads this
    {
      KeysDistinct(Top(root))
    }

    /** Parse, after the huJSON parser: a document is built exactly when no top-level key
        occurs twice. */
    static method Parse(parsed: Value, quote: Quote) returns (d: Option<Document>)
      ensures d.Some? <==> KeysDistinct(Top(parsed))
      ensures d.Some? ==> fresh(d.value) && d.value.Valid() && d.value.root == parsed && d.value.quote == quote
    {
      if parsed.body.Object? {
        var ms, seen := parsed.body.members, {};
        for i := 0 to |ms|
          invariant KeysDistinct(ms[..i])
          invariant forall name :: name in seen <==> exists k :: 0 <= k < i && ms[k].name == name
        {
          if ms[i].name in seen {
            return None;
          }
          assert ms[..i + 1] == ms[..i] + [ms[i]];
          seen := seen + {ms[i].name};
        }
        assert ms[..|ms|] == ms;
      }
      var document := new Document(parsed, quote);
      d := Some(document);
    }

    /** mapMemberIndex. */
    static method MemberIndex(ms: seq<Member>, name: string) returns (i: nat)
      ensures i == IndexOf(ms, name)
    {
      i := 0;
      while i < |ms|
        invariant i <= |ms| && forall k :: 0 <= k < i ==> ms[k].name != name
      {
        if ms[i].name == name {
          break;
        }
        i := i + 1;
      }
      FirstIs(ms, name, i);
    }

    static lemma FirstIs(ms: seq<Member>, name: string, i: nat)
      requires i <= |ms| && (i < |ms| ==> ms[i].name == name)
      requires forall k :: 0 <= k < i ==> ms[k].name != name
      ensures i == IndexOf(ms, name)
    {
    }

    /** arraySection. */
    method FindArray(section: string) returns (r: Result<nat, Error>)
      ensures r == ArraySection(root, section)
    {
      if !root.body.Object? {
        return Err(RootNotObject);
      }
      var i := MemberIndex(root.body.members, section);
      if i == |root.body.members| {
        return Err(NoSection);
      }
      if !root.body.members[i].value.body.Array? {
        return Err(NotAnArray);
      }
      return Ok(i);
    }

    /** mapSection. */
    method FindMap(section: string) returns (r: Result<nat, Error>)
      ensures r == MapSection(root, section)
    {
      if !root.body.Object? {
        return Err(RootNotObject);
      }
      var i := MemberIndex(root.body.members, section);
      if i == |root.body.members| {
        return Err(NoSection);
      }
      if !root.body.members[i].value.body.Object? {
        return Err(NotAnObject);
      }
      return Ok(i);
    }

    method AddEntry(section: string, entry: Option<Body>) returns (error: Option<Error>)
      requires Valid()
      modifies this`root
      ensures Valid() && Follows(old(root), root, error, Edit.AddEntry(section, entry), quote)
    {
      if entry.None? {
        return Some(ParseFailed);
      }
      if !root.body.Object? {
        return Some(RootNotObject);
      }
      var ms := root.body.members;
      var i := MemberIndex(ms, section);
      if i < |ms| {
        if !ms[i].value.body.Array? {
          return Some(NotAnArray);
        }
        var b := ms[i].value.body;
        var indent := ArrayIndent(ms[i], b.elements);
        root := SetSection(root, i, Array(b.elements + [NewElement(entry.value, indent, NewComma(b.elements))], b.end));
      } else {
        root := AppendTop(root, NewSection(section, entry.value, TopIndent(ms), quote));
      }
      EditFollows(old(root), Edit.AddEntry(section, entry), quote);
      error := None;
    }

    method ReplaceEntry(section: string, index: int, entry: Option<Body>) returns (error: Option<Error>)
      requires Valid()
      modifies this`root
      ensures Valid() && Follows(old(root), root, error, Edit.ReplaceEntry(section, index, entry), quote)
    {
      var found := FindArray(section);
      if found.Err? {
        return Some(found.error);
      }
      var b := root.body.members[found.value].value.body;
      if index < 0 || index >= |b.elements| {
        return Some(OutOfRange);
      }
      if entry.None? {
        return Some(ParseFailed);
      }
      root := SetSection(root, found.value, Array(b.elements[index := SetBody(b.elements[index], entry.value)], b.end));
      EditFollows(old(root), Edit.ReplaceEntry(section, index, entry), quote);
      error := None;
    }

    method RemoveEntry(section: string, index: int) returns (error: Option<Error>)
      requires Valid()
      modifies this`root
      ensures Valid() && Follows(old(root), root, error, Edit.RemoveEntry(section, index), quote)
    {
      var found := FindArray(section);
      if found.Err? {
        return Some(found.error);
      }
      var b := root.body.members[found.value].value.body;
      if index < 0 || index >= |b.elements| {
        return Some(OutOfRange);
      }
      root := SetSection(root, found.value, Array(b.elements[..index] + b.elements[index + 1..], b.end));
      EditFollows(old(root), Edit.RemoveEntry(section, index), quote);
      error := None;
    }

    method AddMapEntry(section: string, key: string, entry: Option<Body>) returns (error: Option<Error>)
      requires Valid()
      modifies this`root
      ensures Valid() && Follows(old(root), root, error, Edit.AddMapEntry(section, key, entry), quote)
    {
      if entry.None? {
        return Some(ParseFailed);
      }
      if !root.body.Object? {
        return Some(RootNotObject);
      }
      var ms := root.body.members;
      var i := MemberIndex(ms, section);
      if i < |ms| {
        if !ms[i].value.body.Object? {
          return Some(NotAnObject);
        }
        var b := ms[i].value.body;
        var k := MemberIndex(b.members, key);
        if k < |b.members| {
          return Some(HasKey);
        }
        var indent := MapIndent(ms[i], b.members);
        root := SetSection(root, i, Object(b.members + [NewMember(key, entry.value, indent, NewMapComma(b.members), quote)], b.end));
      } else {
        root := AppendTop(root, NewMapSection(section, key, entry.value, TopIndent(ms), quote));
      }
      EditFollows(old(root), Edit.AddMapEntry(section, key, entry), quote);
      error := None;
    }

    method ReplaceMapEntry(section: string, key: string, entry: Option<Body>) returns (error: Option<Error>)
      requires Valid()
      modifies this`root
      ensures Valid() && Follows(old(root), root, error, Edit.ReplaceMapEntry(section, key, entry), quote)
    {
      var found := FindMap(section);
      if found.Err? {
        return Some(found.error);
      }
      var b := root.body.members[found.value].value.body;
      var k := MemberIndex(b.members, key);
      if k == |b.members| {
        return Some(NoKey);
      }
      if entry.None? {
        return Some(ParseFailed);
      }
      root := SetSection(root, found.value, Object(SetMember(b.members, k, entry.value), b.end));
      EditFollows(old(root), Edit.ReplaceMapEntry(section, key, entry), quote);
      error := None;
    }

    method RemoveMapEntry(section: string, key: string) returns (error: Option<Error>)
      requires Valid()
      modifies this`root
      ensures Valid() && Follows(old(root), root, error, Edit.RemoveMapEntry(section, key), quote)
    {
      var found := FindMap(section);
      if found.Err? {
        return Some(found.error);
      }
      var b := root.body.members[found.value].value.body;
      var k := MemberIndex(b.members, key);
      if k == |b.members| {
        return Some(NoKey);
      }
      root := SetSection(root, found.value, Object(b.members[..k] + b.members[k + 1..], b.end));
      EditFollows(old(root), Edit.RemoveMapEntry(section, key), quote);
      error := None;
    }

    method RenameMapEntry(section: string, key: string, newKey: string) returns (error: Option<Error>)
      requires Valid()
      modifies this`root
      ensures Valid() && Follows(old(root), root, error, Edit.RenameMapEntry(section, key, newKey), quote)
    {
      var found := FindMap(section);
      if found.Err? {
        return Some(found.error);
      }
      var b := root.body.members[found.value].value.body;
      var k := MemberIndex(b.members, key);
      if k == |b.members| {
        return Some(NoKey);
      }
      var taken := MemberIndex(b.members, newKey);
      if taken < |b.members| {
        return Some(HasKey);
      }
      root := SetSection(root, found.value, Object(b.members[k := b.members[k].(raw := quote(newKey), name := newKey)], b.end));
      EditFollows(old(root), Edit.RenameMapEntry(section, key, newKey), quote);
      error := None;
    }

    /** autoApproversObject: it puts an empty section into the document when it creates one. */
    method ApproversObject(create: bool) returns (r: Result<nat, Error>)
      modifies this`root
      ensures match Approvers(old(root), create, quote)
        case Err(e) => r == Err(e) && root == old(root)
        case Ok((root1, i)) => r == Ok(i) && root == root1
    {
      if !root.body.Object? {
        return Err(RootNotObject);
      }
      var ms := root.body.members;
      var i := MemberIndex(ms, APPROVERS);
      if i < |ms| {
        if !ms[i].value.body.Object? {
          return Err(NotAnObject);
        }
        return Ok(i);
      }
      if !create {
        return Err(NoSection);
      }
      root := AppendTop(root, EmptySection(APPROVERS, TopIndent(ms), true, quote));
      return Ok(|ms|);
    }

    /** autoApproverRoutesObject. */
    method RoutesObject(create: bool) returns (r: Result<(nat, nat), Error>)
      modifies this`root
      ensures match Routes(old(root), create, quote)
        case Err(e) => r == Err(e) && root == old(root)
        case Ok((root1, i, j)) => r == Ok((i, j)) && root == root1
    {
      var found := ApproversObject(create);
      if found.Err? {
        return Err(found.error);
      }
      var i := found.value;
      var m := root.body.members[i];
      var inner := m.value.body;
      var j := MemberIndex(inner.members, "routes");
      if j < |inner.members| {
        if !inner.members[j].value.body.Object? {
          return Err(NotAnObject);
        }
        return Ok((i, j));
      }
      if !create {
        return Err(NoSection);
      }
      var routes := EmptySection("routes", MapIndent(m, inner.members), NewMapComma(inner.members), quote);
      root := SetSection(root, i, Object(inner.members + [routes], inner.end));
      return Ok((i, j));
    }

    method AddAutoApproverRoute(cidr: string, approvers: Body) returns (error: Option<Error>)
      requires Valid()
      modifies this`root
      ensures Valid() && Follows(old(root), root, error, AddRoute(cidr, approvers), quote)
    {
      var found := RoutesObject(true);
      if found.Err? {
        return Some(found.error);
      }
      var (i, j) := found.value;
      var m := root.body.members[i].value.body.members[j];
      var b := m.value.body;
      var k := MemberIndex(b.members, cidr);
      if k < |b.members| {
        return Some(HasKey);
      }
      var route := NewMember(cidr, approvers, MapIndent(m, b.members), NewMapComma(b.members), quote);
      root := SetRoutes(root, i, j, Object(b.members + [route], b.end));
      EditFollows(old(root), AddRoute(cidr, approvers), quote);
      error := None;
    }

    method ReplaceAutoApproverRoute(cidr: string, approvers: Body) returns (error: Option<Error>)
      requires Valid()
      modifies this`root
      ensures Valid() && Follows(old(root), root, error, ReplaceRoute(cidr, approvers), quote)
    {
      var found := RoutesObject(false);
      if found.Err? {
        return Some(found.error);
      }
      var (i, j) := found.value;
      var b := root.body.members[i].value.body.members[j].value.body;
      var k := MemberIndex(b.members, cidr);
      if k == |b.members| {
        return Some(NoKey);
      }
      root := SetRoutes(root, i, j, Object(SetMember(b.members, k, approvers), b.end));
      EditFollows(old(root), ReplaceRoute(cidr, approvers), quote);
      error := None;
    }

    method RemoveAutoApproverRoute(cidr: string) returns (error: Option<Error>)
      requires Valid()
      modifies this`root
      ensures Valid() && Follows(old(root), root, error, RemoveRoute(cidr), quote)
    {
      var found := RoutesObject(false);
      if found.Err? {
        return Some(found.error);
      }
      var (i, j) := found.value;
      var b := root.body.members[i].value.body.members[j].value.body;
      var k := MemberIndex(b.members, cidr);
      if k == |b.members| {
        return Some(NoKey);
      }
      root := SetRoutes(root, i, j, Object(b.members[..k] + b.members[k + 1..], b.end));
      EditFollows(old(root), RemoveRoute(cidr), quote);
      error := None;
    }

    method SetAutoApproverExitNode(approvers: Body) returns (error: Option<Error>)
      requires Valid()
      modifies this`root
      ensures Valid() && Follows(old(root), root, error, SetExitNode(approvers), quote)
    {
      var found := ApproversObject(true);
      if found.Err? {
        return Some(found.error);
      }
      var i := found.value;
      var m := root.body.members[i];
      var b := m.value.body;
      var k := MemberIndex(b.members, "exitNode");
      if k < |b.members| {
        root := SetSection(root, i, Object(SetMember(b.members, k, approvers), b.end));
      } else {
        var node := NewMember("exitNode", approvers, MapIndent(m, b.members), NewMapComma(b.members), quote);
        root := SetSection(root, i, Object(b.members + [node], b.end));
      }
      EditFollows(old(root), SetExitNode(approvers), quote);
      error := None;
    }
  }
}
