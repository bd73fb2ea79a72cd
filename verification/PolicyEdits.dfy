/** The edits of a policy document (internal/policy/document.go). Parsing is a library, so an
    edit takes the parsed value of its entry, where None stands for text that does not parse. */
module PolicyEdits {
  import opened Text
  import opened T = PolicyTree

  datatype Error = ParseFailed | RootNotObject | NotAnArray | NotAnObject | NoSection | OutOfRange | HasKey | NoKey

  /** hujson.String: how a key is written. */
  type Quote = string -> string

  // ----- keys

  predicate KeysDistinct(ms: seq<Member>) {
    forall i, j :: 0 <= i < j < |ms| ==> ms[i].name != ms[j].name
  }

  /** The first member of the name, and |ms| when there is none. */
  function IndexOf(ms: seq<Member>, name: string): (i: nat)
    ensures i <= |ms| && (i < |ms| ==> ms[i].name == name)
    ensures forall k :: 0 <= k < i ==> ms[k].name != name
  {
    if ms == [] || ms[0].name == name then 0 else 1 + IndexOf(ms[1..], name)
  }

  // ----- indents

  /** The text after the last newline. */
  function Tail(s: string): string {
    if s == [] || s[|s| - 1] == '\n' then "" else Tail(s[..|s| - 1]) + [s[|s| - 1]]
  }

  /** trailingIndent. */
  function TrailingIndent(extra: string): Option<string> {
    if '\n' in extra then Some(Tail(extra)) else None
  }

  function OwnIndent(m: Member): string {
    (match TrailingIndent(m.before) case Some(indent) => indent case None => "") + "  "
  }

  /** arrayEntryIndent. */
  function ArrayIndent(m: Member, es: seq<Value>): string {
    if es != [] && TrailingIndent(es[|es| - 1].before).Some? then TrailingIndent(es[|es| - 1].before).value else OwnIndent(m)
  }

  /** mapEntryIndent. */
  function MapIndent(m: Member, ms: seq<Member>): string {
    if ms != [] && TrailingIndent(ms[|ms| - 1].before).Some? then TrailingIndent(ms[|ms| - 1].before).value else OwnIndent(m)
  }

  /** topLevelIndent. */
  function TopIndent(ms: seq<Member>): string {
    if ms == [] then "  "
    else match TrailingIndent(ms[|ms| - 1].before)
      case Some(indent) => indent
      case None => TopIndent(ms[..|ms| - 1])
  }

  // ----- new nodes

  function After(comma: bool): Option<string> {
    if comma then Some("") else None
  }

  /** newTrailingComma and newMapTrailingComma. */
  predicate NewComma(es: seq<Value>) {
    es == [] || ArrayComma(es)
  }

  predicate NewMapComma(ms: seq<Member>) {
    ms == [] || ObjectComma(ms)
  }

  function NewElement(b: Body, indent: string, comma: bool): Value {
    Value("\n" + indent, b, After(comma))
  }

  function NewMember(key: string, b: Body, indent: string, comma: bool, quote: Quote): Member {
    Member("\n" + indent, quote(key), key, "", Value(" ", b, After(comma)))
  }

  function NewSection(section: string, entry: Body, indent: string, quote: Quote): Member {
    NewMember(section, Array([NewElement(entry, indent + "  ", true)], "\n" + indent), indent, true, quote)
  }

  function NewMapSection(section: string, key: string, entry: Body, indent: string, quote: Quote): Member {
    NewMember(section, Object([NewMember(key, entry, indent + "  ", true, quote)], "\n" + indent), indent, true, quote)
  }

  // ----- the edits, as functions of the tree

  datatype Edit =
    | AddEntry(section: string, entry: Option<Body>)
    | ReplaceEntry(section: string, index: int, entry: Option<Body>)
    | RemoveEntry(section: string, index: int)
    | AddMapEntry(section: string, key: string, entry: Option<Body>)
    | ReplaceMapEntry(section: string, key: string, entry: Option<Body>)
    | RemoveMapEntry(section: string, key: string)
    | RenameMapEntry(section: string, key: string, newKey: string)
    | AddRoute(cidr: string, approvers: Body)
    | ReplaceRoute(cidr: string, approvers: Body)
    | RemoveRoute(cidr: string)
    | SetExitNode(approvers: Body)
  {
    function Section(): string {
      match this
      case AddEntry(section, _) => section
      case ReplaceEntry(section, _, _) => section
      case RemoveEntry(section, _) => section
      case AddMapEntry(section, _, _) => section
      case ReplaceMapEntry(section, _, _) => section
      case RemoveMapEntry(section, _) => section
      case RenameMapEntry(section, _, _) => section
      case _ => APPROVERS
    }
  }

  const APPROVERS := "autoApprovers"

  function SetSection(root: Value, i: nat, b: Body): Value
    requires root.body.Object? && i < |root.body.members|
  {
    SetBody(root, Object(SetMember(root.body.members, i, b), root.body.end))
  }

  function AppendTop(root: Value, m: Member): Value
    requires root.body.Object?
  {
    SetBody(root, Object(root.body.members + [m], root.body.end))
  }

  /** arraySection: the place of the named section. */
  function ArraySection(root: Value, section: string): (r: Result<nat, Error>)
    ensures r.Ok? ==> root.body.Object? && r.value < |root.body.members| && root.body.members[r.value].value.body.Array?
  {
    if !root.body.Object? then Err(RootNotObject)
    else
      var i := IndexOf(root.body.members, section);
      if i == |root.body.members| then Err(NoSection)
      else if !root.body.members[i].value.body.Array? then Err(NotAnArray)
      else Ok(i)
  }

  /** mapSection. */
  function MapSection(root: Value, section: string): (r: Result<nat, Error>)
    ensures r.Ok? ==> root.body.Object? && r.value < |root.body.members| && root.body.members[r.value].value.body.Object?
  {
    if !root.body.Object? then Err(RootNotObject)
    else
      var i := IndexOf(root.body.members, section);
      if i == |root.body.members| then Err(NoSection)
      else if !root.body.members[i].value.body.Object? then Err(NotAnObject)
      else Ok(i)
  }

  function EntryAdded(root: Value, section: string, entry: Option<Body>, quote: Quote): Result<Value, Error> {
    if entry.None? then Err(ParseFailed)
    else if !root.body.Object? then Err(RootNotObject)
    else
      var ms := root.body.members;
      var i := IndexOf(ms, section);
      if i == |ms| then Ok(AppendTop(root, NewSection(section, entry.value, TopIndent(ms), quote)))
      else match ms[i].value.body
        case Array(es, end) =>
          Ok(SetSection(root, i, Array(es + [NewElement(entry.value, ArrayIndent(ms[i], es), NewComma(es))], end)))
        case _ => Err(NotAnArray)
  }

  function EntryReplaced(root: Value, section: string, index: int, entry: Option<Body>): Result<Value, Error> {
    match ArraySection(root, section)
    case Err(e) => Err(e)
    case Ok(i) =>
      var b := root.body.members[i].value.body;
      if !(0 <= index < |b.elements|) then Err(OutOfRange)
      else if entry.None? then Err(ParseFailed)
      else Ok(SetSection(root, i, Array(b.elements[index := SetBody(b.elements[index], entry.value)], b.end)))
  }

  function EntryRemoved(root: Value, section: string, index: int): Result<Value, Error> {
    match ArraySection(root, section)
    case Err(e) => Err(e)
    case Ok(i) =>
      var b := root.body.members[i].value.body;
      if !(0 <= index < |b.elements|) then Err(OutOfRange)
      else Ok(SetSection(root, i, Array(Without(b.elements, index), b.end)))
  }

  function MapEntryAdded(root: Value, section: string, key: string, entry: Option<Body>, quote: Quote): Result<Value, Error> {
    if entry.None? then Err(ParseFailed)
    else if !root.body.Object? then Err(RootNotObject)
    else
      var ms := root.body.members;
      var i := IndexOf(ms, section);
      if i == |ms| then Ok(AppendTop(root, NewMapSection(section, key, entry.value, TopIndent(ms), quote)))
      else match ms[i].value.body
        case Object(inner, end) =>
          if IndexOf(inner, key) < |inner| then Err(HasKey)
          else Ok(SetSection(root, i, Object(inner + [NewMember(key, entry.value, MapIndent(ms[i], inner), NewMapComma(inner), quote)], end)))
        case _ => Err(NotAnObject)
  }

  function MapEntryReplaced(root: Value, section: string, key: string, entry: Option<Body>): Result<Value, Error> {
    match MapSection(root, section)
    case Err(e) => Err(e)
    case Ok(i) =>
      var b := root.body.members[i].value.body;
      var k := IndexOf(b.members, key);
      if k == |b.members| then Err(NoKey)
      else if entry.None? then Err(ParseFailed)
      else Ok(SetSection(root, i, Object(SetMember(b.members, k, entry.value), b.end)))
  }

  function MapEntryRemoved(root: Value, section: string, key: string): Result<Value, Error> {
    match MapSection(root, section)
    case Err(e) => Err(e)
    case Ok(i) =>
      var b := root.body.members[i].value.body;
      var k := IndexOf(b.members, key);
      if k == |b.members| then Err(NoKey)
      else Ok(SetSection(root, i, Object(Without(b.members, k), b.end)))
  }

  function MapEntryRenamed(root: Value, section: string, key: string, newKey: string, quote: Quote): Result<Value, Error> {
    match MapSection(root, section)
    case Err(e) => Err(e)
    case Ok(i) =>
      var b := root.body.members[i].value.body;
      var k := IndexOf(b.members, key);
      if k == |b.members| then Err(NoKey)
      else if IndexOf(b.members, newKey) < |b.members| then Err(HasKey)
      else Ok(SetSection(root, i, Object(b.members[k := b.members[k].(raw := quote(newKey), name := newKey)], b.end)))
  }

  // ----- the autoApprovers section

  function EmptySection(key: string, indent: string, comma: bool, quote: Quote): Member {
    NewMember(key, Object([], "\n" + indent), indent, comma, quote)
  }

  /** autoApproversObject: the tree that holds the section, and its place. */
  function Approvers(root: Value, create: bool, quote: Quote): (r: Result<(Value, nat), Error>)
    ensures r.Ok? ==> r.value.0.body.Object? && r.value.1 < |r.value.0.body.members| && r.value.0.body.members[r.value.1].value.body.Object?
  {
    if !root.body.Object? then Err(RootNotObject)
    else
      var ms := root.body.members;
      var i := IndexOf(ms, APPROVERS);
      if i < |ms| then if ms[i].value.body.Object? then Ok((root, i)) else Err(NotAnObject)
      else if !create then Err(NoSection)
      else Ok((AppendTop(root, EmptySection(APPROVERS, TopIndent(ms), true, quote)), |ms|))
  }

  /** autoApproverRoutesObject: the tree that holds autoApprovers.routes, and both places. */
  function Routes(root: Value, create: bool, quote: Quote): (r: Result<(Value, nat, nat), Error>)
    ensures r.Ok? ==>
      && r.value.0.body.Object? && r.value.1 < |r.value.0.body.members|
      && var b := r.value.0.body.members[r.value.1].value.body;
         b.Object? && r.value.2 < |b.members| && b.members[r.value.2].value.body.Object?
  {
    match Approvers(root, create, quote)
    case Err(e) => Err(e)
    case Ok((root1, i)) =>
      var m := root1.body.members[i];
      var inner := m.value.body;
      var j := IndexOf(inner.members, "routes");
      if j < |inner.members| then if inner.members[j].value.body.Object? then Ok((root1, i, j)) else Err(NotAnObject)
      else if !create then Err(NoSection)
      else
        var routes := EmptySection("routes", MapIndent(m, inner.members), NewMapComma(inner.members), quote);
        Ok((SetSection(root1, i, Object(inner.members + [routes], inner.end)), i, |inner.members|))
  }

  function SetRoutes(root: Value, i: nat, j: nat, b: Body): Value
    requires root.body.Object? && i < |root.body.members|
    requires root.body.members[i].value.body.Object? && j < |root.body.members[i].value.body.members|
  {
    var inner := root.body.members[i].value.body;
    SetSection(root, i, Object(SetMember(inner.members, j, b), inner.end))
  }

  function RouteAdded(root: Value, cidr: string, approvers: Body, quote: Quote): Result<Value, Error> {
    match Routes(root, true, quote)
    case Err(e) => Err(e)
    case Ok((root1, i, j)) =>
      var m := root1.body.members[i].value.body.members[j];
      var routes := m.value.body;
      if IndexOf(routes.members, cidr) < |routes.members| then Err(HasKey)
      else
        var route := NewMember(cidr, approvers, MapIndent(m, routes.members), NewMapComma(routes.members), quote);
        Ok(SetRoutes(root1, i, j, Object(routes.members + [route], routes.end)))
  }

  function RouteReplaced(root: Value, cidr: string, approvers: Body, quote: Quote): Result<Value, Error> {
    match Routes(root, false, quote)
    case Err(e) => Err(e)
    case Ok((root1, i, j)) =>
      var routes := root1.body.members[i].value.body.members[j].value.body;
      var k := IndexOf(routes.members, cidr);
      if k == |routes.members| then Err(NoKey)
      else Ok(SetRoutes(root1, i, j, Object(SetMember(routes.members, k, approvers), routes.end)))
  }

  function RouteRemoved(root: Value, cidr: string, quote: Quote): Result<Value, Error> {
    match Routes(root, false, quote)
    case Err(e) => Err(e)
    case Ok((root1, i, j)) =>
      var routes := root1.body.members[i].value.body.members[j].value.body;
      var k := IndexOf(routes.members, cidr);
      if k == |routes.members| then Err(NoKey)
      else Ok(SetRoutes(root1, i, j, Object(Without(routes.members, k), routes.end)))
  }

  function ExitNodeSet(root: Value, approvers: Body, quote: Quote): Result<Value, Error> {
    match Approvers(root, true, quote)
    case Err(e) => Err(e)
    case Ok((root1, i)) =>
      var m := root1.body.members[i];
      var inner := m.value.body;
      var k := IndexOf(inner.members, "exitNode");
      if k < |inner.members| then Ok(SetSection(root1, i, Object(SetMember(inner.members, k, approvers), inner.end)))
      else
        var node := NewMember("exitNode", approvers, MapIndent(m, inner.members), NewMapComma(inner.members), quote);
        Ok(SetSection(root1, i, Object(inner.members + [node], inner.end)))
  }

  /** The tree after one edit. */
  function Edited(root: Value, e: Edit, quote: Quote): Result<Value, Error> {
    match e
    case AddEntry(section, entry) => EntryAdded(root, section, entry, quote)
    case ReplaceEntry(section, index, entry) => EntryReplaced(root, section, index, entry)
    case RemoveEntry(section, index) => EntryRemoved(root, section, index)
    case AddMapEntry(section, key, entry) => MapEntryAdded(root, section, key, entry, quote)
    case ReplaceMapEntry(section, key, entry) => MapEntryReplaced(root, section, key, entry)
    case RemoveMapEntry(section, key) => MapEntryRemoved(root, section, key)
    case RenameMapEntry(section, key, newKey) => MapEntryRenamed(root, section, key, newKey, quote)
    case AddRoute(cidr, approvers) => RouteAdded(root, cidr, approvers, quote)
    case ReplaceRoute(cidr, approvers) => RouteReplaced(root, cidr, approvers, quote)
    case RemoveRoute(cidr) => RouteRemoved(root, cidr, quote)
    case SetExitNode(approvers) => ExitNodeSet(root, approvers, quote)
  }

  // ----- one section

  function Top(root: Value): seq<Member> {
    if root.body.Object? then root.body.members else []
  }

  /** The members of a map-shaped section, and of autoApprovers.routes. */
  function Inner(ms: seq<Member>, name: string): seq<Member> {
    var i := IndexOf(ms, name);
    if i < |ms| && ms[i].value.body.Object? then ms[i].value.body.members else []
  }

  function RoutesOf(root: Value): seq<Member> {
    Inner(Inner(Top(root), APPROVERS), "routes")
  }

  /** The entries of a list-shaped section. */
  function Entries(root: Value, section: string): seq<Value> {
    var i := IndexOf(Top(root), section);
    if i < |Top(root)| && Top(root)[i].value.body.Array? then Top(root)[i].value.body.elements else []
  }

  predicate Holds(ms: seq<Member>, name: string) {
    IndexOf(ms, name) < |ms|
  }

  /** The two lists differ in the value of one member, or in one member at the end. */
  predicate OnlyMember(ms: seq<Member>, ms': seq<Member>, name: string) {
    var i := IndexOf(ms, name);
    if i < |ms| then |ms'| == |ms| && ms' == SetMember(ms, i, ms'[i].value.body)
    else |ms'| == |ms| + 1 && ms' == ms + [ms'[|ms|]] && ms'[|ms|].name == name
  }

  /** The two trees differ in the value of one section, or in one section at the end. */
  predicate OnlySection(root: Value, r: Value, section: string) {
    && root.body.Object? && r.body.Object?
    && r == SetBody(root, Object(Top(r), root.body.end))
    && OnlyMember(Top(root), Top(r), section)
  }

  lemma SetSectionIsOnly(root: Value, section: string, b: Body)
    requires root.body.Object? && Holds(root.body.members, section)
    ensures OnlySection(root, SetSection(root, IndexOf(root.body.members, section), b), section)
  {
  }

  lemma {:induction false} AbsentStays(ms: seq<Member>, m: Member, name: string)
    requires !Holds(ms, name)
    ensures IndexOf(ms + [m], name) == if m.name == name then |ms| else |ms| + 1
  {
    if ms != [] {
      assert (ms + [m])[1..] == ms[1..] + [m];
      AbsentStays(ms[1..], m, name);
    }
  }

  lemma SetAppended(ms: seq<Member>, m: Member, b: Body)
    ensures SetMember(ms + [m], |ms|, b) == ms + [m.(value := SetBody(m.value, b))]
  {
  }

  lemma SetTwice(ms: seq<Member>, i: nat, b: Body, b': Body)
    requires i < |ms|
    ensures SetMember(SetMember(ms, i, b), i, b') == SetMember(ms, i, b')
  {
  }

  /** autoApproversObject changes no member but its own. */
  lemma ApproversIsOnly(root: Value, create: bool, quote: Quote, b: Body)
    requires Approvers(root, create, quote).Ok?
    ensures var (root1, i) := Approvers(root, create, quote).value;
      && OnlySection(root, SetSection(root1, i, b), APPROVERS)
      && (Holds(Top(root), APPROVERS) ==> root1 == root)
      && i == IndexOf(Top(root), APPROVERS) == IndexOf(Top(root1), APPROVERS)
      && SetSection(root1, i, b) == if Holds(Top(root), APPROVERS) then SetSection(root, i, b)
         else AppendTop(root, EmptySection(APPROVERS, TopIndent(Top(root)), true, quote).(value := SetBody(Top(root1)[i].value, b)))
  {
    var (root1, i) := Approvers(root, create, quote).value;
    if Holds(Top(root), APPROVERS) {
      SetSectionIsOnly(root, APPROVERS, b);
    } else {
      var m := EmptySection(APPROVERS, TopIndent(Top(root)), true, quote);
      AbsentStays(Top(root), m, APPROVERS);
      SetAppended(Top(root), m, b);
    }
  }

  /** autoApproverRoutesObject changes one member of autoApprovers: it takes the routes member
      or it puts an empty one at the end. */
  lemma RoutesShape(root: Value, create: bool, quote: Quote, b: Body)
    requires Routes(root, create, quote).Ok?
    ensures Approvers(root, create, quote).Ok?
    ensures var (root2, i, j) := Routes(root, create, quote).value;
      var (root1, i1) := Approvers(root, create, quote).value;
      var m := root1.body.members[i1];
      var inner := m.value.body;
      var fresh0 := EmptySection("routes", MapIndent(m, inner.members), NewMapComma(inner.members), quote);
      && i == i1 && j == IndexOf(inner.members, "routes")
      && (Holds(inner.members, "routes") ==> root2 == root1)
      && (!Holds(inner.members, "routes") ==> root2.body.members[i].value.body.members[j] == fresh0)
      && SetRoutes(root2, i, j, b) == SetSection(root1, i,
           Object(if Holds(inner.members, "routes") then SetMember(inner.members, j, b)
                  else inner.members + [fresh0.(value := SetBody(fresh0.value, b))], inner.end))
  {
    var (root2, i, j) := Routes(root, create, quote).value;
    var (root1, i1) := Approvers(root, create, quote).value;
    var m := root1.body.members[i1];
    var inner := m.value.body;
    if !Holds(inner.members, "routes") {
      var fresh0 := EmptySection("routes", MapIndent(m, inner.members), NewMapComma(inner.members), quote);
      SetAppended(inner.members, fresh0, b);
      var c := Object(inner.members + [fresh0], inner.end);
      var c' := Object(inner.members + [fresh0.(value := SetBody(fresh0.value, b))], inner.end);
      SetTwice(root1.body.members, i, c, c');
    }
  }

  /** What a route edit writes into autoApprovers.routes. */
  function NewRoutes(m: Member, e: Edit, quote: Quote): Body
    requires m.value.body.Object? && (e.AddRoute? || e.ReplaceRoute? || e.RemoveRoute?)
  {
    var rs := m.value.body;
    var k := IndexOf(rs.members, e.cidr);
    if e.AddRoute? then
      Object(rs.members + [NewMember(e.cidr, e.approvers, MapIndent(m, rs.members), NewMapComma(rs.members), quote)], rs.end)
    else if k == |rs.members| then rs
    else if e.ReplaceRoute? then Object(SetMember(rs.members, k, e.approvers), rs.end)
    else Object(Without(rs.members, k), rs.end)
  }

  lemma RouteEditTree(root: Value, e: Edit, quote: Quote)
    requires Edited(root, e, quote).Ok? && (e.AddRoute? || e.ReplaceRoute? || e.RemoveRoute?)
    ensures Routes(root, e.AddRoute?, quote).Ok?
    ensures var (root1, i, j) := Routes(root, e.AddRoute?, quote).value;
      Edited(root, e, quote).value == SetRoutes(root1, i, j, NewRoutes(root1.body.members[i].value.body.members[j], e, quote))
  {
  }

  lemma RouteEdit(root: Value, e: Edit, quote: Quote)
    requires Edited(root, e, quote).Ok? && (e.AddRoute? || e.ReplaceRoute? || e.RemoveRoute?)
    ensures Routes(root, e.AddRoute?, quote).Ok?
    ensures var r := Edited(root, e, quote).value;
      var (root1, i, j) := Routes(root, e.AddRoute?, quote).value;
      && r == SetRoutes(root1, i, j, NewRoutes(root1.body.members[i].value.body.members[j], e, quote))
      && OnlySection(root, r, APPROVERS)
  {
    RouteEditTree(root, e, quote);
    var (root1, i, j) := Routes(root, e.AddRoute?, quote).value;
    var b := NewRoutes(root1.body.members[i].value.body.members[j], e, quote);
    RoutesShape(root, e.AddRoute?, quote, b);
    ApproversIsOnly(root, e.AddRoute?, quote, SetRoutes(root1, i, j, b).body.members[i].value.body);
  }

  lemma ListEditStays(root: Value, e: Edit, quote: Quote)
    requires Edited(root, e, quote).Ok? && (e.AddEntry? || e.ReplaceEntry? || e.RemoveEntry?)
    ensures OnlySection(root, Edited(root, e, quote).value, e.section)
  {
  }

  lemma MapEditStays(root: Value, e: Edit, quote: Quote)
    requires Edited(root, e, quote).Ok?
    requires e.AddMapEntry? || e.ReplaceMapEntry? || e.RemoveMapEntry? || e.RenameMapEntry?
    ensures OnlySection(root, Edited(root, e, quote).value, e.section)
  {
  }

  lemma ExitNodeStays(root: Value, e: Edit, quote: Quote)
    requires Edited(root, e, quote).Ok? && e.SetExitNode?
    ensures OnlySection(root, Edited(root, e, quote).value, APPROVERS)
  {
    var (root1, i) := Approvers(root, true, quote).value;
    ApproversIsOnly(root, true, quote, Top(Edited(root, e, quote).value)[i].value.body);
  }

  /** Every edit that succeeds leaves every section but its own as it was, byte order and
      comments included, and it leaves the text around the document as it was. */
  lemma EditStaysInItsSection(root: Value, e: Edit, quote: Quote)
    requires Edited(root, e, quote).Ok?
    ensures OnlySection(root, Edited(root, e, quote).value, e.Section())
  {
    if e.AddEntry? || e.ReplaceEntry? || e.RemoveEntry? {
      ListEditStays(root, e, quote);
    } else if e.AddRoute? || e.ReplaceRoute? || e.RemoveRoute? {
      RouteEdit(root, e, quote);
    } else if e.SetExitNode? {
      ExitNodeStays(root, e, quote);
    } else {
      MapEditStays(root, e, quote);
    }
  }

  // ----- keys

  lemma OnlyMemberKeepsKeys(ms: seq<Member>, ms': seq<Member>, name: string)
    requires OnlyMember(ms, ms', name) && KeysDistinct(ms)
    ensures KeysDistinct(ms')
  {
    if Holds(ms, name) {
      assert forall k :: 0 <= k < |ms| ==> ms'[k].name == ms[k].name;
    }
  }

  lemma AppendKeepsKeys(ms: seq<Member>, m: Member)
    requires KeysDistinct(ms) && !Holds(ms, m.name)
    ensures KeysDistinct(ms + [m])
  {
  }

  lemma DropKeepsKeys(ms: seq<Member>, k: nat)
    requires KeysDistinct(ms) && k < |ms|
    ensures KeysDistinct(Without(ms, k))
  {
    WithoutAt(ms, k);
  }

  /** Two lists with the same names find a name at the same place. */
  lemma SameNames(ms: seq<Member>, ms': seq<Member>, name: string)
    requires |ms| == |ms'| && forall k :: 0 <= k < |ms| ==> ms[k].name == ms'[k].name
    ensures IndexOf(ms, name) == IndexOf(ms', name)
  {
    var i, i' := IndexOf(ms, name), IndexOf(ms', name);
    assert i < |ms| ==> ms'[i].name == name;
    assert i' < |ms| ==> ms[i'].name == name;
  }

  lemma {:induction false} HeldStays(ms: seq<Member>, m: Member, name: string)
    requires Holds(ms, name)
    ensures IndexOf(ms + [m], name) == IndexOf(ms, name)
  {
    assert (ms + [m])[1..] == ms[1..] + [m] && (ms + [m])[0] == ms[0];
    if ms[0].name != name {
      HeldStays(ms[1..], m, name);
    }
  }

  /** A section that an edit does not name keeps its members and its entries. */
  lemma OtherSectionsStay(root: Value, r: Value, section: string, other: string)
    requires OnlySection(root, r, section) && other != section
    ensures Holds(Top(r), other) <==> Holds(Top(root), other)
    ensures Inner(Top(r), other) == Inner(Top(root), other)
    ensures Entries(r, other) == Entries(root, other)
  {
    var ms, ms' := Top(root), Top(r);
    if Holds(ms, section) {
      SameNames(ms, ms', other);
    } else if Holds(ms, other) {
      HeldStays(ms, ms'[|ms|], other);
    } else {
      AbsentStays(ms, ms'[|ms|], other);
    }
  }

  /** The member that changed stands where it stood, or at the end. */
  lemma OnlyMemberAt(ms: seq<Member>, ms': seq<Member>, name: string)
    requires OnlyMember(ms, ms', name)
    ensures IndexOf(ms', name) == IndexOf(ms, name) < |ms'|
  {
    if Holds(ms, name) {
      SameNames(ms, ms', name);
    } else {
      AbsentStays(ms, ms'[|ms|], name);
    }
  }

  lemma SetMemberKeepsKeys(ms: seq<Member>, k: nat, b: Body)
    requires KeysDistinct(ms) && k < |ms|
    ensures KeysDistinct(SetMember(ms, k, b))
  {
    assert forall j :: 0 <= j < |ms| ==> SetMember(ms, k, b)[j].name == ms[j].name;
  }

  lemma RenameKeepsKeys(ms: seq<Member>, k: nat, m: Member)
    requires KeysDistinct(ms) && k < |ms| && !Holds(ms, m.name)
    ensures KeysDistinct(ms[k := m])
  {
    assert forall j :: 0 <= j < |ms| ==> ms[j].name != m.name;
  }

  lemma MapAddMembers(root: Value, e: Edit, quote: Quote)
    requires e.AddMapEntry? && Edited(root, e, quote).Ok? && Holds(Top(root), e.section)
    ensures var ms, ms' := Inner(Top(root), e.section), Inner(Top(Edited(root, e, quote).value), e.section);
      IndexOf(ms, e.key) == |ms| && |ms'| == |ms| + 1 && ms' == ms + [ms'[|ms|]] && ms'[|ms|].name == e.key
  {
    MapEditStays(root, e, quote);
    OnlyMemberAt(Top(root), Top(Edited(root, e, quote).value), e.section);
  }

  lemma MapRemoveMembers(root: Value, e: Edit, quote: Quote)
    requires e.RemoveMapEntry? && Edited(root, e, quote).Ok? && Holds(Top(root), e.section)
    ensures var ms, ms' := Inner(Top(root), e.section), Inner(Top(Edited(root, e, quote).value), e.section);
      IndexOf(ms, e.key) < |ms| && ms' == Without(ms, IndexOf(ms, e.key))
  {
    MapEditStays(root, e, quote);
    OnlyMemberAt(Top(root), Top(Edited(root, e, quote).value), e.section);
  }

  lemma MapReplaceMembers(root: Value, e: Edit, quote: Quote)
    requires e.ReplaceMapEntry? && Edited(root, e, quote).Ok? && Holds(Top(root), e.section)
    ensures var ms, ms' := Inner(Top(root), e.section), Inner(Top(Edited(root, e, quote).value), e.section);
      IndexOf(ms, e.key) < |ms| && ms' == SetMember(ms, IndexOf(ms, e.key), e.entry.value)
  {
    MapEditStays(root, e, quote);
    OnlyMemberAt(Top(root), Top(Edited(root, e, quote).value), e.section);
  }

  lemma MapRenameMembers(root: Value, e: Edit, quote: Quote)
    requires e.RenameMapEntry? && Edited(root, e, quote).Ok? && Holds(Top(root), e.section)
    ensures var ms, ms' := Inner(Top(root), e.section), Inner(Top(Edited(root, e, quote).value), e.section);
      var k := IndexOf(ms, e.key);
      k < |ms| && !Holds(ms, e.newKey) && ms' == ms[k := ms[k].(raw := quote(e.newKey), name := e.newKey)]
  {
    MapEditStays(root, e, quote);
    OnlyMemberAt(Top(root), Top(Edited(root, e, quote).value), e.section);
  }

  /** The members of the section after a map edit of a section that the document holds. */
  lemma MapEditMembers(root: Value, e: Edit, quote: Quote)
    requires Edited(root, e, quote).Ok? && Holds(Top(root), e.Section())
    requires e.AddMapEntry? || e.ReplaceMapEntry? || e.RemoveMapEntry? || e.RenameMapEntry?
    ensures var ms, ms' := Inner(Top(root), e.section), Inner(Top(Edited(root, e, quote).value), e.section);
      var k := IndexOf(ms, e.key);
      && (e.AddMapEntry? ==> k == |ms| && |ms'| == k + 1 && ms' == ms + [ms'[k]] && ms'[k].name == e.key)
      && (!e.AddMapEntry? ==> k < |ms|)
      && (e.ReplaceMapEntry? ==> ms' == SetMember(ms, k, e.entry.value))
      && (e.RemoveMapEntry? ==> ms' == Without(ms, k))
      && (e.RenameMapEntry? ==> !Holds(ms, e.newKey) && ms' == ms[k := ms[k].(raw := quote(e.newKey), name := e.newKey)])
  {
    if e.AddMapEntry? {
      MapAddMembers(root, e, quote);
    } else if e.ReplaceMapEntry? {
      MapReplaceMembers(root, e, quote);
    } else if e.RemoveMapEntry? {
      MapRemoveMembers(root, e, quote);
    } else {
      MapRenameMembers(root, e, quote);
    }
  }

  lemma MapEditKeepsKeys(root: Value, e: Edit, quote: Quote)
    requires Edited(root, e, quote).Ok?
    requires e.AddMapEntry? || e.ReplaceMapEntry? || e.RemoveMapEntry? || e.RenameMapEntry?
    requires KeysDistinct(Inner(Top(root), e.section))
    ensures KeysDistinct(Inner(Top(Edited(root, e, quote).value), e.section))
  {
    var ms, ms' := Inner(Top(root), e.section), Inner(Top(Edited(root, e, quote).value), e.section);
    var k := IndexOf(ms, e.key);
    if !Holds(Top(root), e.section) {
      MapEditStays(root, e, quote);
      OnlyMemberAt(Top(root), Top(Edited(root, e, quote).value), e.section);
    } else {
      MapEditMembers(root, e, quote);
      if e.AddMapEntry? {
        AppendKeepsKeys(ms, ms'[k]);
      } else if e.ReplaceMapEntry? {
        SetMemberKeepsKeys(ms, k, e.entry.value);
      } else if e.RemoveMapEntry? {
        DropKeepsKeys(ms, k);
      } else {
        RenameKeepsKeys(ms, k, ms'[k]);
      }
    }
  }

  /** The members of autoApprovers that an edit works on. */
  lemma ApproversMembers(root: Value, create: bool, quote: Quote)
    requires Approvers(root, create, quote).Ok?
    ensures var (root1, i) := Approvers(root, create, quote).value; root1.body.members[i].value.body.members == Inner(Top(root), APPROVERS)
  {
  }

  /** An edit of autoApprovers.routes changes one member of autoApprovers. */
  lemma RouteEditIsOnlyMember(root: Value, e: Edit, quote: Quote)
    requires Edited(root, e, quote).Ok? && (e.AddRoute? || e.ReplaceRoute? || e.RemoveRoute?)
    ensures var (root2, i, j) := Routes(root, e.AddRoute?, quote).value;
      var ms, ms' := Inner(Top(root), APPROVERS), Inner(Top(Edited(root, e, quote).value), APPROVERS);
      var m := root2.body.members[i].value.body.members[j];
      && OnlyMember(ms, ms', "routes") && j == IndexOf(ms, "routes")
      && m.value.body.members == Inner(ms, "routes")
      && ms'[j].value.body == NewRoutes(m, e, quote)
  {
    var r := Edited(root, e, quote).value;
    RouteEdit(root, e, quote);
    OnlyMemberAt(Top(root), Top(r), APPROVERS);
    var (root2, i, j) := Routes(root, e.AddRoute?, quote).value;
    RoutesShape(root, e.AddRoute?, quote, NewRoutes(root2.body.members[i].value.body.members[j], e, quote));
    ApproversMembers(root, e.AddRoute?, quote);
  }

  lemma ExitNodeIsOnlyMember(root: Value, e: Edit, quote: Quote)
    requires Edited(root, e, quote).Ok? && e.SetExitNode?
    ensures OnlyMember(Inner(Top(root), APPROVERS), Inner(Top(Edited(root, e, quote).value), APPROVERS), "exitNode")
  {
    var r := Edited(root, e, quote).value;
    ExitNodeStays(root, e, quote);
    OnlyMemberAt(Top(root), Top(r), APPROVERS);
    ApproversMembers(root, true, quote);
  }

  /** No edit gives the document a second top-level key of one name, and no edit gives a
      map-shaped section a second entry of one key. */
  lemma EditKeepsKeysDistinct(root: Value, e: Edit, quote: Quote, section: string)
    requires Edited(root, e, quote).Ok?
    ensures KeysDistinct(Top(root)) ==> KeysDistinct(Top(Edited(root, e, quote).value))
    ensures KeysDistinct(Inner(Top(root), section)) ==> KeysDistinct(Inner(Top(Edited(root, e, quote).value), section))
  {
    var r := Edited(root, e, quote).value;
    EditStaysInItsSection(root, e, quote);
    if KeysDistinct(Top(root)) {
      OnlyMemberKeepsKeys(Top(root), Top(r), e.Section());
    }
    if KeysDistinct(Inner(Top(root), section)) {
      if section != e.Section() {
        OtherSectionsStay(root, r, e.Section(), section);
      } else if e.AddMapEntry? || e.ReplaceMapEntry? || e.RemoveMapEntry? || e.RenameMapEntry? {
        MapEditKeepsKeys(root, e, quote);
      } else if e.AddEntry? || e.ReplaceEntry? || e.RemoveEntry? {
        OnlyMemberAt(Top(root), Top(r), e.section);
      } else if e.SetExitNode? {
        ExitNodeIsOnlyMember(root, e, quote);
        OnlyMemberKeepsKeys(Inner(Top(root), section), Inner(Top(r), section), "exitNode");
      } else {
        RouteEditIsOnlyMember(root, e, quote);
        OnlyMemberKeepsKeys(Inner(Top(root), section), Inner(Top(r), section), "routes");
      }
    }
  }

  /** No route edit gives autoApprovers.routes a second entry of one destination. */
  lemma RouteEditKeepsRoutesDistinct(root: Value, e: Edit, quote: Quote)
    requires Edited(root, e, quote).Ok? && (e.AddRoute? || e.ReplaceRoute? || e.RemoveRoute?)
    requires KeysDistinct(RoutesOf(root))
    ensures KeysDistinct(RoutesOf(Edited(root, e, quote).value))
  {
    RouteEdit(root, e, quote);
    RouteEditIsOnlyMember(root, e, quote);
    OnlyMemberAt(Inner(Top(root), APPROVERS), Inner(Top(Edited(root, e, quote).value), APPROVERS), "routes");
    var (root1, i, j) := Routes(root, e.AddRoute?, quote).value;
    var m, rs := root1.body.members[i].value.body.members[j], RoutesOf(root);
    var k := IndexOf(rs, e.cidr);
    if e.AddRoute? {
      AppendKeepsKeys(rs, NewRoutes(m, e, quote).members[|rs|]);
    } else if e.ReplaceRoute? {
      SetMemberKeepsKeys(rs, k, e.approvers);
    } else {
      DropKeepsKeys(rs, k);
    }
  }
}
