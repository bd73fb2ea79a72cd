/** The syntax tree of a policy document, and the bytes that one change of the tree changes
    (internal/policy/document.go over hujson.Value). */
module PolicyTree {
  import opened Text

  // ----- the tree

  /** hujson.Value: after is None for a value that no comma follows at the end of a list. */
  datatype Value = Value(before: string, body: Body, after: Option<string>)

  datatype Body =
    | Literal(text: string)
    | Array(elements: seq<Value>, end: string)
    | Object(members: seq<Member>, end: string)

  /** raw is the key as the document writes it, and name is the key without its quotes. */
  datatype Member = Member(before: string, raw: string, name: string, gap: string, value: Value)

  // ----- the bytes

  function Comma(comma: bool): string {
    if comma then "," else ""
  }

  /** The texts between commas, and one more comma at the end on demand. */
  function List(texts: seq<string>, comma: bool): string {
    if texts == [] then ""
    else if |texts| == 1 then texts[0] + Comma(comma)
    else texts[0] + ("," + List(texts[1..], comma))
  }

  /** hujson.Value.Pack. */
  function Pack(v: Value): string {
    v.before + PackBody(v.body) + match v.after case Some(extra) => extra case None => ""
  }

  function PackBody(b: Body): string {
    match b
    case Literal(text) => text
    case Array(elements, end) => "[" + (List(ArrayTexts(elements), ArrayComma(elements)) + (end + "]"))
    case Object(members, end) => "{" + (List(ObjectTexts(members), ObjectComma(members)) + (end + "}"))
  }

  function PackMember(m: Member): string {
    m.before + m.raw + (m.gap + ":" + Pack(m.value))
  }

  function ArrayTexts(elements: seq<Value>): (texts: seq<string>) {
    seq(|elements|, i requires 0 <= i < |elements| => Pack(elements[i]))
  }

  function ObjectTexts(members: seq<Member>): (texts: seq<string>) {
    seq(|members|, i requires 0 <= i < |members| => PackMember(members[i]))
  }

  /** The last value holds an after text, even an empty one, when a comma follows it. */
  predicate ArrayComma(elements: seq<Value>) {
    elements != [] && elements[|elements| - 1].after.Some?
  }

  predicate ObjectComma(members: seq<Member>) {
    members != [] && members[|members| - 1].value.after.Some?
  }

  // ----- one range of bytes changes

  ghost predicate SpliceAt(old0: string, new0: string, gone: string, put: string, prefix: string, suffix: string) {
    old0 == prefix + gone + suffix && new0 == prefix + put + suffix
  }

  /** The new bytes are the old bytes with one range gone replaced by put. */
  ghost predicate Splice(old0: string, new0: string, gone: string, put: string) {
    exists prefix, suffix :: SpliceAt(old0, new0, gone, put, prefix, suffix)
  }

  lemma SpliceBehind(a: string, old0: string, new0: string, gone: string, put: string)
    requires Splice(old0, new0, gone, put)
    ensures Splice(a + old0, a + new0, gone, put)
  {
    var prefix, suffix :| SpliceAt(old0, new0, gone, put, prefix, suffix);
    assert a + (prefix + gone + suffix) == (a + prefix) + gone + suffix;
    assert a + (prefix + put + suffix) == (a + prefix) + put + suffix;
    assert SpliceAt(a + old0, a + new0, gone, put, a + prefix, suffix);
  }

  lemma SpliceBefore(old0: string, new0: string, gone: string, put: string, b: string)
    requires Splice(old0, new0, gone, put)
    ensures Splice(old0 + b, new0 + b, gone, put)
  {
    var prefix, suffix :| SpliceAt(old0, new0, gone, put, prefix, suffix);
    assert (prefix + gone + suffix) + b == prefix + gone + (suffix + b);
    assert (prefix + put + suffix) + b == prefix + put + (suffix + b);
    assert SpliceAt(old0 + b, new0 + b, gone, put, prefix, suffix + b);
  }

  lemma SpliceTail(texts: seq<string>, comma: bool, texts': seq<string>, comma': bool, gone: string, put: string)
    requires |texts| > 1 && |texts'| > 1 && texts[0] == texts'[0]
    requires Splice(List(texts[1..], comma), List(texts'[1..], comma'), gone, put)
    ensures Splice(List(texts, comma), List(texts', comma'), gone, put)
  {
    var tail, tail' := List(texts[1..], comma), List(texts'[1..], comma');
    SpliceBehind(",", tail, tail', gone, put);
    SpliceBehind(texts[0], "," + tail, "," + tail', gone, put);
  }

  /** A change inside one text changes the list in the same range. */
  lemma {:induction false} ListChanged(texts: seq<string>, i: nat, text: string, comma: bool, gone: string, put: string)
    requires i < |texts| && Splice(texts[i], text, gone, put)
    ensures Splice(List(texts, comma), List(texts[i := text], comma), gone, put)
  {
    var other, rest := texts[i := text], texts[1..];
    if |texts| == 1 {
      assert other == [text];
      SpliceBefore(texts[0], text, gone, put, Comma(comma));
    } else if i == 0 {
      assert other[1..] == rest && other[0] == text;
      SpliceBefore(texts[0], text, gone, put, "," + List(rest, comma));
      assert List(texts, comma) == texts[0] + ("," + List(rest, comma));
      assert List(other, comma) == text + ("," + List(rest, comma));
    } else {
      assert other[1..] == rest[i - 1 := text] && other[0] == texts[0];
      ListChanged(rest, i - 1, text, comma, gone, put);
      SpliceTail(texts, comma, other, comma, gone, put);
    }
  }

  /** What an append puts between the old last text and the end of the list. */
  function Appended(first: bool, comma: bool, text: string, comma': bool): string {
    Comma(!first && !comma) + text + Comma(comma')
  }

  lemma AppendedSecond(first: string, comma: bool, text: string, comma': bool)
    ensures Splice(first + Comma(comma), first + ("," + (text + Comma(comma'))), "", Appended(false, comma, text, comma'))
  {
    var prefix, put := first + Comma(comma), Appended(false, comma, text, comma');
    assert Comma(comma) + put == "," + (text + Comma(comma'));
    assert SpliceAt(prefix, first + ("," + (text + Comma(comma'))), "", put, prefix, "");
  }

  lemma {:induction false} ListAppended(texts: seq<string>, comma: bool, text: string, comma': bool)
    ensures Splice(List(texts, comma), List(texts + [text], comma'), "", Appended(texts == [], comma, text, comma'))
  {
    var more, put := texts + [text], Appended(texts == [], comma, text, comma');
    if texts == [] {
      assert more == [text] && List(more, comma') == put;
      assert SpliceAt("", put, "", put, "", "");
    } else if |texts| == 1 {
      assert more[1..] == [text] && more[0] == texts[0];
      assert List([text], comma') == text + Comma(comma');
      AppendedSecond(texts[0], comma, text, comma');
    } else {
      var rest := texts[1..];
      assert more[1..] == rest + [text] && more[0] == texts[0];
      ListAppended(rest, comma, text, comma');
      SpliceTail(texts, comma, more, comma', "", put);
    }
  }

  /** What the removal of text i takes out of the list. */
  function Dropped(texts: seq<string>, i: nat, comma: bool, comma': bool): string
    requires i < |texts|
  {
    if i < |texts| - 1 then texts[i] + "," else Comma(i > 0 && !comma') + texts[i] + Comma(comma)
  }

  function Without<T>(s: seq<T>, i: nat): seq<T>
    requires i < |s|
  {
    s[..i] + s[i + 1..]
  }

  lemma DroppedSecondOfTwo(first: string, text: string, comma: bool, comma': bool)
    ensures Splice(first + ("," + (text + Comma(comma))), first + Comma(comma'), Comma(!comma') + text + Comma(comma), "")
  {
    var prefix, gone := first + Comma(comma'), Comma(!comma') + text + Comma(comma);
    assert Comma(comma') + gone == "," + (text + Comma(comma));
    assert SpliceAt(first + ("," + (text + Comma(comma))), prefix, gone, "", prefix, "");
  }

  lemma {:induction false} ListDropped(texts: seq<string>, i: nat, comma: bool, comma': bool)
    requires i < |texts| && (i < |texts| - 1 ==> comma' == comma)
    ensures Splice(List(texts, comma), List(Without(texts, i), comma'), Dropped(texts, i, comma, comma'), "")
  {
    var few, rest, gone := Without(texts, i), texts[1..], Dropped(texts, i, comma, comma');
    if |texts| == 1 {
      assert SpliceAt(List(texts, comma), "", gone, "", "", "");
    } else if i == 0 {
      assert few == rest;
      assert SpliceAt(List(texts, comma), List(rest, comma'), gone, "", "", List(rest, comma));
    } else if |texts| == 2 {
      assert rest == [texts[1]] && few == [texts[0]];
      assert List(rest, comma) == texts[1] + Comma(comma) && List(few, comma') == texts[0] + Comma(comma');
      assert List(texts, comma) == texts[0] + ("," + List(rest, comma));
      DroppedSecondOfTwo(texts[0], texts[1], comma, comma');
    } else {
      assert few[1..] == Without(rest, i - 1) && few[0] == texts[0];
      ListDropped(rest, i - 1, comma, comma');
      SpliceTail(texts, comma, few, comma', gone, "");
    }
  }

  // ----- one change of the tree

  function SetBody(v: Value, b: Body): Value {
    v.(body := b)
  }

  function SetMember(ms: seq<Member>, i: nat, b: Body): seq<Member>
    requires i < |ms|
  {
    ms[i := ms[i].(value := SetBody(ms[i].value, b))]
  }

  lemma BodyChanged(v: Value, b: Body, gone: string, put: string)
    requires Splice(PackBody(v.body), PackBody(b), gone, put)
    ensures Splice(Pack(v), Pack(SetBody(v, b)), gone, put)
  {
    var after := match v.after case Some(extra) => extra case None => "";
    SpliceBehind(v.before, PackBody(v.body), PackBody(b), gone, put);
    SpliceBefore(v.before + PackBody(v.body), v.before + PackBody(b), gone, put, after);
  }

  lemma ListInBody(open: string, l: string, l': string, close: string, gone: string, put: string)
    requires Splice(l, l', gone, put)
    ensures Splice(open + (l + close), open + (l' + close), gone, put)
  {
    SpliceBefore(l, l', gone, put, close);
    SpliceBehind(open, l + close, l' + close, gone, put);
  }

  lemma MemberChanged(ms: seq<Member>, i: nat, m: Member, end: string, gone: string, put: string)
    requires i < |ms| && Splice(PackMember(ms[i]), PackMember(m), gone, put) && (m.value.after.Some? <==> ms[i].value.after.Some?)
    ensures Splice(PackBody(Object(ms, end)), PackBody(Object(ms[i := m], end)), gone, put)
  {
    var texts, comma := ObjectTexts(ms), ObjectComma(ms);
    ListChanged(texts, i, PackMember(m), comma, gone, put);
    assert ObjectTexts(ms[i := m]) == texts[i := PackMember(m)];
    ListInBody("{", List(texts, comma), List(texts[i := PackMember(m)], comma), end + "}", gone, put);
  }

  lemma ElementChanged(es: seq<Value>, i: nat, v: Value, end: string, gone: string, put: string)
    requires i < |es| && Splice(Pack(es[i]), Pack(v), gone, put) && (v.after.Some? <==> es[i].after.Some?)
    ensures Splice(PackBody(Array(es, end)), PackBody(Array(es[i := v], end)), gone, put)
  {
    var texts, comma := ArrayTexts(es), ArrayComma(es);
    ListChanged(texts, i, Pack(v), comma, gone, put);
    assert ArrayTexts(es[i := v]) == texts[i := Pack(v)];
    ListInBody("[", List(texts, comma), List(texts[i := Pack(v)], comma), end + "]", gone, put);
  }

  lemma MemberAppended(ms: seq<Member>, m: Member, end: string)
    ensures Splice(PackBody(Object(ms, end)), PackBody(Object(ms + [m], end)), "", Appended(ms == [], ObjectComma(ms), PackMember(m), m.value.after.Some?))
  {
    var texts, more := ObjectTexts(ms), ObjectTexts(ms + [m]);
    ListAppended(texts, ObjectComma(ms), PackMember(m), m.value.after.Some?);
    assert more == texts + [PackMember(m)];
    ListInBody("{", List(texts, ObjectComma(ms)), List(more, ObjectComma(ms + [m])), end + "}", "", Appended(ms == [], ObjectComma(ms), PackMember(m), m.value.after.Some?));
  }

  lemma ElementAppended(es: seq<Value>, v: Value, end: string)
    ensures Splice(PackBody(Array(es, end)), PackBody(Array(es + [v], end)), "", Appended(es == [], ArrayComma(es), Pack(v), v.after.Some?))
  {
    var texts, more := ArrayTexts(es), ArrayTexts(es + [v]);
    ListAppended(texts, ArrayComma(es), Pack(v), v.after.Some?);
    assert more == texts + [Pack(v)];
    ListInBody("[", List(texts, ArrayComma(es)), List(more, ArrayComma(es + [v])), end + "]", "", Appended(es == [], ArrayComma(es), Pack(v), v.after.Some?));
  }

  lemma WithoutAt<T>(s: seq<T>, i: nat)
    requires i < |s|
    ensures |Without(s, i)| == |s| - 1
    ensures forall k :: 0 <= k < |s| - 1 ==> Without(s, i)[k] == if k < i then s[k] else s[k + 1]
  {
  }

  lemma MemberTextsConcat(a: seq<Member>, b: seq<Member>)
    ensures ObjectTexts(a + b) == ObjectTexts(a) + ObjectTexts(b)
  {
  }

  lemma MemberTextsWithout(ms: seq<Member>, i: nat)
    requires i < |ms|
    ensures ObjectTexts(Without(ms, i)) == Without(ObjectTexts(ms), i)
  {
    var front, back := ms[..i], ms[i + 1..];
    assert ObjectTexts(front) == ObjectTexts(ms)[..i];
    assert ObjectTexts(back) == ObjectTexts(ms)[i + 1..];
    MemberTextsConcat(front, back);
  }

  lemma ElementTextsConcat(a: seq<Value>, b: seq<Value>)
    ensures ArrayTexts(a + b) == ArrayTexts(a) + ArrayTexts(b)
  {
  }

  lemma ElementTextsWithout(es: seq<Value>, i: nat)
    requires i < |es|
    ensures ArrayTexts(Without(es, i)) == Without(ArrayTexts(es), i)
  {
    var front, back := es[..i], es[i + 1..];
    assert ArrayTexts(front) == ArrayTexts(es)[..i];
    assert ArrayTexts(back) == ArrayTexts(es)[i + 1..];
    ElementTextsConcat(front, back);
  }

  /** An earlier removal leaves the last value, so it leaves the comma behind it. */
  lemma CommaWithout(ms: seq<Member>, es: seq<Value>, i: nat)
    ensures i < |ms| - 1 ==> ObjectComma(Without(ms, i)) == ObjectComma(ms)
    ensures i < |es| - 1 ==> ArrayComma(Without(es, i)) == ArrayComma(es)
  {
    if i < |ms| - 1 {
      WithoutAt(ms, i);
    }
    if i < |es| - 1 {
      WithoutAt(es, i);
    }
  }

  lemma MemberDropped(ms: seq<Member>, i: nat, end: string)
    requires i < |ms|
    ensures Splice(PackBody(Object(ms, end)), PackBody(Object(Without(ms, i), end)), Dropped(ObjectTexts(ms), i, ObjectComma(ms), ObjectComma(Without(ms, i))), "")
  {
    var texts, few := ObjectTexts(ms), ObjectTexts(Without(ms, i));
    MemberTextsWithout(ms, i);
    CommaWithout(ms, [], i);
    ListDropped(texts, i, ObjectComma(ms), ObjectComma(Without(ms, i)));
    ListInBody("{", List(texts, ObjectComma(ms)), List(few, ObjectComma(Without(ms, i))), end + "}", Dropped(texts, i, ObjectComma(ms), ObjectComma(Without(ms, i))), "");
  }

  lemma ElementDropped(es: seq<Value>, i: nat, end: string)
    requires i < |es|
    ensures Splice(PackBody(Array(es, end)), PackBody(Array(Without(es, i), end)), Dropped(ArrayTexts(es), i, ArrayComma(es), ArrayComma(Without(es, i))), "")
  {
    var texts, few := ArrayTexts(es), ArrayTexts(Without(es, i));
    ElementTextsWithout(es, i);
    CommaWithout([], es, i);
    ListDropped(texts, i, ArrayComma(es), ArrayComma(Without(es, i)));
    ListInBody("[", List(texts, ArrayComma(es)), List(few, ArrayComma(Without(es, i))), end + "]", Dropped(texts, i, ArrayComma(es), ArrayComma(Without(es, i))), "");
  }

  /** A change inside the body of one member changes the object in the same range. */
  lemma MemberBodyChanged(ms: seq<Member>, i: nat, b: Body, end: string, gone: string, put: string)
    requires i < |ms| && Splice(PackBody(ms[i].value.body), PackBody(b), gone, put)
    ensures Splice(PackBody(Object(ms, end)), PackBody(Object(SetMember(ms, i, b), end)), gone, put)
  {
    var v := ms[i].value;
    var m := ms[i].(value := SetBody(v, b));
    BodyChanged(v, b, gone, put);
    SpliceBehind(m.gap + ":", Pack(v), Pack(m.value), gone, put);
    SpliceBehind(m.before + m.raw, m.gap + ":" + Pack(v), m.gap + ":" + Pack(m.value), gone, put);
    MemberChanged(ms, i, m, end, gone, put);
  }
}
