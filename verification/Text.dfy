/** Values and text that several modules share: optional results, decimal numbers, the byte
    order of strings, and the sorted form of a set of strings. */
module Text {

  datatype Option<+T> = None | Some(value: T)

  datatype Result<+T, +E> = Ok(value: T) | Err(error: E)

  function Digit(d: nat): char
    requires d < 10
  {
    ('0' as int + d) as char
  }

  predicate IsDigit(c: char) {
    '0' <= c <= '9'
  }

  predicate AllDigits(s: string) {
    forall i :: 0 <= i < |s| ==> IsDigit(s[i])
  }

  /** strconv.Itoa of a number that is not negative. */
  function Itoa(n: nat): (s: string)
    ensures s != [] && AllDigits(s)
  {
    if n < 10 then [Digit(n)] else Itoa(n / 10) + [Digit(n % 10)]
  }

  /** strconv.Atoi of a text of digits. */
  function Atoi(s: string): nat
    requires AllDigits(s)
  {
    if s == [] then 0 else 10 * Atoi(s[..|s| - 1]) + (s[|s| - 1] as int - '0' as int)
  }

  lemma {:induction false} AtoiItoa(n: nat)
    ensures Atoi(Itoa(n)) == n
  {
    if n >= 10 {
      var s := Itoa(n);
      assert s[..|s| - 1] == Itoa(n / 10);
      AtoiItoa(n / 10);
    }
  }

  lemma {:induction false} ItoaLength(n: nat)
    requires n <= 65535
    ensures 1 <= |Itoa(n)| <= 5
  {
    assert n / 10 / 10 / 10 / 10 < 10;
    if n >= 10 {
      assert |Itoa(n)| == 1 + |Itoa(n / 10)|;
      if n / 10 >= 10 {
        assert |Itoa(n / 10)| == 1 + |Itoa(n / 10 / 10)|;
        if n / 10 / 10 >= 10 {
          assert |Itoa(n / 10 / 10)| == 1 + |Itoa(n / 10 / 10 / 10)|;
        }
      }
    }
  }

  lemma NumberTexts()
    ensures Itoa(0) == "0" && Itoa(1) == "1" && Itoa(22) == "22"
    ensures Atoi("0") == 0 && Atoi("1") == 1 && Atoi("22") == 22
  {
    assert Itoa(2) == "2" && Itoa(22) == Itoa(2) + [Digit(2)] && "2" + "2" == "22";
    AtoiItoa(0);
    AtoiItoa(1);
    AtoiItoa(22);
  }

  /** The byte order of two strings, which sort.Strings follows. */
  predicate Before(a: string, b: string) {
    if b == [] then false
    else if a == [] then true
    else if a[0] != b[0] then a[0] < b[0]
    else Before(a[1..], b[1..])
  }

  /** A string stands before another one that it is a proper prefix of, and otherwise the
      first byte that differs decides. */
  lemma {:induction false} BeforeExactly(a: string, b: string)
    ensures Before(a, b) <==> a < b || exists i :: 0 <= i < |a| && i < |b| && a[..i] == b[..i] && a[i] < b[i]
  {
    if a != [] && b != [] && a[0] == b[0] {
      BeforeExactly(a[1..], b[1..]);
      if i :| 0 <= i < |a[1..]| && i < |b[1..]| && a[1..][..i] == b[1..][..i] && a[1..][i] < b[1..][i] {
        assert a[..i + 1] == [a[0]] + a[1..][..i] && b[..i + 1] == [b[0]] + b[1..][..i];
        assert a[i + 1] < b[i + 1];
      }
      if i :| 0 <= i < |a| && i < |b| && a[..i] == b[..i] && a[i] < b[i] {
        assert i > 0;
        assert a[1..][..i - 1] == a[..i][1..] && b[1..][..i - 1] == b[..i][1..];
        assert a[1..][i - 1] < b[1..][i - 1];
      }
      assert a == [a[0]] + a[1..] && b == [b[0]] + b[1..];
    } else if a != [] && b != [] {
      assert a[..0] == b[..0];
      forall i | 0 < i < |a| && i < |b|
        ensures a[..i] != b[..i]
      {
        assert a[..i][0] == a[0] && b[..i][0] == b[0];
      }
    }
  }

  lemma {:induction false} BeforeTotal(a: string, b: string)
    ensures a == b || Before(a, b) || Before(b, a)
    ensures !(Before(a, b) && Before(b, a))
    ensures !Before(a, a)
  {
    if a != [] && b != [] && a[0] == b[0] {
      BeforeTotal(a[1..], b[1..]);
      assert a == [a[0]] + a[1..] && b == [b[0]] + b[1..];
    }
    if a != [] {
      BeforeTotal(a[1..], a[1..]);
    }
  }

  lemma {:induction false} BeforeTransitive(a: string, b: string, c: string)
    requires Before(a, b) && Before(b, c)
    ensures Before(a, c)
  {
    if a != [] && a[0] == b[0] == c[0] {
      BeforeTransitive(a[1..], b[1..], c[1..]);
    }
  }

  predicate StrictlySorted(s: seq<string>) {
    forall i, j :: 0 <= i < j < |s| ==> Before(s[i], s[j])
  }

  /** The elements of a sequence as a set. */
  function Elements<T>(s: seq<T>): set<T> {
    set x | x in s
  }

  lemma NoElements<T>(s: seq<T>)
    ensures Elements(s) == {} <==> s == []
  {
    if s != [] {
      assert s[0] in Elements(s);
    }
  }

  /** A strictly sorted listing of a set is unique, so no iteration order shows in it. */
  lemma {:induction false} SortedListingUnique(a: seq<string>, b: seq<string>)
    requires StrictlySorted(a) && StrictlySorted(b)
    requires Elements(a) == Elements(b)
    ensures a == b
  {
    if a == [] {
      NoElements(b);
    } else {
      assert a[0] in Elements(b) && a[0] in b;
      assert b[0] in Elements(b) && b[0] in Elements(a) && b[0] in a;
      if a[0] != b[0] {
        var i :| 0 <= i < |b| && b[i] == a[0];
        var j :| 0 <= j < |a| && a[j] == b[0];
        BeforeTotal(a[0], b[0]);
        assert false;
      }
      forall x
        ensures x in Elements(a[1..]) <==> x in Elements(b[1..])
      {
        TailElements(a, x);
        TailElements(b, x);
      }
      SortedListingUnique(a[1..], b[1..]);
      assert a == [a[0]] + a[1..] && b == [b[0]] + b[1..];
    }
  }

  lemma TailElements(s: seq<string>, x: string)
    requires s != [] && StrictlySorted(s)
    ensures x in Elements(s[1..]) <==> x in Elements(s) && x != s[0]
  {
    BeforeTotal(s[0], s[0]);
    if x in s && x != s[0] {
      var i :| 0 <= i < |s| && s[i] == x;
      assert s[1..][i - 1] == x;
    }
    if x in s[1..] {
      var i :| 0 <= i < |s[1..]| && s[1..][i] == x;
      assert s[i + 1] == x;
    }
  }

  /** Where x belongs in a strictly sorted sequence that does not hold it. */
  method Insert(s: seq<string>, x: string) returns (r: seq<string>)
    requires StrictlySorted(s) && x !in s
    ensures StrictlySorted(r) && Elements(r) == Elements(s) + {x}
  {
    var i := 0;
    while i < |s| && Before(s[i], x)
      invariant 0 <= i <= |s|
      invariant forall k :: 0 <= k < i ==> Before(s[k], x)
    {
      i := i + 1;
    }
    r := s[..i] + [x] + s[i..];
    forall k | i <= k < |s|
      ensures Before(x, s[k])
    {
      BeforeTotal(s[i], x);
      assert Before(x, s[i]);
      if i < k {
        BeforeTransitive(x, s[i], s[k]);
      }
    }
    forall a, b | 0 <= a < b < |r|
      ensures Before(r[a], r[b])
    {
      if a < i && b > i {
        assert Before(s[a], s[b - 1]);
      }
    }
    forall y
      ensures y in Elements(r) <==> y in Elements(s) + {x}
    {
      assert s == s[..i] + s[i..];
    }
  }

  /** sort.Strings over the keys of a map. The loop takes the keys in any order, as the range
      over a Go map does, and the result is still the one sorted listing. */
  method SortedKeys(keys: set<string>) returns (ids: seq<string>)
    ensures StrictlySorted(ids) && Elements(ids) == keys
  {
    ids := [];
    var todo := keys;
    while todo != {}
      invariant todo <= keys
      invariant StrictlySorted(ids) && Elements(ids) == keys - todo
      decreases todo
    {
      var x :| x in todo;
      assert x !in Elements(ids);
      ids := Insert(ids, x);
      todo := todo - {x};
    }
  }

  /** The sorted listing of a set, for specifications. */
  ghost function Listing(keys: set<string>): (ids: seq<string>)
    ensures StrictlySorted(ids) && Elements(ids) == keys
  {
    ListingExists(keys);
    var ids :| StrictlySorted(ids) && Elements(ids) == keys;
    ids
  }

  lemma {:induction false} ListingExists(keys: set<string>)
    ensures exists ids :: StrictlySorted(ids) && Elements(ids) == keys
  {
    if keys == {} {
      assert StrictlySorted([]) && Elements<string>([]) == {};
    } else {
      var x :| x in keys;
      ListingExists(keys - {x});
      var rest :| StrictlySorted(rest) && Elements(rest) == keys - {x};
      assert x !in Elements(rest);
      var _ := InsertExists(rest, x);
    }
  }

  lemma {:induction false} InsertExists(s: seq<string>, x: string) returns (r: seq<string>)
    requires StrictlySorted(s) && x !in s
    ensures StrictlySorted(r) && Elements(r) == Elements(s) + {x}
  {
    if s == [] {
      r := [x];
    } else {
      BeforeTotal(s[0], x);
      if Before(x, s[0]) {
        r := [x] + s;
        forall k | 0 <= k < |s|
          ensures Before(x, s[k])
        {
          if k > 0 {
            BeforeTransitive(x, s[0], s[k]);
          }
        }
      } else {
        var t := InsertExists(s[1..], x);
        r := [s[0]] + t;
        forall k | 0 <= k < |t|
          ensures Before(s[0], t[k])
        {
          assert t[k] in Elements(t);
        }
      }
    }
  }
}
