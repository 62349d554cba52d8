/**
 The shape of a mail: a canonical string built from the five header fields
 that must survive transmission unchanged (From, To, Cc, Subject, Date).
 Models `extract_stable_headers`, `canonical_string` and `calculate_shape`.
 */
module Shape {
  import opened Optional
  import opened Strings
  import opened Headers
  import Json

  /** A `[key, value]` array of two strings. */
  type Pair = (string, string)

  /** The stable field names, in the order the plugin lists them. */
  const StableNames: seq<string> := ["From", "To", "Cc", "Subject", "Date"]

  /** `header.get(name)`, with an absent or empty field read as the empty string. */
  function StableValue(h: Headers, name: string): (v: string)
    ensures !Has(h, name) ==> v == ""
    ensures |GetAll(h, name)| == 1 ==> v == GetAll(h, name)[0]
  {
    Get(h, name).GetOr("")
  }

  /** `Object.entries(extract_stable_headers(h))`: the pairs in insertion order. */
  function ExtractStable(h: Headers): (ps: seq<Pair>)
    ensures |ps| == |StableNames|
    ensures forall i :: 0 <= i < |ps| ==> ps[i] == (StableNames[i], StableValue(h, StableNames[i]))
  {
    [ ("From", StableValue(h, "From")),
      ("To", StableValue(h, "To")),
      ("Cc", StableValue(h, "Cc")),
      ("Subject", StableValue(h, "Subject")),
      ("Date", StableValue(h, "Date")) ]
  }

  /** The two header lists agree on every stable field. */
  predicate SameStableValues(h1: Headers, h2: Headers)
  {
    forall n :: n in StableNames ==> StableValue(h1, n) == StableValue(h2, n)
  }

  /** The string the default comparator of `Array.prototype.sort` compares: `String([k, v])`. */
  function SortKey(p: Pair): string
  {
    p.0 + "," + p.1
  }

  predicate Sorted(s: seq<Pair>)
  {
    forall i, j :: 0 <= i < j < |s| ==> !StrLess(SortKey(s[j]), SortKey(s[i]))
  }

  predicate StrictlySorted(s: seq<Pair>)
  {
    forall i, j :: 0 <= i < j < |s| ==> StrLess(SortKey(s[i]), SortKey(s[j]))
  }

  /** Keys not below `y` stay not below anything `y` is not below. */
  lemma NotLessTransitive(x: string, y: string, z: string)
    requires !StrLess(x, y) && !StrLess(y, z)
    ensures !StrLess(x, z)
  {
    StrLessTotal(y, z);
    if StrLess(x, z) && StrLess(z, y) {
      StrLessTransitive(x, z, y);
    }
  }

  /**
   Inserts `x` in front of the first element whose key is not below `x`'s
   key, so that `x` stays ahead of equal keys that came after it.
   */
  function Insert(x: Pair, s: seq<Pair>): (r: seq<Pair>)
    ensures multiset(r) == multiset(s) + multiset{x}
    ensures |r| == |s| + 1
    ensures Sorted(s) ==> Sorted(r)
    decreases |s|
  {
    if |s| == 0 || !StrLess(SortKey(s[0]), SortKey(x)) then
      InsertFrontSorted(x, s);
      [x] + s
    else
      var rest := Insert(x, s[1..]);
      assert s == [s[0]] + s[1..];
      InsertAfterHeadSorted(x, s, rest);
      [s[0]] + rest
  }

  lemma InsertFrontSorted(x: Pair, s: seq<Pair>)
    requires |s| == 0 || !StrLess(SortKey(s[0]), SortKey(x))
    ensures Sorted(s) ==> Sorted([x] + s)
  {
    if Sorted(s) {
      var r := [x] + s;
      forall i, j | 0 <= i < j < |r|
        ensures !StrLess(SortKey(r[j]), SortKey(r[i]))
      {
        if i == 0 && j > 1 {
          NotLessTransitive(SortKey(s[j - 1]), SortKey(s[0]), SortKey(x));
        }
      }
    }
  }

  lemma InsertAfterHeadSorted(x: Pair, s: seq<Pair>, rest: seq<Pair>)
    requires |s| > 0 && StrLess(SortKey(s[0]), SortKey(x))
    requires multiset(rest) == multiset(s[1..]) + multiset{x}
    requires Sorted(s[1..]) ==> Sorted(rest)
    ensures Sorted(s) ==> Sorted([s[0]] + rest)
  {
    if Sorted(s) {
      assert Sorted(s[1..]) by {
        forall i, j | 0 <= i < j < |s[1..]|
          ensures !StrLess(SortKey(s[1..][j]), SortKey(s[1..][i]))
        {
          assert s[1..][j] == s[j + 1] && s[1..][i] == s[i + 1];
        }
      }
      var r := [s[0]] + rest;
      forall i, j | 0 <= i < j < |r|
        ensures !StrLess(SortKey(r[j]), SortKey(r[i]))
      {
        if i == 0 {
          var y := r[j];
          assert y in multiset(rest);
          if y == x {
            StrLessAsymmetric(SortKey(s[0]), SortKey(x));
          } else {
            assert y in multiset(s[1..]);
            var k :| 0 <= k < |s[1..]| && s[1..][k] == y;
            assert s[k + 1] == y;
          }
        } else {
          assert r[i] == rest[i - 1] && r[j] == rest[j - 1];
        }
      }
    }
  }

  /** `l.sort()` with the default comparator: a stable sort by `SortKey`. */
  function SortPairs(s: seq<Pair>): (r: seq<Pair>)
    ensures multiset(r) == multiset(s)
    ensures |r| == |s|
    ensures Sorted(r)
    decreases |s|
  {
    if |s| == 0 then []
    else
      assert s == [s[0]] + s[1..];
      Insert(s[0], SortPairs(s[1..]))
  }

  /** `canonical_string`: the sorted pairs serialised by `JSON.stringify`. */
  function CanonicalString(pairs: seq<Pair>): string
  {
    Json.Stringify(SortPairs(pairs))
  }

  /**
   When no two of the pairs compare equal, the canonical string does not
   depend on the order the pairs are listed in.
   */
  lemma CanonicalStringIgnoresOrder(a: seq<Pair>, b: seq<Pair>)
    requires multiset(a) == multiset(b)
    requires StrictlySorted(SortPairs(a))
    ensures CanonicalString(a) == CanonicalString(b)
  {
    SortedPermutationUnique(SortPairs(a), SortPairs(b));
  }

  /** The sorted pair list the shape serialises. */
  function CanonicalPairs(h: Headers): seq<Pair>
  {
    SortPairs(ExtractStable(h))
  }

  /**
   `calculate_shape`: whatever order the sort visits the pairs in, the shape
   is the serialisation of the five stable pairs in the order Cc, Date, From,
   Subject, To.
   */
  function CalculateShape(h: Headers): (r: string)
    ensures r == Json.Stringify(FixedOrder(h))
  {
    CanonicalOrder(h);
    CanonicalString(ExtractStable(h))
  }

  /** The order the sort always produces, since the five names start with distinct letters. */
  function FixedOrder(h: Headers): seq<Pair>
  {
    [ ("Cc", StableValue(h, "Cc")),
      ("Date", StableValue(h, "Date")),
      ("From", StableValue(h, "From")),
      ("Subject", StableValue(h, "Subject")),
      ("To", StableValue(h, "To")) ]
  }

  /** A sorted list and a strictly sorted list holding the same pairs are the same list. */
  lemma {:induction false} SortedPermutationUnique(a: seq<Pair>, b: seq<Pair>)
    requires StrictlySorted(a) && Sorted(b) && multiset(a) == multiset(b)
    ensures a == b
    decreases |a|
  {
    assert |a| == |multiset(a)| == |multiset(b)| == |b|;
    if |a| > 0 {
      HeadsAgree(a, b);
      assert a == [a[0]] + a[1..] && b == [b[0]] + b[1..];
      assert multiset(a[1..]) == multiset(a) - multiset{a[0]};
      assert multiset(b[1..]) == multiset(b) - multiset{b[0]};
      SortedTails(a, b);
      SortedPermutationUnique(a[1..], b[1..]);
    }
  }

  /** The least pair of the strictly sorted list heads the sorted one as well. */
  lemma HeadsAgree(a: seq<Pair>, b: seq<Pair>)
    requires StrictlySorted(a) && Sorted(b) && multiset(a) == multiset(b)
    requires |a| > 0 && |b| > 0
    ensures a[0] == b[0]
  {
    assert b[0] in multiset(a);
    var i :| 0 <= i < |a| && a[i] == b[0];
    assert a[0] in multiset(b);
    var j :| 0 <= j < |b| && b[j] == a[0];
    if i != 0 {
      if j == 0 {
        StrLessIrreflexive(SortKey(a[0]));
        assert false;
      } else {
        assert false;
      }
    }
  }

  lemma SortedTails(a: seq<Pair>, b: seq<Pair>)
    requires StrictlySorted(a) && Sorted(b) && |a| > 0 && |b| > 0
    ensures StrictlySorted(a[1..]) && Sorted(b[1..])
  {
    forall x, y | 0 <= x < y < |a[1..]|
      ensures StrLess(SortKey(a[1..][x]), SortKey(a[1..][y]))
    {
      assert a[1..][x] == a[x + 1] && a[1..][y] == a[y + 1];
    }
    forall x, y | 0 <= x < y < |b[1..]|
      ensures !StrLess(SortKey(b[1..][y]), SortKey(b[1..][x]))
    {
      assert b[1..][x] == b[x + 1] && b[1..][y] == b[y + 1];
    }
  }

  lemma FixedOrderStrictlySorted(h: Headers)
    ensures StrictlySorted(FixedOrder(h))
  {
    var f := FixedOrder(h);
    var firsts := ['C', 'D', 'F', 'S', 'T'];
    forall k | 0 <= k < 5
      ensures |SortKey(f[k])| > 0 && SortKey(f[k])[0] == firsts[k]
    {
    }
    forall i, j | 0 <= i < j < |f|
      ensures StrLess(SortKey(f[i]), SortKey(f[j]))
    {
      FirstCharDecides(SortKey(f[i]), SortKey(f[j]));
    }
  }

  /**
   Sorting the five stable pairs by their `key,value` strings always yields
   Cc, Date, From, Subject, To, whatever the values are.
   */
  lemma CanonicalOrder(h: Headers)
    ensures CanonicalPairs(h) == FixedOrder(h)
  {
    var e := ExtractStable(h);
    assert multiset(e) == multiset(FixedOrder(h));
    FixedOrderStrictlySorted(h);
    SortedPermutationUnique(FixedOrder(h), SortPairs(e));
  }

  /** The shape is a function of the five stable values alone. */
  lemma ShapeDependsOnlyOnStableValues(h1: Headers, h2: Headers)
    requires SameStableValues(h1, h2)
    ensures CalculateShape(h1) == CalculateShape(h2)
  {
    StableNamesListed(h1, h2);
    assert ExtractStable(h1) == ExtractStable(h2);
  }

  /** The canonical pair list records the five stable values exactly: equal lists iff equal values. */
  lemma CanonicalPairsDetermineStableValues(h1: Headers, h2: Headers)
    ensures CanonicalPairs(h1) == CanonicalPairs(h2) <==>
      SameStableValues(h1, h2)
  {
    CanonicalOrder(h1);
    CanonicalOrder(h2);
    FixedOrderDeterminesStableValues(h1, h2);
  }

  lemma FixedOrderDeterminesStableValues(h1: Headers, h2: Headers)
    ensures FixedOrder(h1) == FixedOrder(h2) <==> SameStableValues(h1, h2)
  {
    var f1, f2 := FixedOrder(h1), FixedOrder(h2);
    if f1 == f2 {
      assert f1[0].1 == f2[0].1 && f1[1].1 == f2[1].1 && f1[2].1 == f2[2].1;
      assert f1[3].1 == f2[3].1 && f1[4].1 == f2[4].1;
      forall n | n in StableNames
        ensures StableValue(h1, n) == StableValue(h2, n)
      {
        StableNameCases(n);
      }
    }
    if SameStableValues(h1, h2) {
      StableNamesListed(h1, h2);
    }
  }

  lemma StableNameCases(n: string)
    requires n in StableNames
    ensures n == "From" || n == "To" || n == "Cc" || n == "Subject" || n == "Date"
  {
  }

  lemma StableNamesListed(h1: Headers, h2: Headers)
    requires SameStableValues(h1, h2)
    ensures StableValue(h1, "From") == StableValue(h2, "From")
    ensures StableValue(h1, "To") == StableValue(h2, "To")
    ensures StableValue(h1, "Cc") == StableValue(h2, "Cc")
    ensures StableValue(h1, "Subject") == StableValue(h2, "Subject")
    ensures StableValue(h1, "Date") == StableValue(h2, "Date")
  {
    assert StableNames[0] == "From" && StableNames[1] == "To" && StableNames[2] == "Cc";
    assert StableNames[3] == "Subject" && StableNames[4] == "Date";
  }

  /** A stable field that is missing altogether canonicalises to the empty string. */
  lemma MissingFieldIsEmpty(h: Headers, n: string)
    requires n in StableNames && !Has(h, n)
    ensures (n, "") in CanonicalPairs(h)
  {
    MissingFieldInFixedOrder(h, n);
    CanonicalOrder(h);
  }

  lemma MissingFieldInFixedOrder(h: Headers, n: string)
    requires n in StableNames && !Has(h, n)
    ensures (n, "") in FixedOrder(h)
  {
    var f := FixedOrder(h);
    assert StableValue(h, n) == "";
    if n == "Cc" {
      assert f[0] == (n, "");
    } else if n == "Date" {
      assert f[1] == (n, "");
    } else if n == "From" {
      assert f[2] == (n, "");
    } else if n == "Subject" {
      assert f[3] == (n, "");
    } else {
      assert n == "To";
      assert f[4] == (n, "");
    }
  }

  /** Fields whose names are not stable do not change the shape, wherever they sit. */
  lemma ShapeIgnoresOtherHeaders(a: Headers, extra: Headers, b: Headers)
    requires forall i :: 0 <= i < |extra| ==> extra[i].name !in StableNames
    ensures CalculateShape(a + extra + b) == CalculateShape(a + b)
  {
    forall n | n in StableNames
      ensures StableValue(a + extra + b, n) == StableValue(a + b, n)
    {
      GetAllSkips(a, extra, b, n);
    }
    ShapeDependsOnlyOnStableValues(a + extra + b, a + b);
  }

  lemma GetAllSkips(a: Headers, extra: Headers, b: Headers, n: string)
    requires !Has(extra, n)
    ensures GetAll(a + extra + b, n) == GetAll(a + b, n)
  {
    GetAllAppend(a, extra, n);
    GetAllAppend(a + extra, b, n);
    GetAllAppend(a, b, n);
  }

  /** Swapping two neighbouring fields with different names does not change the shape. */
  lemma ShapeIgnoresOrderOfDistinctNames(a: Headers, x: Header, y: Header, b: Headers)
    requires x.name != y.name
    ensures CalculateShape(a + [x, y] + b) == CalculateShape(a + [y, x] + b)
  {
    forall n | n in StableNames
      ensures StableValue(a + [x, y] + b, n) == StableValue(a + [y, x] + b, n)
    {
      GetAllAppend(a, [x, y], n);
      GetAllAppend(a + [x, y], b, n);
      GetAllAppend(a, [y, x], n);
      GetAllAppend(a + [y, x], b, n);
      GetAllAppend([x], [y], n);
      GetAllAppend([y], [x], n);
      assert [x] + [y] == [x, y] && [y] + [x] == [y, x];
    }
    ShapeDependsOnlyOnStableValues(a + [x, y] + b, a + [y, x] + b);
  }
}
