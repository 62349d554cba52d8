/**
 The message header container the plugin reads through Haraka's header object:
 an ordered list of (name, value) fields, with `get_all`, `get`, `lines` and
 `remove_header` expressed over that list.
 */
module Headers {
  import opened Optional
  import opened Strings

  datatype Header = Header(name: string, value: string)

  type Headers = seq<Header>

  /** True when some field of `h` carries the given name. */
  predicate Has(h: Headers, name: string)
  {
    exists i :: 0 <= i < |h| && h[i].name == name
  }

  /** `header.get_all(name)`: the values of every field with that name, in order. */
  function GetAll(h: Headers, name: string): (vs: seq<string>)
    ensures |vs| <= |h|
    ensures |vs| == 0 <==> !Has(h, name)
    ensures forall v :: v in vs <==> Header(name, v) in h
    decreases |h|
  {
    if |h| == 0 then []
    else
      var rest := GetAll(h[1..], name);
      assert Has(h[1..], name) ==> Has(h, name) by {
        if Has(h[1..], name) {
          var i :| 0 <= i < |h[1..]| && h[1..][i].name == name;
          assert h[i + 1].name == name;
        }
      }
      if h[0].name == name then [h[0].value] + rest else rest
  }

  /**
   Every field with the name contributes its value, once per occurrence:
   a value occurs in `get_all` exactly as often as its field occurs in `h`.
   */
  lemma {:induction false} GetAllCounts(h: Headers, name: string, v: string)
    ensures multiset(GetAll(h, name))[v] == multiset(h)[Header(name, v)]
    decreases |h|
  {
    if |h| > 0 {
      GetAllCounts(h[1..], name, v);
      assert h == [h[0]] + h[1..];
      assert multiset(h) == multiset{h[0]} + multiset(h[1..]);
    }
  }

  lemma {:induction false} GetAllAppend(a: Headers, b: Headers, name: string)
    ensures GetAll(a + b, name) == GetAll(a, name) + GetAll(b, name)
    decreases |a|
  {
    if |a| > 0 {
      assert (a + b)[1..] == a[1..] + b;
      GetAllAppend(a[1..], b, name);
    } else {
      assert a + b == b;
    }
  }

  lemma GetAllPair(x: Header, y: Header, name: string)
    ensures GetAll([x, y], name) ==
      (if x.name == name then [x.value] else []) + (if y.name == name then [y.value] else [])
  {
    assert [x, y][1..] == [y];
    assert [y][1..] == [];
  }

  /**
   `header.get(name)`: absent (`undefined`) when no field has the name, and
   otherwise every value joined by a line feed.
   */
  function Get(h: Headers, name: string): (r: Option<string>)
    ensures r.None? <==> !Has(h, name)
    ensures |GetAll(h, name)| == 1 ==> r == Some(GetAll(h, name)[0])
  {
    var vs := GetAll(h, name);
    if |vs| == 0 then None else Some(Join(vs, [LF]))
  }

  /** Neither the name nor the value of any field holds a line break. */
  predicate SingleLineFields(h: Headers)
  {
    forall i :: 0 <= i < |h| ==> SingleLine(h[i].name) && SingleLine(h[i].value)
  }

  /** The text line of one field, `name: value`. */
  function Line(f: Header): string
  {
    f.name + ": " + f.value
  }

  /**
   `header.lines()`: one text line per field, in order; each line is the
   field's name, then `: `, then its value.
   */
  function Lines(h: Headers): (ls: seq<string>)
    ensures |ls| == |h|
    ensures forall i :: 0 <= i < |h| ==>
      && |ls[i]| == |h[i].name| + 2 + |h[i].value|
      && ls[i][..|h[i].name|] == h[i].name
      && ls[i][|h[i].name|..|h[i].name| + 2] == ": "
      && ls[i][|h[i].name| + 2..] == h[i].value
  {
    seq(|h|, i requires 0 <= i < |h| => Line(h[i]))
  }

  /** `remove_header(name)`: drop every field with that name and keep the rest in order. */
  function RemoveAll(h: Headers, name: string): (r: Headers)
    ensures GetAll(r, name) == []
    ensures forall other :: other != name ==> GetAll(r, other) == GetAll(h, other)
    ensures forall f :: f in r <==> f in h && f.name != name
    ensures !Has(h, name) ==> r == h
    decreases |h|
  {
    if |h| == 0 then []
    else
      var rest := RemoveAll(h[1..], name);
      if h[0].name == name then
        rest
      else
        assert h == [h[0]] + h[1..];
        [h[0]] + rest
  }
}
