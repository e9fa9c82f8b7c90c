/** `URLSearchParams`: an ordered list of name/value pairs. Percent-encoding
    is not modelled: a value written with `set`/`append` is read back by `get`
    as the same text. */
module Url {
  import opened Wrappers

  type Query = seq<(string, string)>

  /** `params.get(name)`: the value of the first pair with that name. */
  function Get(q: Query, name: string): (r: Option<string>)
    ensures r.Some? ==> exists k :: 0 <= k < |q| && q[k] == (name, r.value)
    ensures r.None? <==> forall k :: 0 <= k < |q| ==> q[k].0 != name
  {
    if q == [] then None
    else if q[0].0 == name then Some(q[0].1)
    else
      var r := Get(q[1..], name);
      assert forall k :: 1 <= k < |q| ==> q[k] == q[1..][k - 1];
      r
  }

  /** `params.append(name, value)`. */
  function Append(q: Query, name: string, value: string): (r: Query)
    ensures |r| == |q| + 1 && r[..|q|] == q && r[|q|] == (name, value)
  {
    q + [(name, value)]
  }

  /** `params.set(name, value)`: the first pair with that name takes the new
      value and later pairs with that name are removed; with no such pair,
      the new pair is appended. */
  function Set(q: Query, name: string, value: string): (r: Query)
    ensures Get(r, name) == Some(value)
    ensures forall other :: other != name ==> Get(r, other) == Get(q, other)
  {
    if q == [] then [(name, value)]
    else if q[0].0 == name then [(name, value)] + Remove(q[1..], name)
    else [q[0]] + Set(q[1..], name, value)
  }

  /** `set` leaves every other name as it was. */
  lemma SetOther(q: Query, name: string, value: string, other: string)
    requires other != name
    ensures Get(Set(q, name, value), other) == Get(q, other)
  {
  }

  /** `get` on two lists of pairs one after the other: the first list's pair
      wins whenever it has one. */
  lemma {:induction false} GetConcat(a: Query, b: Query, name: string)
    ensures Get(a + b, name) == if Get(a, name).Some? then Get(a, name) else Get(b, name)
    decreases |a|
  {
    if a != [] {
      assert (a + b)[0] == a[0];
      assert (a + b)[1..] == a[1..] + b;
      GetConcat(a[1..], b, name);
    } else {
      assert a + b == b;
    }
  }

  /** `set` of a name not yet present appends the pair. */
  lemma {:induction false} SetAppendsNew(q: Query, name: string, value: string)
    requires forall k :: 0 <= k < |q| ==> q[k].0 != name
    ensures Set(q, name, value) == q + [(name, value)]
  {
    if q != [] {
      assert q[0].0 != name;
      assert Set(q, name, value) == [q[0]] + Set(q[1..], name, value);
      forall k | 0 <= k < |q[1..]| ensures q[1..][k].0 != name {
        assert q[1..][k] == q[k + 1];
      }
      SetAppendsNew(q[1..], name, value);
      assert q == [q[0]] + q[1..];
    }
  }

  /** All pairs except those with the given name. */
  function Remove(q: Query, name: string): (r: Query)
    ensures Get(r, name) == None
    ensures forall other :: other != name ==> Get(r, other) == Get(q, other)
    ensures |r| <= |q|
  {
    if q == [] then []
    else if q[0].0 == name then Remove(q[1..], name)
    else [q[0]] + Remove(q[1..], name)
  }
}
