/**
 * The query-string parameters of a URL, as the bookmarks view manipulates them
 * through `URLSearchParams`: an ordered list of name/value pairs in which a name
 * may repeat. `delete(name)` drops every pair with that name; `set(name, value)`
 * overwrites the value of the first pair with that name and drops the later ones,
 * or appends a new pair when there is none; `toString()` joins `name=value` pairs
 * with `&`.
 */
module SearchParams {
  import opened Wrappers

  datatype Param = Param(name: string, value: string)

  predicate HasName(ps: seq<Param>, name: string) {
    exists i :: 0 <= i < |ps| && ps[i].name == name
  }

  /** `get(name)`: the value of the first pair with that name, if any. */
  function Get(ps: seq<Param>, name: string): (r: Option<string>)
    ensures r.None? <==> !HasName(ps, name)
    ensures r.Some? ==> exists k :: FirstIndex(ps, name, k) && ps[k].value == r.value
  {
    if ps == [] then None
    else if ps[0].name == name then (assert FirstIndex(ps, name, 0); Some(ps[0].value))
    else
      var r := Get(ps[1..], name);
      assert HasName(ps, name) ==> HasName(ps[1..], name) by {
        if HasName(ps, name) {
          var i :| 0 <= i < |ps| && ps[i].name == name;
          assert ps[1..][i - 1] == ps[i];
        }
      }
      assert r.Some? ==> exists k :: FirstIndex(ps, name, k) && ps[k].value == r.value by {
        if r.Some? {
          var k :| FirstIndex(ps[1..], name, k) && ps[1..][k].value == r.value;
          assert ps[k + 1] == ps[1..][k];
          assert forall i :: 1 <= i < k + 1 ==> ps[i] == ps[1..][i - 1];
          assert FirstIndex(ps, name, k + 1);
        }
      }
      r
  }

  /** The number of pairs with the given name. */
  function CountName(ps: seq<Param>, name: string): nat {
    if ps == [] then 0 else (if ps[0].name == name then 1 else 0) + CountName(ps[1..], name)
  }

  /** `delete(name)`: the list without any pair of that name, the rest in order. */
  function Deleted(ps: seq<Param>, name: string): (r: seq<Param>)
    ensures |r| <= |ps|
    ensures forall i :: 0 <= i < |r| ==> r[i].name != name
    ensures forall p :: p in r <==> p in ps && p.name != name
  {
    if ps == [] then []
    else if ps[0].name == name then Deleted(ps[1..], name)
    else [ps[0]] + Deleted(ps[1..], name)
  }

  /** `set(name, value)`: replace the first pair of that name, drop the others, or append. */
  function Assigned(ps: seq<Param>, name: string, value: string): (r: seq<Param>)
    ensures Get(r, name) == Some(value)
    ensures CountName(r, name) == 1
    ensures Deleted(r, name) == Deleted(ps, name)
    ensures !HasName(ps, name) ==> r == ps + [Param(name, value)]
  {
    if HasName(ps, name) then
      SetFirstSpec(ps, name, value, name);
      SetFirst(ps, name, value)
    else
      AppendSpec(ps, Param(name, value), name);
      ps + [Param(name, value)]
  }

  /** The `set` of a list in which the name does occur. */
  function SetFirst(ps: seq<Param>, name: string, value: string): (r: seq<Param>)
    requires HasName(ps, name)
  {
    if ps[0].name == name then [Param(name, value)] + Deleted(ps[1..], name)
    else (assert HasName(ps[1..], name) by { var i :| 0 <= i < |ps| && ps[i].name == name; assert ps[1..][i - 1] == ps[i]; }
          [ps[0]] + SetFirst(ps[1..], name, value))
  }

  /** One pair as it is written in a query string. */
  function PairText(p: Param): (r: string)
    ensures |r| == |p.name| + 1 + |p.value|
    ensures r[|p.name|] == '='
  {
    p.name + "=" + p.value
  }

  /** `toString()`: the pairs joined by `&` (percent-encoding is not modelled). */
  function Serialize(ps: seq<Param>): (r: string)
    ensures r == [] <==> ps == []
  {
    if ps == [] then ""
    else if |ps| == 1 then PairText(ps[0])
    else PairText(ps[0]) + "&" + Serialize(ps[1..])
  }

  /** Deleting a name makes it absent and leaves every other name's first value as it was. */
  lemma {:induction false} GetDeleted(ps: seq<Param>, name: string, other: string)
    ensures Get(Deleted(ps, name), name) == None
    ensures other != name ==> Get(Deleted(ps, name), other) == Get(ps, other)
  {
    if ps != [] {
      GetDeleted(ps[1..], name, other);
    }
  }

  /** Deleting distributes over concatenation: the survivors keep their order. */
  lemma {:induction false} DeletedAppend(a: seq<Param>, b: seq<Param>, name: string)
    ensures Deleted(a + b, name) == Deleted(a, name) + Deleted(b, name)
  {
    if a == [] {
      assert a + b == b;
    } else {
      assert (a + b)[1..] == a[1..] + b;
      DeletedAppend(a[1..], b, name);
    }
  }

  /** Deleting twice is deleting once. */
  lemma {:induction false} DeletedIdempotent(ps: seq<Param>, name: string)
    ensures Deleted(Deleted(ps, name), name) == Deleted(ps, name)
  {
    if ps != [] {
      DeletedIdempotent(ps[1..], name);
    }
  }

  /** A list without the name is left unchanged by deleting it. */
  lemma {:induction false} DeletedAbsent(ps: seq<Param>, name: string)
    requires !HasName(ps, name)
    ensures Deleted(ps, name) == ps
  {
    if ps != [] {
      assert !HasName(ps[1..], name) by {
        forall i | 0 <= i < |ps[1..]| ensures ps[1..][i].name != name {
          assert ps[1..][i] == ps[i + 1];
        }
      }
      DeletedAbsent(ps[1..], name);
    }
  }

  lemma {:induction false} CountDeleted(ps: seq<Param>, name: string)
    ensures CountName(Deleted(ps, name), name) == 0
  {
    if ps != [] {
      CountDeleted(ps[1..], name);
    }
  }

  /** The name's position in a list that contains it: its first index. */
  predicate FirstIndex(ps: seq<Param>, name: string, k: int) {
    0 <= k < |ps| && ps[k].name == name && forall i :: 0 <= i < k ==> ps[i].name != name
  }

  /** `set` overwrites the first pair of the name in place and drops the later ones. */
  lemma {:induction false} AssignedShape(ps: seq<Param>, name: string, value: string, k: int)
    requires FirstIndex(ps, name, k)
    ensures Assigned(ps, name, value) == ps[..k] + [Param(name, value)] + Deleted(ps[k + 1..], name)
  {
    SetFirstShape(ps, name, value, k);
  }

  lemma {:induction false} SetFirstShape(ps: seq<Param>, name: string, value: string, k: int)
    requires FirstIndex(ps, name, k)
    ensures SetFirst(ps, name, value) == ps[..k] + [Param(name, value)] + Deleted(ps[k + 1..], name)
    decreases k
  {
    if k > 0 {
      var tail := ps[1..];
      assert FirstIndex(tail, name, k - 1) by {
        forall i | 0 <= i < k - 1 ensures tail[i].name != name {
          assert tail[i] == ps[i + 1];
        }
      }
      SetFirstShape(tail, name, value, k - 1);
      SetFirstCons(ps, name, value, k);
      assert tail[k - 1 + 1..] == ps[k + 1..];
      ConsShape(ps, k, Param(name, value), Deleted(ps[k + 1..], name), SetFirst(tail, name, value));
    }
  }

  /** Putting the head back in front of a list that starts with the tail's first `k - 1` pairs. */
  lemma ConsShape(ps: seq<Param>, k: int, p: Param, d: seq<Param>, rest: seq<Param>)
    requires 0 < k <= |ps| && rest == ps[1..][..k - 1] + [p] + d
    ensures [ps[0]] + rest == ps[..k] + [p] + d
  {
    assert ps[..k] == [ps[0]] + ps[1..][..k - 1];
  }

  /** Before the first pair of the name, `set` keeps the head and recurses on the tail. */
  lemma SetFirstCons(ps: seq<Param>, name: string, value: string, k: int)
    requires FirstIndex(ps, name, k) && k > 0
    ensures HasName(ps[1..], name)
    ensures SetFirst(ps, name, value) == [ps[0]] + SetFirst(ps[1..], name, value)
  {
    assert ps[1..][k - 1] == ps[k];
  }

  /** After `set(name, value)` every other name reads as before. */
  lemma {:induction false} AssignedSpec(ps: seq<Param>, name: string, value: string, other: string)
    ensures other != name ==> Get(Assigned(ps, name, value), other) == Get(ps, other)
    ensures Deleted(Assigned(ps, name, value), name) == Deleted(ps, name)
  {
    if HasName(ps, name) {
      SetFirstSpec(ps, name, value, other);
    } else {
      AppendSpec(ps, Param(name, value), other);
    }
  }

  lemma {:induction false} SetFirstSpec(ps: seq<Param>, name: string, value: string, other: string)
    requires HasName(ps, name)
    ensures Get(SetFirst(ps, name, value), name) == Some(value)
    ensures CountName(SetFirst(ps, name, value), name) == 1
    ensures other != name ==> Get(SetFirst(ps, name, value), other) == Get(ps, other)
    ensures Deleted(SetFirst(ps, name, value), name) == Deleted(ps, name)
  {
    var r := SetFirst(ps, name, value);
    if ps[0].name == name {
      CountDeleted(ps[1..], name);
      GetDeleted(ps[1..], name, other);
      DeletedIdempotent(ps[1..], name);
      assert r[1..] == Deleted(ps[1..], name);
    } else {
      assert HasName(ps[1..], name) by {
        var i :| 0 <= i < |ps| && ps[i].name == name;
        assert ps[1..][i - 1] == ps[i];
      }
      SetFirstSpec(ps[1..], name, value, other);
      assert r[1..] == SetFirst(ps[1..], name, value);
    }
  }

  /** Appending a pair whose name is absent, as `set` does for a new name. */
  lemma {:induction false} AppendSpec(ps: seq<Param>, p: Param, other: string)
    requires !HasName(ps, p.name)
    ensures Get(ps + [p], p.name) == Some(p.value)
    ensures CountName(ps + [p], p.name) == 1
    ensures other != p.name ==> Get(ps + [p], other) == Get(ps, other)
    ensures Deleted(ps + [p], p.name) == Deleted(ps, p.name)
  {
    if ps == [] {
      assert [p][1..] == [];
    } else {
      assert !HasName(ps[1..], p.name) by {
        forall i | 0 <= i < |ps[1..]| ensures ps[1..][i].name != p.name {
          assert ps[1..][i] == ps[i + 1];
        }
      }
      AppendSpec(ps[1..], p, other);
      var q := ps + [p];
      assert q[0] == ps[0] && q[1..] == ps[1..] + [p];
    }
  }

  /**
   * A `URLSearchParams` object built from a copy of the current parameters
   * (`createSearchParams(searchParams)`) and then changed in place.
   */
  class QueryParams {
    var entries: seq<Param>

    constructor (init: seq<Param>)
      ensures entries == init
    {
      entries := init;
    }

    method Delete(name: string)
      modifies this
      ensures entries == Deleted(old(entries), name)
    {
      entries := Deleted(entries, name);
    }

    method Set(name: string, value: string)
      modifies this
      ensures entries == Assigned(old(entries), name, value)
    {
      entries := Assigned(entries, name, value);
    }

    /** `toString()`: empty exactly when there are no pairs. */
    function ToString(): (r: string)
      reads this
      ensures r == [] <==> entries == []
    {
      Serialize(entries)
    }
  }
}
