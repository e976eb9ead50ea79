/** A plain JavaScript object with string keys, as the client code builds and
    reads them: its own properties in `Object.keys` order (insertion order),
    read by `o[k]`, written by `o[k] = v` (an existing key keeps its place, a
    new key goes last) and removed by `delete o[k]`. */
module JsObject {
  import opened Common

  type Obj<V> = seq<(string, V)>

  /** `Object.keys(o)`. */
  function Keys<V>(o: Obj<V>): (r: seq<string>)
    ensures |r| == |o|
    ensures forall i :: 0 <= i < |o| ==> r[i] == o[i].0
  {
    if o == [] then [] else [o[0].0] + Keys(o[1..])
  }

  /** `Object.values(o)`. */
  function Values<V>(o: Obj<V>): (r: seq<V>)
    ensures |r| == |o|
    ensures forall i :: 0 <= i < |o| ==> r[i] == o[i].1
  {
    if o == [] then [] else [o[0].1] + Values(o[1..])
  }

  /** Every key is present once, as in any JavaScript object. */
  predicate DistinctKeys<V>(o: Obj<V>) {
    o == [] || (o[0].0 !in Keys(o[1..]) && DistinctKeys(o[1..]))
  }

  /** `o[k]`; `None` is `undefined`. */
  function Get<V>(o: Obj<V>, k: string): (r: Option<V>)
    ensures r.Some? <==> k in Keys(o)
  {
    if o == [] then None
    else if o[0].0 == k then Some(o[0].1)
    else Get(o[1..], k)
  }

  /** What `o[k]` reads is one of the entries. */
  lemma {:induction false} GetFacts<V>(o: Obj<V>, k: string)
    requires Get(o, k).Some?
    ensures (k, Get(o, k).value) in o
  {
    if o[0].0 != k {
      GetFacts(o[1..], k);
      assert (k, Get(o, k).value) in o[1..];
    }
  }

  /** In an object with distinct keys, `o[k]` is the value stored with `k`. */
  lemma {:induction false} GetAt<V>(o: Obj<V>, i: nat)
    requires DistinctKeys(o) && i < |o|
    ensures Get(o, o[i].0) == Some(o[i].1)
  {
    if i > 0 {
      assert o[i] == o[1..][i - 1];
      assert o[i].0 in Keys(o[1..]) by {
        assert Keys(o[1..])[i - 1] == o[i].0;
      }
      GetAt(o[1..], i - 1);
    }
  }

  /** `o[k] = v`: an existing key keeps its place and gets the new value, a
      new key goes last. */
  function Set<V>(o: Obj<V>, k: string, v: V): (r: Obj<V>)
    ensures Keys(r) == if k in Keys(o) then Keys(o) else Keys(o) + [k]
    ensures Get(r, k) == Some(v)
    ensures forall k' {:trigger Get(r, k')} :: k' != k ==> Get(r, k') == Get(o, k')
    ensures DistinctKeys(o) ==> DistinctKeys(r)
  {
    if o == [] then [(k, v)]
    else if o[0].0 == k then [(k, v)] + o[1..]
    else [o[0]] + Set(o[1..], k, v)
  }

  /** `delete o[k]`. */
  function Delete<V>(o: Obj<V>, k: string): (r: Obj<V>)
    ensures Get(r, k) == None
    ensures forall k' {:trigger Get(r, k')} :: k' != k ==> Get(r, k') == Get(o, k')
    ensures DistinctKeys(o) ==> DistinctKeys(r)
    ensures forall k' :: k' in Keys(r) <==> k' in Keys(o) && k' != k
    ensures |r| <= |o|
  {
    if o == [] then []
    else if o[0].0 == k then Delete(o[1..], k)
    else [o[0]] + Delete(o[1..], k)
  }

  /** The value stored with a key is among the values. */
  lemma ValueIn<V>(o: Obj<V>, k: string, v: V)
    requires Get(o, k) == Some(v)
    ensures v in multiset(Values(o))
  {
    GetFacts(o, k);
    var i :| 0 <= i < |o| && o[i] == (k, v);
    assert Values(o)[i] == v;
  }

  lemma ConsMinus<V>(a: V, m: multiset<V>, v: V)
    requires v in m
    ensures multiset{a} + (m - multiset{v}) == (multiset{a} + m) - multiset{v}
  {
  }

  lemma ConsReplace<V>(a: V, m: multiset<V>, x: V, v: V)
    requires x in m
    ensures multiset{a} + (m - multiset{x} + multiset{v}) == (multiset{a} + m) - multiset{x} + multiset{v}
  {
  }

  lemma HeadReplace<V>(a: V, m: multiset<V>, v: V)
    ensures multiset{v} + m == (multiset{a} + m) - multiset{a} + multiset{v}
  {
  }

  /** Writing an existing key replaces its one value among the values. */
  lemma {:induction false} SetValuesExisting<V>(o: Obj<V>, k: string, v: V, old_v: V)
    requires Get(o, k) == Some(old_v)
    ensures multiset(Values(Set(o, k, v))) == multiset(Values(o)) - multiset{old_v} + multiset{v}
  {
    var rest := o[1..];
    var m := multiset(Values(rest));
    assert multiset(Values(o)) == multiset{o[0].1} + m by {
      assert Values(o) == [o[0].1] + Values(rest);
    }
    if o[0].0 == k {
      assert multiset(Values(Set(o, k, v))) == multiset{v} + m by {
        assert Set(o, k, v) == [(k, v)] + rest;
        assert Values(Set(o, k, v)) == [v] + Values(rest);
      }
      HeadReplace(o[0].1, m, v);
    } else {
      var m' := multiset(Values(Set(rest, k, v)));
      assert m' == m - multiset{old_v} + multiset{v} by {
        SetValuesExisting(rest, k, v, old_v);
      }
      assert old_v in m by {
        ValueIn(rest, k, old_v);
      }
      assert multiset(Values(Set(o, k, v))) == multiset{o[0].1} + m' by {
        assert Set(o, k, v) == [o[0]] + Set(rest, k, v);
        assert Values(Set(o, k, v)) == [o[0].1] + Values(Set(rest, k, v));
      }
      ConsReplace(o[0].1, m, old_v, v);
    }
  }

  /** Writing a new key adds its value last. */
  lemma {:induction false} SetValuesNew<V>(o: Obj<V>, k: string, v: V)
    requires Get(o, k) == None
    ensures Values(Set(o, k, v)) == Values(o) + [v]
  {
    if o != [] {
      var rest := o[1..];
      assert Values(Set(rest, k, v)) == Values(rest) + [v] by {
        SetValuesNew(rest, k, v);
      }
      assert Values(Set(o, k, v)) == [o[0].1] + Values(Set(rest, k, v)) by {
        assert Set(o, k, v) == [o[0]] + Set(rest, k, v);
      }
      assert Values(o) == [o[0].1] + Values(rest);
    }
  }

  /** Deleting a key of a well-formed object removes its one value. */
  lemma {:induction false} DeleteValues<V>(o: Obj<V>, k: string, old_v: V)
    requires DistinctKeys(o) && Get(o, k) == Some(old_v)
    ensures multiset(Values(Delete(o, k))) == multiset(Values(o)) - multiset{old_v}
  {
    var rest := o[1..];
    assert Values(o) == [o[0].1] + Values(rest);
    assert multiset(Values(o)) == multiset{o[0].1} + multiset(Values(rest));
    if o[0].0 == k {
      DeleteAbsent(rest, k);
      assert Delete(o, k) == rest;
    } else {
      var m := multiset(Values(rest));
      DeleteValues(rest, k, old_v);
      ValueIn(rest, k, old_v);
      assert Delete(o, k) == [o[0]] + Delete(rest, k);
      assert Values(Delete(o, k)) == [o[0].1] + Values(Delete(rest, k));
      assert multiset(Values(Delete(o, k))) == multiset{o[0].1} + (m - multiset{old_v});
      ConsMinus(o[0].1, m, old_v);
    }
  }

  lemma {:induction false} DeleteAbsent<V>(o: Obj<V>, k: string)
    requires k !in Keys(o)
    ensures Delete(o, k) == o
  {
    if o != [] {
      assert Keys(o) == [o[0].0] + Keys(o[1..]);
      DeleteAbsent(o[1..], k);
    }
  }

  /** The first key, in key order, whose value is `v`:
      `Object.keys(o).find(key => o[key] === v)`. */
  function KeyOf<V(==)>(o: Obj<V>, v: V): (r: Option<string>)
    ensures r.Some? ==> (r.value, v) in o
    ensures r.None? <==> v !in Values(o)
  {
    if o == [] then None
    else if o[0].1 == v then Some(o[0].0)
    else KeyOf(o[1..], v)
  }

  /** In a well-formed object, the key found for `v` maps to `v`. */
  lemma {:induction false} KeyOfGet<V>(o: Obj<V>, v: V)
    requires DistinctKeys(o) && KeyOf(o, v).Some?
    ensures Get(o, KeyOf(o, v).value) == Some(v)
  {
    var k := KeyOf(o, v).value;
    var i :| 0 <= i < |o| && o[i] == (k, v);
    GetAt(o, i);
  }
}
