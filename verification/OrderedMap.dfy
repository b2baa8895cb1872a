/**
 The insertion-ordered `Map` of JavaScript with string keys, as the list of its items: putting a new key
 appends it, putting a present key keeps its place, deleting closes the gap.
 */
module OrderedMap {
  import opened Common

  datatype Item<+V> = Item(key: string, value: V)

  ghost predicate Distinct<V>(m: seq<Item<V>>) {
    forall i, j | 0 <= i < j < |m| :: m[i].key != m[j].key
  }

  function Lookup<V>(m: seq<Item<V>>, key: string): Option<V> {
    if m == [] then None
    else if m[0].key == key then Some(m[0].value)
    else Lookup(m[1..], key)
  }

  function Put<V>(m: seq<Item<V>>, key: string, v: V): seq<Item<V>> {
    if m == [] then [Item(key, v)]
    else if m[0].key == key then [Item(key, v)] + m[1..]
    else [m[0]] + Put(m[1..], key, v)
  }

  /** The items satisfying p, in their old order. */
  function Filter<V>(m: seq<Item<V>>, p: Item<V> -> bool): seq<Item<V>> {
    if m == [] then [] else (if p(m[0]) then [m[0]] else []) + Filter(m[1..], p)
  }

  function Delete<V>(m: seq<Item<V>>, key: string): seq<Item<V>> {
    Filter(m, (it: Item<V>) => it.key != key)
  }

  lemma {:induction false} LookupSome<V>(m: seq<Item<V>>, key: string)
    ensures Lookup(m, key).Some? <==> exists i :: 0 <= i < |m| && m[i].key == key
    ensures Lookup(m, key).Some? ==> Item(key, Lookup(m, key).value) in m
  {
    if m != [] && m[0].key != key {
      LookupSome(m[1..], key);
      forall i | 0 <= i < |m| && m[i].key == key ensures m[1..][i - 1].key == key {
      }
    }
  }

  lemma {:induction false} LookupItem<V>(m: seq<Item<V>>, i: nat)
    requires Distinct(m) && i < |m|
    ensures Lookup(m, m[i].key) == Some(m[i].value)
  {
    if i > 0 {
      assert m[1..][i - 1] == m[i];
      LookupItem(m[1..], i - 1);
    }
  }

  lemma {:induction false} LookupPut<V>(m: seq<Item<V>>, key: string, v: V, k: string)
    ensures Lookup(Put(m, key, v), k) == if k == key then Some(v) else Lookup(m, k)
  {
    if m != [] && m[0].key != key {
      LookupPut(m[1..], key, v, k);
      assert Put(m, key, v)[1..] == Put(m[1..], key, v);
    } else if m != [] {
      assert Put(m, key, v)[1..] == m[1..];
    } else {
      assert Put(m, key, v)[1..] == [];
    }
  }

  /** Putting a present key keeps every key in place; a new key is appended. */
  lemma {:induction false} PutShape<V>(m: seq<Item<V>>, key: string, v: V)
    ensures Lookup(m, key).None? ==> Put(m, key, v) == m + [Item(key, v)]
    ensures Lookup(m, key).Some? ==>
              |Put(m, key, v)| == |m| && forall i | 0 <= i < |m| :: Put(m, key, v)[i].key == m[i].key
  {
    if m != [] && m[0].key != key {
      PutShape(m[1..], key, v);
      assert m == [m[0]] + m[1..];
    }
  }

  lemma PutDistinct<V>(m: seq<Item<V>>, key: string, v: V)
    requires Distinct(m)
    ensures Distinct(Put(m, key, v))
    ensures |Put(m, key, v)| == |m| + (if Lookup(m, key).Some? then 0 else 1)
  {
    PutShape(m, key, v);
    LookupSome(m, key);
  }

  lemma {:induction false} FilterMember<V>(m: seq<Item<V>>, p: Item<V> -> bool, it: Item<V>)
    ensures it in Filter(m, p) <==> it in m && p(it)
    ensures |Filter(m, p)| <= |m|
  {
    if m != [] {
      FilterMember(m[1..], p, it);
    }
  }

  lemma {:induction false} FilterDistinct<V>(m: seq<Item<V>>, p: Item<V> -> bool)
    requires Distinct(m)
    ensures Distinct(Filter(m, p)) && |Filter(m, p)| <= |m|
  {
    if m != [] {
      FilterDistinct(m[1..], p);
      forall j | 0 <= j < |Filter(m[1..], p)| ensures Filter(m[1..], p)[j].key != m[0].key {
        FilterMember(m[1..], p, Filter(m[1..], p)[j]);
      }
    }
  }

  lemma {:induction false} FilterConcat<V>(a: seq<Item<V>>, b: seq<Item<V>>, p: Item<V> -> bool)
    ensures Filter(a + b, p) == Filter(a, p) + Filter(b, p)
  {
    if a == [] {
      assert a + b == b;
    } else {
      FilterConcat(a[1..], b, p);
      var h := if p(a[0]) then [a[0]] else [];
      var x, y := Filter(a[1..], p), Filter(b, p);
      assert Filter(a + b, p) == h + (x + y) by {
        assert (a + b)[0] == a[0] && (a + b)[1..] == a[1..] + b;
      }
      assert h + (x + y) == (h + x) + y;
    }
  }

  lemma {:induction false} FilterAll<V>(m: seq<Item<V>>, p: Item<V> -> bool)
    requires forall i | 0 <= i < |m| :: p(m[i])
    ensures Filter(m, p) == m
  {
    if m != [] {
      FilterAll(m[1..], p);
    }
  }

  lemma {:induction false} LookupFilter<V>(m: seq<Item<V>>, p: Item<V> -> bool, key: string)
    requires Distinct(m)
    ensures var before := Lookup(m, key);
            Lookup(Filter(m, p), key) == if before.Some? && p(Item(key, before.value)) then before else None
  {
    if m != [] {
      LookupFilter(m[1..], p, key);
      var rest := Filter(m[1..], p);
      if p(m[0]) {
        assert Filter(m, p)[1..] == rest;
      } else {
        assert Filter(m, p) == rest;
        if m[0].key == key {
          LookupSome(m[1..], key);
        }
      }
    }
  }

  /** Deleting the key of the item at position |a|. */
  lemma DeleteAt<V>(a: seq<Item<V>>, it: Item<V>, b: seq<Item<V>>)
    requires Distinct(a + [it] + b)
    ensures Delete(a + [it] + b, it.key) == a + b
    ensures Distinct(a + b)
  {
    var p := (x: Item<V>) => x.key != it.key;
    OtherKeys(a, it, b);
    FilterConcat(a + [it], b, p);
    FilterConcat(a, [it], p);
    FilterAll(a, p);
    FilterAll(b, p);
    assert Filter([it], p) == [];
    FilterDistinct(a + [it] + b, p);
    assert a + [] + b == a + b;
  }

  lemma DeleteHead<V>(m: seq<Item<V>>)
    requires Distinct(m) && m != []
    ensures Delete(m, m[0].key) == m[1..] && Distinct(m[1..])
  {
    assert m == [] + [m[0]] + m[1..];
    DeleteAt([], m[0], m[1..]);
    assert [] + m[1..] == m[1..];
  }

  lemma OtherKeys<V>(a: seq<Item<V>>, it: Item<V>, b: seq<Item<V>>)
    requires Distinct(a + [it] + b)
    ensures forall i | 0 <= i < |a| :: a[i].key != it.key
    ensures forall i | 0 <= i < |b| :: b[i].key != it.key
  {
    var m := a + [it] + b;
    assert m[|a|] == it;
    forall i | 0 <= i < |a| ensures a[i].key != it.key {
      assert m[i] == a[i];
    }
    forall i | 0 <= i < |b| ensures b[i].key != it.key {
      assert m[|a| + 1 + i] == b[i];
    }
  }

  /** Dropping items from the front loses a key or leaves its value. */
  lemma LookupDrop<V>(m: seq<Item<V>>, n: nat, key: string)
    requires Distinct(m) && n <= |m|
    ensures Distinct(m[n..])
    ensures Lookup(m[n..], key).Some? ==> Lookup(m[n..], key) == Lookup(m, key)
  {
    var d := m[n..];
    assert Distinct(d);
    LookupSome(d, key);
    if Lookup(d, key).Some? {
      var i :| 0 <= i < |d| && d[i].key == key;
      LookupItem(d, i);
      LookupItem(m, n + i);
    }
  }

  /** A deleting loop over the keys, after visiting i items: the ones visited are filtered, the rest untouched. */
  ghost function HalfFiltered<V>(m: seq<Item<V>>, p: Item<V> -> bool, i: nat): seq<Item<V>>
    requires i <= |m|
  {
    Filter(m[..i], p) + m[i..]
  }

  lemma FilterVisit<V>(m: seq<Item<V>>, p: Item<V> -> bool, i: nat)
    requires i < |m| && Distinct(HalfFiltered(m, p, i))
    ensures var here := HalfFiltered(m, p, i);
            HalfFiltered(m, p, i + 1) == if p(m[i]) then here else Delete(here, m[i].key)
    ensures Distinct(HalfFiltered(m, p, i + 1))
  {
    var kept, e, rest := Filter(m[..i], p), m[i], m[i + 1..];
    assert HalfFiltered(m, p, i) == kept + [e] + rest by {
      assert m[i..] == [e] + rest;
    }
    assert Filter(m[..i + 1], p) == kept + (if p(e) then [e] else []) by {
      assert m[..i + 1] == m[..i] + [e];
      FilterConcat(m[..i], [e], p);
      assert Filter([e], p) == if p(e) then [e] else [];
    }
    if !p(e) {
      DeleteAt(kept, e, rest);
      assert kept + [] == kept;
    }
  }

  lemma FilterVisited<V>(m: seq<Item<V>>, p: Item<V> -> bool)
    ensures HalfFiltered(m, p, 0) == m
    ensures HalfFiltered(m, p, |m|) == Filter(m, p)
    ensures |Filter(m, p)| <= |m|
    ensures Distinct(m) ==> Distinct(Filter(m, p))
  {
    assert m[..|m|] == m;
    assert Filter(m, p) + [] == Filter(m, p);
    if m != [] {
      FilterMember(m, p, m[0]);
    }
    if Distinct(m) {
      FilterDistinct(m, p);
    }
  }
}
