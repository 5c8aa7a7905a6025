/** `std::multimap<QString, V>` as a sequence of entries kept in key order.
    Since C++11 `insert` places a new entry after every entry with an
    equal key, so entries under one key stay in insertion order. */
module Multimap {
  import Seqs

  /** `QString::operator<`: lexicographic order of the characters. */
  predicate Below(a: string, b: string)
    decreases |a|
  {
    if a == [] then b != []
    else if b == [] then false
    else if a[0] != b[0] then a[0] < b[0]
    else Below(a[1..], b[1..])
  }

  lemma {:induction false} BelowIrreflexive(a: string)
    ensures !Below(a, a)
    decreases |a|
  {
    if a != [] {
      BelowIrreflexive(a[1..]);
    }
  }

  lemma {:induction false} BelowTransitive(a: string, b: string, c: string)
    requires Below(a, b) && Below(b, c)
    ensures Below(a, c)
    decreases |a|
  {
    if a != [] && b != [] && c != [] && a[0] == b[0] && b[0] == c[0] {
      BelowTransitive(a[1..], b[1..], c[1..]);
    }
  }

  /** Any two different keys are ordered one way or the other. */
  lemma {:induction false} BelowTotal(a: string, b: string)
    requires a != b
    ensures Below(a, b) || Below(b, a)
    decreases |a|
  {
    if a != [] && b != [] && a[0] == b[0] {
      assert a == [a[0]] + a[1..] && b == [b[0]] + b[1..];
      BelowTotal(a[1..], b[1..]);
    }
  }

  datatype Entry<V> = Entry(key: string, value: V)

  /** The multimap's ordering invariant: keys never decrease. */
  predicate Sorted<V>(m: seq<Entry<V>>) {
    forall i, j :: 0 <= i < j < |m| ==> !Below(m[j].key, m[i].key)
  }

  /** `upper_bound(key)`: the first entry whose key is greater than `key`. */
  function UpperBound<V>(m: seq<Entry<V>>, key: string): (p: nat)
    ensures p <= |m|
    ensures forall i :: 0 <= i < p ==> !Below(key, m[i].key)
    ensures p < |m| ==> Below(key, m[p].key)
  {
    if m == [] || Below(key, m[0].key) then 0 else 1 + UpperBound(m[1..], key)
  }

  /** `insert(std::make_pair(key, value))`. */
  function Insert<V>(m: seq<Entry<V>>, key: string, value: V): (r: seq<Entry<V>>)
    ensures |r| == |m| + 1
    ensures Sorted(m) ==> Sorted(r)
  {
    var p := UpperBound(m, key);
    InsertSorted(m, key, value);
    m[..p] + [Entry(key, value)] + m[p..]
  }

  /** The values stored under `key`, in sequence order: on a sorted
      multimap, the range from `lower_bound` to `upper_bound`. */
  function Lookup<V(==)>(m: seq<Entry<V>>, key: string): (r: seq<V>)
    ensures |r| <= |m|
  {
    if m == [] then []
    else
      assert forall i :: 1 <= i < |m| ==> m[i] == m[1..][i - 1];
      (if m[0].key == key then [m[0].value] else []) + Lookup(m[1..], key)
  }

  /** A value is found under the key exactly when it is stored under it. */
  lemma {:induction false} LookupMembers<V>(m: seq<Entry<V>>, key: string)
    ensures forall v :: v in Lookup(m, key) <==> Entry(key, v) in m
    decreases |m|
  {
    if m != [] {
      LookupMembers(m[1..], key);
      assert m == [m[0]] + m[1..];
    }
  }

  lemma {:induction false} LookupAppend<V>(a: seq<Entry<V>>, b: seq<Entry<V>>, key: string)
    ensures Lookup(a + b, key) == Lookup(a, key) + Lookup(b, key)
    decreases |a|
  {
    if a == [] {
      assert a + b == b;
    } else {
      var c := a + b;
      assert c[0] == a[0] && c[1..] == a[1..] + b;
      var head := if a[0].key == key then [a[0].value] else [];
      assert Lookup(c, key) == head + Lookup(a[1..] + b, key);
      assert Lookup(a, key) == head + Lookup(a[1..], key);
      LookupAppend(a[1..], b, key);
    }
  }

  /** Entries whose key differs contribute nothing to a lookup. */
  lemma {:induction false} LookupNone<V>(m: seq<Entry<V>>, key: string)
    requires forall i :: 0 <= i < |m| ==> m[i].key != key
    ensures Lookup(m, key) == []
    decreases |m|
  {
    if m != [] {
      LookupNone(m[1..], key);
    }
  }

  /** Insertion keeps the keys in order: the new entry goes after every
      key not above its own and before every key above it. */
  lemma InsertSorted<V>(m: seq<Entry<V>>, key: string, value: V)
    ensures var p := UpperBound(m, key);
      Sorted(m) ==> Sorted(m[..p] + [Entry(key, value)] + m[p..])
  {
    if !Sorted(m) {
      return;
    }
    var p := UpperBound(m, key);
    var r := m[..p] + [Entry(key, value)] + m[p..];
    forall i, j | 0 <= i < j < |r|
      ensures !Below(r[j].key, r[i].key)
    {
      if i < p && j == p {
      } else if i == p && j > p {
        assert r[j] == m[j - 1];
        if Below(m[j - 1].key, key) {
          assert j - 1 == p || !Below(m[j - 1].key, m[p].key);
          if j - 1 == p {
            BelowTransitive(key, m[p].key, key);
            BelowIrreflexive(key);
          } else {
            BelowTransitive(m[j - 1].key, key, m[p].key);
          }
        }
      } else if i < p && j > p {
        assert r[i] == m[i] && r[j] == m[j - 1];
      } else if j < p {
        assert r[i] == m[i] && r[j] == m[j];
      } else {
        assert r[i] == m[i - 1] && r[j] == m[j - 1];
      }
    }
  }

  /** No entry from the upper bound on carries the key. */
  lemma AfterUpperBound<V>(m: seq<Entry<V>>, key: string)
    requires Sorted(m)
    ensures forall i :: UpperBound(m, key) <= i < |m| ==> m[i].key != key
  {
    var p := UpperBound(m, key);
    forall i | p <= i < |m|
      ensures m[i].key != key
    {
      if i == p {
        BelowIrreflexive(key);
      }
    }
  }

  /** A new value is found last under its key. */
  lemma InsertLookup<V>(m: seq<Entry<V>>, key: string, value: V)
    requires Sorted(m)
    ensures Lookup(Insert(m, key, value), key) == Lookup(m, key) + [value]
  {
    var p := UpperBound(m, key);
    var e := Entry(key, value);
    AfterUpperBound(m, key);
    assert forall i :: 0 <= i < |m[p..]| ==> m[p..][i] == m[p + i];
    LookupNone(m[p..], key);
    Seqs.SplitAt(m, p);
    LookupAppend(m[..p], m[p..], key);
    LookupAppend(m[..p] + [e], m[p..], key);
    LookupAppend(m[..p], [e], key);
  }

  /** Every other key's values are untouched. */
  lemma InsertLookupOther<V>(m: seq<Entry<V>>, key: string, value: V, other: string)
    requires other != key
    ensures Lookup(Insert(m, key, value), other) == Lookup(m, other)
  {
    var p := UpperBound(m, key);
    var e := Entry(key, value);
    Seqs.SplitAt(m, p);
    LookupAppend(m[..p], m[p..], other);
    LookupAppend(m[..p] + [e], m[p..], other);
    LookupAppend(m[..p], [e], other);
  }

  /** Appending an entry whose key is not below the last key is an insert:
      it goes at the end. */
  lemma InsertAtEnd<V>(m: seq<Entry<V>>, e: Entry<V>)
    requires Sorted(m + [e])
    ensures Insert(m, e.key, e.value) == m + [e]
  {
    forall i | 0 <= i < |m|
      ensures !Below(e.key, m[i].key)
    {
      assert (m + [e])[i] == m[i] && (m + [e])[|m|] == e;
    }
    assert UpperBound(m, e.key) == |m|;
    assert m[..|m|] == m && m[|m|..] == [];
  }

  /** After insertion the entries are the old ones and the new one. */
  lemma InsertMembers<V>(m: seq<Entry<V>>, key: string, value: V, e: Entry<V>)
    ensures e in Insert(m, key, value) <==> e in m || e == Entry(key, value)
  {
    var p := UpperBound(m, key);
    assert m == m[..p] + m[p..];
  }

  /** Insertion adds exactly the one entry. */
  lemma InsertEntries<V>(m: seq<Entry<V>>, key: string, value: V)
    ensures multiset(Insert(m, key, value)) == multiset(m) + multiset{Entry(key, value)}
  {
    var p := UpperBound(m, key);
    assert m == m[..p] + m[p..];
  }
}
