/** The dictionary declared in dictionary.h: the words in a vector
    `words_`, and a multimap `index_` from key to the word's position in
    that vector. Only the header is part of this model, so `store`,
    `lookup`, `search`, `flatten` and `wordCount` follow the header's
    comments and its representation. */
module DictionaryIndex {
  import opened Wrappers
  import Seqs
  import opened Multimap

  type U32 = x: int | 0 <= x < 0x1_0000_0000

  /** `dictionary::word`. */
  datatype Word = Word(
    key: string,
    traditional: string,
    simplified: string,
    pinyin: string,
    description: string,
    meta: U32,
    guid: U32,
    erased: bool)

  /** The two private members `index_` and `words_`. */
  datatype Dictionary = Dictionary(index: seq<Entry<nat>>, words: seq<Word>)

  const Empty: Dictionary := Dictionary([], [])

  /** The representation invariant: the index is in key order, every
      position it holds is a valid index into `words_` under that word's
      own key, and every word is indexed under its key, once per word. */
  predicate Valid(d: Dictionary) {
    && Sorted(d.index)
    && |d.index| == |d.words|
    && (forall e :: e in d.index ==> e.value < |d.words| && d.words[e.value].key == e.key)
    && (forall p :: 0 <= p < |d.words| ==> Entry(d.words[p].key, p) in d.index)
  }

  lemma EmptyValid()
    ensures Valid(Empty)
  {
  }

  // ---------------------------------------------------------------- lookup, flatten, search

  /** `lookup(key)`: the words the index holds under `key`. */
  function Lookup(d: Dictionary, key: string): (r: seq<Word>)
    requires Valid(d)
    ensures forall w :: w in r <==> w in d.words && w.key == key
  {
    IndexedWords(d, key);
    At(d.words, Multimap.Lookup(d.index, key))
  }

  /** The words at the given positions. */
  function At(words: seq<Word>, ps: seq<nat>): (r: seq<Word>)
    requires forall i :: 0 <= i < |ps| ==> ps[i] < |words|
    ensures |r| == |ps|
  {
    seq(|ps|, i requires 0 <= i < |ps| => words[ps[i]])
  }

  /** A word appended to the vector and its position appended to the
      positions is appended to the words found. */
  lemma AtAppend(words: seq<Word>, ps: seq<nat>, w: Word)
    requires forall i :: 0 <= i < |ps| ==> ps[i] < |words|
    ensures At(words + [w], ps + [|words|]) == At(words, ps) + [w]
  {
  }

  /** The positions the index holds under `key` are those of exactly the
      words whose key is `key`. */
  lemma IndexedWords(d: Dictionary, key: string)
    requires Valid(d)
    ensures forall i :: 0 <= i < |Multimap.Lookup(d.index, key)| ==> Multimap.Lookup(d.index, key)[i] < |d.words|
    ensures var ps := Multimap.Lookup(d.index, key);
      forall w :: w in At(d.words, ps) <==> w in d.words && w.key == key
  {
    var ps := Multimap.Lookup(d.index, key);
    LookupMembers(d.index, key);
    assert forall i :: 0 <= i < |ps| ==> Entry(key, ps[i]) in d.index;
    var r := At(d.words, ps);
    forall w | w in d.words && w.key == key
      ensures w in r
    {
      var p :| 0 <= p < |d.words| && d.words[p] == w;
      assert Entry(key, p) in d.index;
      var i :| 0 <= i < |d.index| && d.index[i] == Entry(key, p);
      assert p in ps;
      var k :| 0 <= k < |ps| && ps[k] == p;
      assert r[k] == w;
    }
    forall w | w in r
      ensures w in d.words && w.key == key
    {
      var k :| 0 <= k < |ps| && r[k] == w;
      assert Entry(key, ps[k]) in d.index;
    }
  }

  /** `flatten()`: every word of the dictionary. */
  function Flatten(d: Dictionary): (r: seq<Word>)
    ensures |r| == WordCount(d)
  {
    d.words
  }

  /** Flattening and looking up agree: a word is in the flattened list
      exactly when a lookup of its own key finds it. */
  lemma FlattenIsEveryLookup(d: Dictionary, w: Word)
    requires Valid(d)
    ensures w in Flatten(d) <==> w in Lookup(d, w.key)
  {
  }

  /** `search(str)`: the words whose definition contains `str`, in the
      order of `words_`. */
  function Search(d: Dictionary, str: string): (r: seq<Word>)
    ensures forall w :: w in r <==> w in d.words && Seqs.Occurs(w.description, str)
  {
    Filter(d.words, str)
  }

  function Filter(words: seq<Word>, str: string): (r: seq<Word>)
    ensures forall w :: w in r <==> w in words && Seqs.Occurs(w.description, str)
  {
    if words == [] then []
    else (if Seqs.Occurs(words[0].description, str) then [words[0]] else []) + Filter(words[1..], str)
  }

  /** `wordCount()`: `words_.size()`; in a valid dictionary also the number
      of index entries, one per word. */
  function WordCount(d: Dictionary): (n: nat)
    ensures Valid(d) ==> n == |d.index|
  {
    |d.words|
  }

  // ---------------------------------------------------------------- store

  /** The first position among `ps` that holds a word with the given guid. */
  function FindIn(ps: seq<nat>, words: seq<Word>, guid: U32): (r: Option<nat>)
    ensures r.Some? ==> r.value in ps && r.value < |words| && words[r.value].guid == guid
    ensures r.None? ==> forall p :: p in ps && p < |words| ==> words[p].guid != guid
  {
    if ps == [] then None
    else if ps[0] < |words| && words[ps[0]].guid == guid then Some(ps[0])
    else FindIn(ps[1..], words, guid)
  }

  /** The word identified by `key` and `guid`, searched through the index. */
  function Find(d: Dictionary, key: string, guid: U32): Option<nat>
  {
    FindIn(Multimap.Lookup(d.index, key), d.words, guid)
  }

  /** The new state and what `store` returns. */
  datatype Stored = Stored(dictionary: Dictionary, modified: bool)

  /** `store(word)`: a word whose key and guid are already there replaces
      that word (`true`); any other word is appended and indexed
      (`false`). On a valid dictionary it reports an update exactly when
      such a word was stored. */
  function Store(d: Dictionary, w: Word): (r: Stored)
    ensures Valid(d) ==> (r.modified <==> Holds(d, w))
    ensures r.modified ==> |r.dictionary.words| == |d.words| && r.dictionary.index == d.index
    ensures !r.modified ==> r.dictionary.words == d.words + [w]
  {
    FindReports(d, w);
    match Find(d, w.key, w.guid)
    case Some(p) => Stored(Dictionary(d.index, d.words[p := w]), true)
    case None => Stored(Dictionary(Insert(d.index, w.key, |d.words|), d.words + [w]), false)
  }

  /** A word with the key and guid of `w` is stored. */
  predicate Holds(d: Dictionary, w: Word) {
    exists p | 0 <= p < |d.words| :: d.words[p].key == w.key && d.words[p].guid == w.guid
  }

  /** The search through the index finds a word with the key and guid of
      `w` exactly when one is stored, and what it finds has that key; this
      needs the invariant. */
  lemma FindReports(d: Dictionary, w: Word)
    ensures Valid(d) ==> (Find(d, w.key, w.guid).Some? <==> Holds(d, w))
    ensures Valid(d) && Find(d, w.key, w.guid).Some? ==> d.words[Find(d, w.key, w.guid).value].key == w.key
  {
    if Valid(d) {
      var ps := Multimap.Lookup(d.index, w.key);
      LookupMembers(d.index, w.key);
      if Holds(d, w) {
        var p :| 0 <= p < |d.words| && d.words[p].key == w.key && d.words[p].guid == w.guid;
        assert Entry(w.key, p) in d.index;
        var i :| 0 <= i < |d.index| && d.index[i] == Entry(w.key, p);
        assert p in ps;
      }
      if Find(d, w.key, w.guid).Some? {
        var p := Find(d, w.key, w.guid).value;
        var k :| 0 <= k < |ps| && ps[k] == p;
        assert Entry(w.key, p) in d.index;
      }
    }
  }

  /** An update replaces the one matching word in place: the count stays,
      every other word is untouched. */
  lemma StoreUpdates(d: Dictionary, w: Word)
    requires Valid(d)
    requires Holds(d, w)
    ensures var r := Store(d, w);
      && r.modified
      && WordCount(r.dictionary) == WordCount(d)
      && exists p | 0 <= p < |d.words| ::
           && d.words[p].key == w.key && d.words[p].guid == w.guid
           && r.dictionary.words == d.words[p := w]
  {
    FindReports(d, w);
  }

  /** A new word is appended: the count grows by one and a lookup of its
      key ends with it. */
  lemma StoreInserts(d: Dictionary, w: Word)
    requires Valid(d)
    requires !Holds(d, w)
    ensures var r := Store(d, w);
      && !r.modified
      && WordCount(r.dictionary) == WordCount(d) + 1
      && r.dictionary.words == d.words + [w]
      && Valid(r.dictionary)
      && Lookup(r.dictionary, w.key) == Lookup(d, w.key) + [w]
  {
    StoreValid(d, w);
    var n := |d.words|;
    var r := Store(d, w).dictionary;
    InsertLookup(d.index, w.key, n);
    var ps := Multimap.Lookup(d.index, w.key);
    assert Multimap.Lookup(r.index, w.key) == ps + [n];
    IndexedWords(d, w.key);
    AtAppend(d.words, ps, w);
    assert Lookup(r, w.key) == At(d.words + [w], ps + [n]);
  }

  /** `store` keeps the representation invariant. */
  lemma {:induction false} StoreValid(d: Dictionary, w: Word)
    requires Valid(d)
    ensures Valid(Store(d, w).dictionary)
  {
    match Find(d, w.key, w.guid)
    case Some(p) =>
      FindReports(d, w);
      UpdateValid(d, p, w);
    case None =>
      InsertValid(d, w);
  }

  /** Replacing a word by one with the same key keeps the invariant: the
      index does not change and neither does any key. */
  lemma UpdateValid(d: Dictionary, p: nat, w: Word)
    requires Valid(d)
    requires p < |d.words| && d.words[p].key == w.key
    ensures Valid(Dictionary(d.index, d.words[p := w]))
  {
    var r := Dictionary(d.index, d.words[p := w]);
    assert forall q :: 0 <= q < |r.words| ==> r.words[q].key == d.words[q].key;
  }

  /** Appending a word and indexing it at its position keeps the
      invariant. */
  lemma InsertValid(d: Dictionary, w: Word)
    requires Valid(d)
    ensures Valid(Dictionary(Insert(d.index, w.key, |d.words|), d.words + [w]))
  {
    InsertInRange(d, w);
    InsertCovers(d, w);
  }

  lemma InsertInRange(d: Dictionary, w: Word)
    requires Valid(d)
    ensures var r := Dictionary(Insert(d.index, w.key, |d.words|), d.words + [w]);
      forall e :: e in r.index ==> e.value < |r.words| && r.words[e.value].key == e.key
  {
    var n := |d.words|;
    var r := Dictionary(Insert(d.index, w.key, n), d.words + [w]);
    forall e | e in r.index
      ensures e.value < |r.words| && r.words[e.value].key == e.key
    {
      InsertMembers(d.index, w.key, n, e);
    }
  }

  lemma InsertCovers(d: Dictionary, w: Word)
    requires Valid(d)
    ensures var r := Dictionary(Insert(d.index, w.key, |d.words|), d.words + [w]);
      forall q :: 0 <= q < |r.words| ==> Entry(r.words[q].key, q) in r.index
  {
    var n := |d.words|;
    var r := Dictionary(Insert(d.index, w.key, n), d.words + [w]);
    forall q | 0 <= q < |r.words|
      ensures Entry(r.words[q].key, q) in r.index
    {
      InsertMembers(d.index, w.key, n, Entry(r.words[q].key, q));
    }
  }
}
