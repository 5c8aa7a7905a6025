/** The multimap dictionary of dictionary.cpp: words filed under their
    pinyin key, loaded from and saved to a text file of lines
    `key|chinese|pinyin|description`.

    The file is its text; a file that cannot be opened is `None`. The
    UTF-8 codec of the text stream is left out: the text is a sequence of
    characters. */
module LegacyDictionary {
  import opened Wrappers
  import Seqs
  import opened Multimap
  import opened TextStream

  /** `dictionary::word` of dictionary.cpp. */
  datatype Word = Word(chinese: string, pinyin: string, description: string)

  /** `words_`: the multimap from key to word. */
  type Dictionary = seq<Entry<Word>>

  /** Why `load` fails: the file does not open (the `runtime_error`), or a
      line splits into fewer than four fields, where `toks[1]` to `toks[3]`
      index past the end of the list. */
  datatype LoadError = OpenFailed | MissingFields(line: string)

  // ---------------------------------------------------------------- store and lookup

  /** `store`: always a new entry, even when the same key and word are
      already there. */
  function Store(d: Dictionary, key: string, w: Word): (r: Dictionary)
    ensures |r| == |d| + 1
    ensures multiset(r) == multiset(d) + multiset{Entry(key, w)}
  {
    InsertEntries(d, key, w);
    Insert(d, key, w)
  }

  /** `lookup`: the words filed under exactly `key`, oldest first. */
  function Lookup(d: Dictionary, key: string): (r: seq<Word>)
    ensures |r| <= |d|
    ensures forall w :: w in r <==> Entry(key, w) in d
  {
    LookupMembers(d, key);
    Multimap.Lookup(d, key)
  }

  /** After `store`, a lookup of the key finds the old words and then the
      new one; lookups of every other key are unchanged; the keys stay in
      order. */
  lemma StoreLookup(d: Dictionary, key: string, w: Word, other: string)
    requires Sorted(d)
    ensures Sorted(Store(d, key, w))
    ensures Lookup(Store(d, key, w), key) == Lookup(d, key) + [w]
    ensures other != key ==> Lookup(Store(d, key, w), other) == Lookup(d, other)
  {
    InsertLookup(d, key, w);
    if other != key {
      InsertLookupOther(d, key, w, other);
    }
  }

  // ---------------------------------------------------------------- save

  /** The four fields of an entry, in the order of a line. */
  function Fields(e: Entry<Word>): seq<string> {
    [e.key, e.value.chinese, e.value.pinyin, e.value.description]
  }

  /** A field that survives the file: no '|' and no newline. */
  predicate Plain(f: string) {
    '|' !in f && '\n' !in f
  }

  predicate PlainFields(e: Entry<Word>) {
    Plain(e.key) && Plain(e.value.chinese) && Plain(e.value.pinyin) && Plain(e.value.description)
  }

  /** One line of the file, without its newline. When no field holds '|'
      or a newline, the line holds no newline and splits on '|' back into
      the four fields. */
  function SaveLine(e: Entry<Word>): (line: string)
    ensures PlainFields(e) ==> '\n' !in line && Seqs.Split(line, '|') == Fields(e)
  {
    FieldsSplit(e);
    e.key + "|" + e.value.chinese + "|" + e.value.pinyin + "|" + e.value.description
  }

  lemma FieldsSplit(e: Entry<Word>)
    ensures var line := e.key + "|" + e.value.chinese + "|" + e.value.pinyin + "|" + e.value.description;
      PlainFields(e) ==> '\n' !in line && Seqs.Split(line, '|') == Fields(e)
  {
    if PlainFields(e) {
      var fields := Fields(e);
      var line := e.key + "|" + e.value.chinese + "|" + e.value.pinyin + "|" + e.value.description;
      assert line == Seqs.Join(fields, "|") by {
        assert Seqs.Join(fields[3..], "|") == fields[3];
        assert Seqs.Join(fields[2..], "|") == fields[2] + "|" + fields[3];
        assert Seqs.Join(fields[1..], "|") == fields[1] + "|" + (fields[2] + "|" + fields[3]);
      }
      Seqs.SplitJoin(fields, '|');
    }
  }

  /** `save`: one line per entry, in the multimap's key order, each ended
      by a newline. */
  function Save(d: Dictionary): (text: string)
    ensures d == [] <==> text == []
  {
    if d == [] then [] else SaveLine(d[0]) + "\n" + Save(d[1..])
  }

  // ---------------------------------------------------------------- load

  /** One line: `split("|")`, then fields 0 to 3; further fields are
      ignored. */
  function ParseLine(line: string): (r: Result<Entry<Word>, LoadError>)
    ensures r.Err? <==> |Seqs.Split(line, '|')| < 4
  {
    var toks := Seqs.Split(line, '|');
    if |toks| < 4 then Err(MissingFields(line))
    else Ok(Entry(toks[0], Word(toks[1], toks[2], toks[3])))
  }

  /** The loop of `load`: every line is inserted in turn; a bad line ends
      the load. */
  function LoadLines(d: Dictionary, lines: seq<string>): (r: Result<Dictionary, LoadError>)
    ensures r.Ok? <==> ParseAll(lines).Ok?
    ensures r.Ok? ==> |r.value| == |d| + |lines|
    ensures r.Ok? && Sorted(d) ==> Sorted(r.value)
    decreases |lines|
  {
    if lines == [] then Ok(d)
    else
      match ParseLine(lines[0])
      case Err(e) => Err(e)
      case Ok(entry) =>
        LoadLines(Insert(d, entry.key, entry.value), lines[1..])
  }

  /** `load`: open the file, then read every line into the dictionary. */
  function Load(d: Dictionary, file: Option<string>): (r: Result<Dictionary, LoadError>)
    ensures file.None? ==> r == Err(OpenFailed)
  {
    match file
    case None => Err(OpenFailed)
    case Some(text) => LoadLines(d, ReadLines(text))
  }

  /** The entries of a run of lines, up to the first bad one. */
  function ParseAll(lines: seq<string>): (r: Result<seq<Entry<Word>>, LoadError>)
    ensures r.Ok? ==> |r.value| == |lines|
  {
    if lines == [] then Ok([])
    else
      match ParseLine(lines[0])
      case Err(e) => Err(e)
      case Ok(entry) =>
        match ParseAll(lines[1..])
        case Err(e) => Err(e)
        case Ok(more) => Ok([entry] + more)
  }

  /** `load` only adds: a lookup afterwards finds the words that were
      there followed by the words of the file under that key. */
  lemma {:induction false} LoadLookup(d: Dictionary, lines: seq<string>, key: string)
    requires Sorted(d)
    ensures LoadLines(d, lines).Ok? ==>
      Lookup(LoadLines(d, lines).value, key)
      == Lookup(d, key) + Multimap.Lookup(ParseAll(lines).value, key)
    decreases |lines|
  {
    if lines == [] {
      assert Multimap.Lookup<Word>([], key) == [];
    } else if ParseLine(lines[0]).Ok? {
      var e := ParseLine(lines[0]).value;
      var next := Insert(d, e.key, e.value);
      assert LoadLines(d, lines) == LoadLines(next, lines[1..]);
      StoreLookup(d, e.key, e.value, key);
      LoadLookup(next, lines[1..], key);
      if ParseAll(lines[1..]).Ok? {
        LoadLookupStep(d, e, ParseAll(lines[1..]).value, key);
      }
    }
  }

  /** One inserted entry moves from the file's words to the dictionary's. */
  lemma LoadLookupStep(d: Dictionary, e: Entry<Word>, more: seq<Entry<Word>>, key: string)
    requires Sorted(d)
    ensures Lookup(Insert(d, e.key, e.value), key) + Multimap.Lookup(more, key)
         == Lookup(d, key) + Multimap.Lookup([e] + more, key)
  {
    StoreLookup(d, e.key, e.value, key);
    LookupAppend([e], more, key);
    assert [e][1..] == [];
    var head := Multimap.Lookup([e], key);
    var old_, tail := Multimap.Lookup(d, key), Multimap.Lookup(more, key);
    if e.key == key {
      assert head == [e.value];
      assert old_ + [e.value] + tail == old_ + ([e.value] + tail);
    } else {
      assert head == [];
      assert [] + tail == tail;
    }
  }

  // ---------------------------------------------------------------- round trip

  /** An entry `save` writes so that `load` reads it back: plain fields,
      and no '\r' at the end of the line that `readLine` would take for
      half of a "\r\n". */
  predicate Savable(e: Entry<Word>) {
    && PlainFields(e)
    && (e.value.description == [] || e.value.description[|e.value.description| - 1] != '\r')
  }

  /** A saved line holds no newline and does not end in '\r'. */
  lemma SaveLineShape(e: Entry<Word>)
    requires Savable(e)
    ensures '\n' !in SaveLine(e)
    ensures SaveLine(e) != [] ==> SaveLine(e)[|SaveLine(e)| - 1] != '\r'
  {
  }

  lemma SaveLineParses(e: Entry<Word>)
    requires Savable(e)
    ensures ParseLine(SaveLine(e)) == Ok(e)
  {
  }

  /** The lines `save` writes, one per entry. */
  function SavedLines(d: Dictionary): (lines: seq<string>)
    ensures |lines| == |d|
    ensures forall i :: 0 <= i < |d| ==> lines[i] == SaveLine(d[i])
  {
    seq(|d|, i requires 0 <= i < |d| => SaveLine(d[i]))
  }

  lemma SavedLinesCons(d: Dictionary)
    requires d != []
    ensures SavedLines(d) == [SaveLine(d[0])] + SavedLines(d[1..])
  {
  }

  /** `readLine` splits what `save` wrote back into its lines. */
  lemma {:induction false} ReadSaved(d: Dictionary)
    requires forall i :: 0 <= i < |d| ==> Savable(d[i])
    ensures ReadLines(Save(d)) == SavedLines(d)
    decreases |d|
  {
    if d != [] {
      SaveLineShape(d[0]);
      ReadLinesStep(SaveLine(d[0]), Save(d[1..]));
      ReadSaved(d[1..]);
      SavedLinesCons(d);
    }
  }

  lemma SortedPrefix<V>(m: seq<Entry<V>>, k: nat)
    requires Sorted(m) && k <= |m|
    ensures Sorted(m[..k])
  {
  }

  /** Loading saved entries that already follow the key order behind a
      dictionary appends them. */
  lemma {:induction false} LoadSaved(prefix: Dictionary, rest: Dictionary)
    requires Sorted(prefix + rest)
    requires forall i :: 0 <= i < |rest| ==> Savable(rest[i])
    ensures LoadLines(prefix, SavedLines(rest)) == Ok(prefix + rest)
    decreases |rest|
  {
    if rest == [] {
      assert prefix + rest == prefix;
    } else {
      LoadSavedStep(prefix, rest);
      Seqs.ShiftFront(prefix, rest);
      LoadSaved(prefix + [rest[0]], rest[1..]);
    }
  }

  /** The first saved line goes at the end of the dictionary. */
  lemma LoadSavedStep(prefix: Dictionary, rest: Dictionary)
    requires rest != []
    requires Sorted(prefix + rest)
    requires Savable(rest[0])
    ensures Sorted(prefix + [rest[0]])
    ensures LoadLines(prefix, SavedLines(rest)) == LoadLines(prefix + [rest[0]], SavedLines(rest[1..]))
  {
    var e := rest[0];
    var lines := SavedLines(rest);
    SaveLineParses(e);
    assert lines[0] == SaveLine(e);
    assert lines[1..] == SavedLines(rest[1..]);
    SortedPrefix(prefix + rest, |prefix| + 1);
    assert (prefix + rest)[..|prefix| + 1] == prefix + [e];
    InsertAtEnd(prefix, e);
  }

  /** The partner of `save`: loading what it wrote into an empty dictionary
      gives back the same multimap, same keys, same words, same order. */
  lemma {:induction false} SaveLoad(d: Dictionary)
    requires Sorted(d)
    requires forall i :: 0 <= i < |d| ==> Savable(d[i])
    ensures Load([], Some(Save(d))) == Ok(d)
  {
    ReadSaved(d);
    LoadSaved([], d);
    assert [] + d == d;
  }
}
