/** The character frequency table of freqtable.cpp: a map from a word to
    its frequency, filled from a file of lines `word<TAB>frequency`. */
module FreqTable {
  import opened Wrappers
  import Seqs
  import Numbers
  import opened TextStream

  /** `table_`. */
  type Table = map<string, int>

  /** The two `runtime_error`s `load` throws. */
  datatype LoadError = OpenFailed | UnexpectedData(line: string)

  /** What `load` leaves behind: the table as it stands afterwards, and the
      exception, if one was thrown. A failed load keeps what it stored. */
  datatype Loaded = Loaded(table: Table, error: Option<LoadError>)

  /** One line: `split("\t")` must give exactly two fields, the word and
      its frequency as read by `toLongLong`. */
  function ParseLine(line: string): (r: Option<(string, int)>)
    ensures r.Some? <==> |Seqs.Split(line, '\t')| == 2
    ensures r.Some? ==> '\t' !in r.value.0 && Numbers.Int64Min <= r.value.1 <= Numbers.Int64Max
  {
    var words := Seqs.Split(line, '\t');
    if |words| != 2 then None
    else Some((words[0], Numbers.ParseLongLong(words[1])))
  }

  /** The line sets the frequency of `word`. */
  predicate Sets(line: string, word: string) {
    ParseLine(line).Some? && ParseLine(line).value.0 == word
  }

  /** The read loop: each line in turn overwrites its word's entry; the
      first bad line throws, after the lines before it were stored. */
  function LoadLines(t: Table, lines: seq<string>): (r: Loaded)
    ensures t.Keys <= r.table.Keys
    decreases |lines|
  {
    if lines == [] then Loaded(t, None)
    else
      match ParseLine(lines[0])
      case None => Loaded(t, Some(UnexpectedData(lines[0])))
      case Some((word, freq)) => LoadLines(t[word := freq], lines[1..])
  }

  /** `load`: a file that does not open throws before anything changes. */
  function Load(t: Table, file: Option<string>): (r: Loaded)
    ensures file.None? ==> r == Loaded(t, Some(OpenFailed))
  {
    match file
    case None => Loaded(t, Some(OpenFailed))
    case Some(text) => LoadLines(t, ReadLines(text))
  }

  // ---------------------------------------------------------------- the line format

  /** A word without a tab and a 64-bit frequency, written as one line,
      read back as that word and frequency. */
  lemma LineRoundTrip(word: string, freq: int)
    requires '\t' !in word
    requires Numbers.Int64Min <= freq <= Numbers.Int64Max
    ensures ParseLine(word + "\t" + Numbers.Decimal(freq)) == Some((word, freq))
  {
    var digits := Numbers.Decimal(freq);
    assert '\t' !in digits by {
      if freq >= 0 {
        assert Numbers.AllDigits(digits);
      } else {
        assert digits == [digits[0]] + digits[1..];
      }
    }
    var parts := [word, digits];
    assert Seqs.Join(parts[1..], "\t") == digits;
    assert Seqs.Join(parts, "\t") == word + "\t" + digits;
    Seqs.SplitJoin(parts, '\t');
    Numbers.ParseDecimal(freq);
  }

  // ---------------------------------------------------------------- the read loop

  /** Loading two runs of lines is loading the first, then, if it did not
      throw, loading the second into its table. */
  lemma {:induction false} LoadAppend(t: Table, a: seq<string>, b: seq<string>)
    ensures LoadLines(t, a + b)
         == if LoadLines(t, a).error.Some? then LoadLines(t, a) else LoadLines(LoadLines(t, a).table, b)
    decreases |a|
  {
    if a == [] {
      assert a + b == b;
    } else {
      assert (a + b)[0] == a[0] && (a + b)[1..] == a[1..] + b;
      match ParseLine(a[0])
      case None =>
      case Some((word, freq)) =>
        LoadAppend(t[word := freq], a[1..], b);
    }
  }

  /** `load` throws exactly when some line is not two tab-separated
      fields. */
  lemma {:induction false} LoadFails(t: Table, lines: seq<string>)
    ensures LoadLines(t, lines).error.None? <==> forall i :: 0 <= i < |lines| ==> ParseLine(lines[i]).Some?
    ensures LoadLines(t, lines).error.Some? ==> LoadLines(t, lines).error.value.UnexpectedData?
    decreases |lines|
  {
    if lines != [] {
      match ParseLine(lines[0])
      case None =>
      case Some((word, freq)) =>
        LoadFails(t[word := freq], lines[1..]);
        assert forall i :: 1 <= i < |lines| ==> lines[i] == lines[1..][i - 1];
    }
  }

  /** The load is not atomic: on the first bad line it throws, and the
      table keeps everything the lines before it stored. */
  lemma FirstBadLine(t: Table, lines: seq<string>, i: nat)
    requires i < |lines|
    requires ParseLine(lines[i]).None?
    requires forall j :: 0 <= j < i ==> ParseLine(lines[j]).Some?
    ensures LoadLines(t, lines) == Loaded(LoadLines(t, lines[..i]).table, Some(UnexpectedData(lines[i])))
    ensures LoadLines(t, lines[..i]).error.None?
  {
    LoadFails(t, lines[..i]);
    LoadAppend(t, lines[..i], lines[i..]);
    assert lines == lines[..i] + lines[i..];
    assert lines[i..][0] == lines[i];
  }

  /** A word no line sets keeps its entry, or its absence. */
  lemma {:induction false} LoadUntouched(t: Table, lines: seq<string>, word: string)
    requires forall i :: 0 <= i < |lines| ==> !Sets(lines[i], word)
    ensures word in LoadLines(t, lines).table <==> word in t
    ensures word in t ==> LoadLines(t, lines).table[word] == t[word]
    decreases |lines|
  {
    if lines != [] {
      match ParseLine(lines[0])
      case None =>
      case Some((w, freq)) =>
        assert w != word by {
          assert !Sets(lines[0], word);
        }
        assert forall i :: 0 <= i < |lines[1..]| ==> lines[1..][i] == lines[i + 1];
        LoadUntouched(t[w := freq], lines[1..], word);
    }
  }

  /** The last line that sets a word wins: its frequency is the one in the
      table, whatever the lines after it do. */
  lemma {:induction false} LastWins(t: Table, before: seq<string>, line: string, after: seq<string>)
    requires LoadLines(t, before).error.None?
    requires ParseLine(line).Some?
    requires forall i :: 0 <= i < |after| ==> !Sets(after[i], ParseLine(line).value.0)
    ensures var r := LoadLines(t, before + [line] + after).table;
      ParseLine(line).value.0 in r && r[ParseLine(line).value.0] == ParseLine(line).value.1
  {
    var (word, freq) := ParseLine(line).value;
    var mid := LoadLines(t, before).table;
    LoadAppend(t, before, [line] + after);
    assert before + [line] + after == before + ([line] + after);
    assert LoadLines(mid, [line] + after) == LoadLines(mid[word := freq], after) by {
      assert ([line] + after)[0] == line && ([line] + after)[1..] == after;
    }
    LoadUntouched(mid[word := freq], after, word);
  }
}
