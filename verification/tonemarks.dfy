/** `make_dictionary_pinyin` of tools/cedict.cpp: numbered pinyin such as
    "ban4 fa3" becomes "bànfǎ". Each syllable runs up to its tone digit; the
    digit picks the accent and a placement rule picks the letter that takes
    it.

    The letter-level accent function is a parameter: the source passes
    `pinyin::tonemap` (`Pinyin.ToneMap`), whose sum-keyed lookup also marks
    consonants and tone 5; the rest of the model passes the pair-keyed
    `Pinyin.ToneMapFixed`. The source's `assert`s abort a debug build; here
    they are the error results of `Error`. */
module ToneMarks {
  import opened Chars
  import Seqs
  import opened Wrappers
  import Pinyin

  /** What `pinyin::tonemap` does to one letter and a tone number. */
  type MarkRule = (Wide, nat) -> Wide

  /** The conditions under which the source's `assert`s fire. */
  datatype Error =
    | ToneOutOfRange(tone: int)   // a digit 0 or 6 to 9 ends a syllable
    | EmptySyllable               // a digit with no letter before it
    | MisplacedDiaeresis          // a ':' not right after a lower-case u

  // ---------------------------------------------------------------- scanning

  predicate IsAOrE(c: int) {
    c == Pinyin.SmallA || c == Pinyin.CapitalA || c == Pinyin.SmallE || c == Pinyin.CapitalE
  }

  predicate IsO(c: int) { c == Pinyin.SmallO || c == Pinyin.CapitalO }

  predicate IsU(c: int) { c == Pinyin.SmallU || c == Pinyin.CapitalU }

  /** The state of the inner loop: the letters collected so far and
      `tonepos`, `None` standing for the source's -1. */
  datatype Scan = Scan(syllable: seq<Wide>, tonepos: Option<nat>)

  const Start: Scan := Scan([], None)

  predicate ValidScan(st: Scan) {
    st.tonepos.Some? ==> st.tonepos.value < |st.syllable|
  }

  /** A letter that is neither a digit nor ':' is appended; while no letter
      has claimed the mark yet, an a or e claims it, and a u right after an
      o hands it to that o. */
  function Push(st: Scan, c: Wide): (r: Scan)
    ensures r.syllable == st.syllable + [c]
    ensures st.tonepos.Some? ==> r.tonepos == st.tonepos
    ensures ValidScan(st) ==> ValidScan(r)
  {
    var s := st.syllable + [c];
    if st.tonepos.Some? then Scan(s, st.tonepos)
    else if IsAOrE(c) then Scan(s, Some(|st.syllable|))
    else if IsU(c) && |st.syllable| > 0 && IsO(st.syllable[|st.syllable| - 1]) then
      Scan(s, Some(|st.syllable| - 1))
    else Scan(s, None)
  }

  /** A ':' turns the lower-case u just collected into u-diaeresis, and
      leaves `tonepos` alone. */
  function Diaeresis(st: Scan): (r: Result<Scan, Error>)
    ensures r.Ok? <==> |st.syllable| > 0 && st.syllable[|st.syllable| - 1] == Pinyin.SmallU
    ensures r.Ok? ==> var n := |st.syllable|;
      && |r.value.syllable| == n
      && r.value.syllable[..n - 1] == st.syllable[..n - 1]
      && r.value.syllable[n - 1] == Pinyin.SmallUDiaeresis
      && r.value.tonepos == st.tonepos
  {
    var n := |st.syllable|;
    if n == 0 || st.syllable[n - 1] != Pinyin.SmallU then Err(MisplacedDiaeresis)
    else Ok(Scan(st.syllable[..n - 1] + [Pinyin.SmallUDiaeresis], st.tonepos))
  }

  // ---------------------------------------------------------------- fallback

  /** `p` is where the fallback loop stops: the last vowel at index 1 or
      later, or index 0 when there is none. */
  predicate LastVowelAt(s: seq<Wide>, p: nat) {
    && p < |s|
    && (p >= 1 ==> Pinyin.IsVowel(s[p]))
    && (forall j :: p < j < |s| ==> !Pinyin.IsVowel(s[j]))
  }

  /** The loop `for (tonepos = size - 1; tonepos > 0; --tonepos)` that
      breaks at a vowel, started at `t`. */
  function DownFrom(s: seq<Wide>, t: nat): (r: nat)
    requires t < |s|
    ensures r <= t
    ensures r >= 1 ==> Pinyin.IsVowel(s[r])
    ensures forall j :: r < j <= t ==> !Pinyin.IsVowel(s[j])
  {
    if t == 0 || Pinyin.IsVowel(s[t]) then t else DownFrom(s, t - 1)
  }

  /** The fallback when no letter claimed the mark; an empty syllable has
      no position (the source's `assert(tonepos >= 0)`). */
  function Fallback(s: seq<Wide>): (p: Option<nat>)
    ensures p.None? <==> s == []
    ensures p.Some? ==> LastVowelAt(s, p.value)
  {
    if s == [] then None else Some(DownFrom(s, |s| - 1))
  }

  function TonePosition(st: Scan): (p: Option<nat>)
    requires ValidScan(st)
    ensures p.Some? ==> p.value < |st.syllable|
    ensures p.None? <==> st.syllable == []
  {
    if st.tonepos.Some? then st.tonepos else Fallback(st.syllable)
  }

  // ---------------------------------------------------------------- syllables

  /** One run of the inner loop: the syllable it appends to the result and
      the input after its tone digit (empty when the input ran out first). */
  datatype Read = Read(syllable: seq<Wide>, rest: seq<Wide>)

  function ReadSyllable(w: seq<Wide>, st: Scan, mark: MarkRule): (r: Result<Read, Error>)
    requires ValidScan(st)
    ensures r.Ok? ==> |r.value.rest| <= |w|
    ensures r.Ok? && w != [] ==> |r.value.rest| < |w|
    ensures r.Ok? ==> |r.value.syllable| + |r.value.rest| <= |st.syllable| + |w|
    decreases |w|
  {
    if w == [] then Ok(Read(st.syllable, []))
    else
      var c := w[0];
      if IsDigit(c) then
        var tone := c - Zero;
        if tone < 1 || 5 < tone then Err(ToneOutOfRange(tone))
        else
          match TonePosition(st)
          case None => Err(EmptySyllable)
          case Some(p) => Ok(Read(st.syllable[p := mark(st.syllable[p], tone)], w[1..]))
      else if c == Colon then
        match Diaeresis(st)
        case Err(e) => Err(e)
        case Ok(next) => ReadSyllable(w[1..], next, mark)
      else
        ReadSyllable(w[1..], Push(st, c), mark)
  }

  /** The inner loop only moves forward: what it leaves is a suffix of its
      input. */
  lemma {:induction false} ReadSyllableSuffix(w: seq<Wide>, st: Scan, mark: MarkRule)
    requires ValidScan(st) && ReadSyllable(w, st, mark).Ok?
    ensures var rest := ReadSyllable(w, st, mark).value.rest;
      rest == w[|w| - |rest|..]
    decreases |w|
  {
    if w != [] && !IsDigit(w[0]) {
      var next := if w[0] == Colon then Diaeresis(st).value else Push(st, w[0]);
      ReadSyllableSuffix(w[1..], next, mark);
    }
  }

  /** The outer loop: white space between syllables is skipped, every
      syllable is appended, and the first error ends the run. */
  function PlaceTones(w: seq<Wide>, mark: MarkRule): (r: Result<seq<Wide>, Error>)
    ensures r.Ok? ==> |r.value| <= |w|
    ensures (forall i :: 0 <= i < |w| ==> IsSpace(w[i])) ==> r == Ok([])
    decreases |w|
  {
    if w == [] then Ok([])
    else if IsSpace(w[0]) then PlaceTones(w[1..], mark)
    else
      match ReadSyllable(w, Start, mark)
      case Err(e) => Err(e)
      case Ok(read) =>
        match PlaceTones(read.rest, mark)
        case Err(e) => Err(e)
        case Ok(more) => Ok(read.syllable + more)
  }

  /** Whether and how the inner loop fails, and where it stops, does not
      depend on the accent function. */
  lemma {:induction false} ReadSyllableMarkFree(w: seq<Wide>, st: Scan, mark: MarkRule, other: MarkRule)
    requires ValidScan(st)
    ensures ReadSyllable(w, st, mark).Ok? == ReadSyllable(w, st, other).Ok?
    ensures ReadSyllable(w, st, mark).Err? ==> ReadSyllable(w, st, mark) == ReadSyllable(w, st, other)
    ensures ReadSyllable(w, st, mark).Ok? ==>
      ReadSyllable(w, st, mark).value.rest == ReadSyllable(w, st, other).value.rest
    decreases |w|
  {
    if w != [] && !IsDigit(w[0]) {
      if w[0] == Colon {
        if Diaeresis(st).Ok? {
          ReadSyllableMarkFree(w[1..], Diaeresis(st).value, mark, other);
        }
      } else {
        ReadSyllableMarkFree(w[1..], Push(st, w[0]), mark, other);
      }
    }
  }

  /** The errors of `make_dictionary_pinyin` come from the scan alone: the
      accent function decides what is written, never whether it fails. */
  lemma {:induction false} PlaceTonesMarkFree(w: seq<Wide>, mark: MarkRule, other: MarkRule)
    ensures PlaceTones(w, mark).Ok? == PlaceTones(w, other).Ok?
    ensures PlaceTones(w, mark).Err? ==> PlaceTones(w, mark) == PlaceTones(w, other)
    decreases |w|
  {
    if w != [] {
      if IsSpace(w[0]) {
        PlaceTonesMarkFree(w[1..], mark, other);
      } else {
        ReadSyllableMarkFree(w, Start, mark, other);
        if ReadSyllable(w, Start, mark).Ok? {
          var rest := ReadSyllable(w, Start, mark).value.rest;
          PlaceTonesMarkFree(rest, mark, other);
        }
      }
    }
  }

  // ---------------------------------------------------------------- the placement rule

  /** No digit and no ':' : letters the inner loop simply appends. */
  predicate Appendable(s: seq<Wide>) {
    forall i :: 0 <= i < |s| ==> !IsDigit(s[i]) && s[i] != Colon
  }

  /** The letter at `i` claims the mark: an a or an e, or a u right after
      an o. */
  predicate Claims(s: seq<Wide>, i: int) {
    0 <= i < |s| && (IsAOrE(s[i]) || (IsU(s[i]) && i > 0 && IsO(s[i - 1])))
  }

  /** Where a claim puts the mark: on the a or e itself, on the o of "ou". */
  function ClaimTarget(s: seq<Wide>, i: int): nat
    requires Claims(s, i)
  {
    if IsAOrE(s[i]) then i else i - 1
  }

  predicate FirstClaim(s: seq<Wide>, i: int) {
    Claims(s, i) && forall j :: 0 <= j < i ==> !Claims(s, j)
  }

  /** The placement rule stated on the whole syllable: the first claim
      decides; without one, the last vowel from index 1 on, else the first
      letter. */
  predicate IsMarkPosition(s: seq<Wide>, p: nat) {
    || (exists i | 0 <= i < |s| :: FirstClaim(s, i) && p == ClaimTarget(s, i))
    || ((forall i :: 0 <= i < |s| ==> !Claims(s, i)) && LastVowelAt(s, p))
  }

  /** The rule picks at most one position. */
  lemma MarkPositionUnique(s: seq<Wide>, p: nat, q: nat)
    requires IsMarkPosition(s, p) && IsMarkPosition(s, q)
    ensures p == q
  {
    if exists i | 0 <= i < |s| :: FirstClaim(s, i) && p == ClaimTarget(s, i) {
      var i :| 0 <= i < |s| && FirstClaim(s, i) && p == ClaimTarget(s, i);
      assert Claims(s, i);
      var k :| 0 <= k < |s| && FirstClaim(s, k) && q == ClaimTarget(s, k);
      assert i == k;
    } else {
      assert LastVowelAt(s, p);
      assert LastVowelAt(s, q);
    }
  }

  /** The scan state after appending every letter of `s`. */
  function Fold(st: Scan, s: seq<Wide>): (r: Scan)
    ensures r.syllable == st.syllable + s
    ensures ValidScan(st) ==> ValidScan(r)
    decreases |s|
  {
    if s == [] then st else Fold(Push(st, s[0]), s[1..])
  }

  lemma {:induction false} FoldSnoc(st: Scan, s: seq<Wide>, c: Wide)
    ensures Fold(st, s + [c]) == Push(Fold(st, s), c)
    decreases |s|
  {
    if s == [] {
      assert [c][1..] == [];
    } else {
      assert (s + [c])[1..] == s[1..] + [c];
      FoldSnoc(Push(st, s[0]), s[1..], c);
    }
  }

  /** The inner loop runs through appendable letters by pushing them. */
  lemma {:induction false} ReadThrough(s: seq<Wide>, tail: seq<Wide>, st: Scan, mark: MarkRule)
    requires Appendable(s) && ValidScan(st)
    ensures ReadSyllable(s + tail, st, mark) == ReadSyllable(tail, Fold(st, s), mark)
    decreases |s|
  {
    if s != [] {
      assert (s + tail)[0] == s[0];
      assert (s + tail)[1..] == s[1..] + tail;
      ReadThrough(s[1..], tail, Push(st, s[0]), mark);
    } else {
      assert s + tail == tail;
    }
  }

  /** Appending a letter leaves the claims of the earlier letters as
      they were. */
  lemma ClaimsOfSnoc(front: seq<Wide>, c: Wide)
    ensures forall j :: 0 <= j < |front| ==> Claims(front + [c], j) == Claims(front, j)
  {
    var s := front + [c];
    forall j | 0 <= j < |front| ensures Claims(s, j) == Claims(front, j) {
      assert s[j] == front[j];
      if j > 0 {
        assert s[j - 1] == front[j - 1];
      }
    }
  }

  /** Scanning a syllable letter by letter claims the mark exactly where the
      whole-syllable rule says: at the first claim's target, or nowhere when
      no letter claims it. */
  lemma {:induction false} ScanClaims(s: seq<Wide>)
    ensures Fold(Start, s).tonepos.None? <==> forall i :: 0 <= i < |s| ==> !Claims(s, i)
    ensures Fold(Start, s).tonepos.Some? ==>
      exists i :: FirstClaim(s, i) && Fold(Start, s).tonepos.value == ClaimTarget(s, i)
    decreases |s|
  {
    if s != [] {
      var n := |s| - 1;
      var front, c := s[..n], s[n];
      assert s == front + [c];
      ScanClaims(front);
      FoldSnoc(Start, front, c);
      ClaimsOfSnoc(front, c);
      assert Fold(Start, front).syllable == front;
      ScanClaimsStep(Fold(Start, front), c);
    }
  }

  /** One letter of the scan: the claim stays once made, and otherwise the
      new letter's own claim, if any, is the first one. */
  lemma ScanClaimsStep(before: Scan, c: Wide)
    requires (before.tonepos.None? <==> forall i :: 0 <= i < |before.syllable| ==> !Claims(before.syllable, i))
    requires before.tonepos.Some? ==>
      exists i :: FirstClaim(before.syllable, i) && before.tonepos.value == ClaimTarget(before.syllable, i)
    requires forall j :: 0 <= j < |before.syllable| ==>
      Claims(before.syllable + [c], j) == Claims(before.syllable, j)
    ensures var s, st := before.syllable + [c], Push(before, c);
      && (st.tonepos.None? <==> forall i :: 0 <= i < |s| ==> !Claims(s, i))
      && (st.tonepos.Some? ==> exists i :: FirstClaim(s, i) && st.tonepos.value == ClaimTarget(s, i))
  {
    var front := before.syllable;
    var s, n, st := front + [c], |front|, Push(before, c);
    if before.tonepos.Some? {
      var i :| FirstClaim(front, i) && before.tonepos.value == ClaimTarget(front, i);
      assert s[i] == front[i];
      assert FirstClaim(s, i);
      assert st.tonepos.value == ClaimTarget(s, i);
    } else if IsAOrE(c) {
      assert s[n] == c;
      assert FirstClaim(s, n);
    } else if IsU(c) && n > 0 && IsO(front[n - 1]) {
      assert s[n] == c && s[n - 1] == front[n - 1];
      assert FirstClaim(s, n);
    } else {
      assert st.tonepos.None?;
      assert !Claims(s, n) by {
        assert s[n] == c;
        if n > 0 {
          assert s[n - 1] == front[n - 1];
        }
      }
    }
  }

  /** The tone digit that ends a syllable. */
  lemma DigitStep(st: Scan, d: Wide, rest: seq<Wide>, mark: MarkRule)
    requires ValidScan(st) && IsDigit(d) && 1 <= d - Zero <= 5
    requires TonePosition(st).Some?
    ensures var p := TonePosition(st).value;
      ReadSyllable([d] + rest, st, mark) == Ok(Read(st.syllable[p := mark(st.syllable[p], d - Zero)], rest))
  {
    assert ([d] + rest)[0] == d && ([d] + rest)[1..] == rest;
  }

  /** A syllable with letters before its digit: the letter the rule picks
      gets the accent for the digit's tone, every other letter is kept, and
      reading resumes right after the digit. */
  lemma MarkSyllable(s: seq<Wide>, d: Wide, rest: seq<Wide>, mark: MarkRule) returns (p: nat)
    requires Appendable(s) && s != []
    requires IsDigit(d) && 1 <= d - Zero <= 5
    ensures p < |s| && IsMarkPosition(s, p)
    ensures ReadSyllable(s + [d] + rest, Start, mark) == Ok(Read(s[p := mark(s[p], d - Zero)], rest))
  {
    p := ScanPosition(s);
    var tail := [d] + rest;
    ReadThrough(s, tail, Start, mark);
    DigitStep(Fold(Start, s), d, rest, mark);
    Seqs.Regroup(s, [d], rest);
  }

  /** Where the scan of a whole syllable puts the mark. */
  lemma ScanPosition(s: seq<Wide>) returns (p: nat)
    requires s != []
    ensures TonePosition(Fold(Start, s)) == Some(p)
    ensures Fold(Start, s).syllable == s
    ensures p < |s| && IsMarkPosition(s, p)
  {
    var st := Fold(Start, s);
    assert st.syllable == s;
    ScanClaims(s);
    if st.tonepos.Some? {
      p := st.tonepos.value;
      var i :| FirstClaim(s, i) && p == ClaimTarget(s, i);
      assert 0 <= i < |s|;
    } else {
      p := Fallback(s).value;
    }
  }

  /** The error cases of a tone digit: 0 and 6 to 9 are out of range, and
      a digit with nothing before it has no letter to mark. */
  lemma ToneDigitErrors(s: seq<Wide>, d: Wide, rest: seq<Wide>, mark: MarkRule)
    requires Appendable(s) && IsDigit(d)
    ensures !(1 <= d - Zero <= 5) ==> ReadSyllable(s + [d] + rest, Start, mark) == Err(ToneOutOfRange(d - Zero))
    ensures s == [] && 1 <= d - Zero <= 5 ==> ReadSyllable(s + [d] + rest, Start, mark) == Err(EmptySyllable)
  {
    ReadThrough(s, [d] + rest, Start, mark);
    assert s + [d] + rest == s + ([d] + rest);
  }

  /** A syllable the input ends before its digit is appended as it is. */
  lemma Unterminated(s: seq<Wide>, mark: MarkRule)
    requires Appendable(s)
    ensures ReadSyllable(s, Start, mark) == Ok(Read(s, []))
    ensures s != [] && !IsSpace(s[0]) ==> PlaceTones(s, mark) == Ok(s)
  {
    ReadThrough(s, [], Start, mark);
    assert s + [] == s;
    var st := Fold(Start, s);
    assert st.syllable == s;
    assert ReadSyllable([], st, mark) == Ok(Read(s, []));
  }

  /** White space before a syllable never reaches the result. */
  lemma {:induction false} LeadingSpaces(sp: seq<Wide>, w: seq<Wide>, mark: MarkRule)
    requires forall i :: 0 <= i < |sp| ==> IsSpace(sp[i])
    ensures PlaceTones(sp + w, mark) == PlaceTones(w, mark)
    decreases |sp|
  {
    if sp != [] {
      assert (sp + w)[1..] == sp[1..] + w;
      LeadingSpaces(sp[1..], w, mark);
    } else {
      assert sp + w == w;
    }
  }

  /** A ':' rewrites the lower-case u before it and fails anywhere else. */
  lemma ColonRewrite(s: seq<Wide>, tail: seq<Wide>, mark: MarkRule)
    requires Appendable(s)
    ensures var st, n := Fold(Start, s), |s|;
      ReadSyllable(s + [Colon] + tail, Start, mark)
      == if n > 0 && s[n - 1] == Pinyin.SmallU
         then ReadSyllable(tail, Scan(s[..n - 1] + [Pinyin.SmallUDiaeresis], st.tonepos), mark)
         else Err(MisplacedDiaeresis)
  {
    ReadThrough(s, [Colon] + tail, Start, mark);
    assert s + [Colon] + tail == s + ([Colon] + tail);
    assert ([Colon] + tail)[1..] == tail;
    assert Fold(Start, s).syllable == s;
  }

  // ---------------------------------------------------------------- letters are kept

  /** What `make_dictionary_key` keeps of a pinyin string: everything but
      digits and white space. */
  function Letters(s: seq<Wide>): (r: seq<Wide>)
    ensures |r| <= |s|
    ensures forall i :: 0 <= i < |r| ==> !IsDigit(r[i]) && !IsSpace(r[i]) && r[i] in s
  {
    if s == [] then []
    else (if IsDigit(s[0]) || IsSpace(s[0]) then [] else [s[0]]) + Letters(s[1..])
  }

  /** The letters come back unchanged exactly when there is no digit and
      no white space to drop. */
  lemma {:induction false} LettersUnchangedIff(s: seq<Wide>)
    ensures Letters(s) == s <==> forall i :: 0 <= i < |s| ==> !IsDigit(s[i]) && !IsSpace(s[i])
    decreases |s|
  {
    if s != [] {
      LettersUnchangedIff(s[1..]);
      if IsDigit(s[0]) || IsSpace(s[0]) {
        assert |Letters(s)| < |s|;
      } else {
        assert Letters(s) == [s[0]] + Letters(s[1..]);
        if Letters(s) == s {
          assert Letters(s[1..]) == s[1..];
        }
        if forall i :: 0 <= i < |s| ==> !IsDigit(s[i]) && !IsSpace(s[i]) {
          assert forall i :: 0 <= i < |s[1..]| ==> s[1..][i] == s[i + 1];
          assert s == [s[0]] + s[1..];
        }
      }
    }
  }

  lemma {:induction false} LettersAppend(a: seq<Wide>, b: seq<Wide>)
    ensures Letters(a + b) == Letters(a) + Letters(b)
    decreases |a|
  {
    if a != [] {
      assert (a + b)[1..] == a[1..] + b;
      LettersAppend(a[1..], b);
    } else {
      assert a + b == b;
    }
  }

  /** Every letter with its accent removed (`pinyin::toneunmap`). */
  function Unmark(s: seq<Wide>): seq<Wide>
  {
    seq(|s|, i requires 0 <= i < |s| => Pinyin.ToneUnmap(s[i]))
  }

  /** Input that carries no accent of its own: no accented letter, no
      u-diaeresis and no ':'. */
  predicate Unaccented(s: seq<Wide>) {
    && Unmark(s) == s
    && forall i :: 0 <= i < |s| ==>
         s[i] != Pinyin.SmallUDiaeresis && s[i] != Pinyin.CapitalUDiaeresis && s[i] != Colon
  }

  /** Removing the accent the corrected mapping adds gives the letter back. */
  lemma UnmarkFixed(c: Wide, tone: nat)
    requires Pinyin.ToneUnmap(c) == c
    requires c != Pinyin.SmallUDiaeresis && c != Pinyin.CapitalUDiaeresis
    ensures Pinyin.ToneUnmap(Pinyin.ToneMapFixed(c, tone)) == c
  {
    if Pinyin.IsVowel(c) && 1 <= tone <= 4 {
      Pinyin.ToneUnmapRoundTrip(c, tone);
      Pinyin.ToneMapAgrees(c, tone);
    }
  }

  lemma UnmarkAppend(a: seq<Wide>, b: seq<Wide>)
    ensures Unmark(a + b) == Unmark(a) + Unmark(b)
  {
  }

  /** A successful run of the outer loop on a syllable: the syllable, then
      the rest. */
  lemma PlaceTonesStep(w: seq<Wide>, mark: MarkRule)
    requires w != [] && !IsSpace(w[0])
    requires PlaceTones(w, mark).Ok?
    ensures ReadSyllable(w, Start, mark).Ok?
    ensures var read := ReadSyllable(w, Start, mark).value;
      && PlaceTones(read.rest, mark).Ok?
      && PlaceTones(w, mark).value == read.syllable + PlaceTones(read.rest, mark).value
  {
  }

  lemma UnaccentedSnoc(s: seq<Wide>, c: Wide)
    requires Unaccented(s) && Unaccented([c])
    ensures Unaccented(s + [c])
  {
    UnmarkAppend(s, [c]);
  }

  lemma UnaccentedTail(w: seq<Wide>)
    requires Unaccented(w) && w != []
    ensures Unaccented([w[0]]) && Unaccented(w[1..])
  {
    assert w == [w[0]] + w[1..];
    UnmarkAppend([w[0]], w[1..]);
  }

  /** One syllable: with its accents removed, its letters followed by those
      of the rest are the letters of what the scan started from. */
  lemma {:induction false} SyllableLetters(w: seq<Wide>, st: Scan)
    requires ValidScan(st) && Unaccented(st.syllable) && Unaccented(w)
    requires ReadSyllable(w, st, Pinyin.ToneMapFixed).Ok?
    ensures var r := ReadSyllable(w, st, Pinyin.ToneMapFixed).value;
      Letters(Unmark(r.syllable)) + Letters(r.rest) == Letters(st.syllable + w)
    decreases |w|
  {
    if w == [] {
      assert st.syllable + w == st.syllable;
    } else if IsDigit(w[0]) {
      DigitLetters(w, st);
    } else {
      var r := ReadSyllable(w, st, Pinyin.ToneMapFixed).value;
      UnaccentedTail(w);
      var next := Push(st, w[0]);
      assert r == ReadSyllable(w[1..], next, Pinyin.ToneMapFixed).value;
      UnaccentedSnoc(st.syllable, w[0]);
      SyllableLetters(w[1..], next);
      assert next.syllable == st.syllable + [w[0]];
      Seqs.ShiftFront(st.syllable, w);
    }
  }

  /** The tone digit: the mark is taken off again and the digit is not a
      letter. */
  lemma DigitLetters(w: seq<Wide>, st: Scan)
    requires ValidScan(st) && Unaccented(st.syllable) && Unaccented(w)
    requires w != [] && IsDigit(w[0])
    requires ReadSyllable(w, st, Pinyin.ToneMapFixed).Ok?
    ensures var r := ReadSyllable(w, st, Pinyin.ToneMapFixed).value;
      Letters(Unmark(r.syllable)) + Letters(r.rest) == Letters(st.syllable + w)
  {
    var r := ReadSyllable(w, st, Pinyin.ToneMapFixed).value;
    var p := TonePosition(st).value;
    var tone := w[0] - Zero;
    assert Pinyin.ToneUnmap(st.syllable[p]) == st.syllable[p] by {
      assert Unmark(st.syllable)[p] == st.syllable[p];
    }
    UnaccentedTail(w);
    UnmarkFixed(st.syllable[p], tone);
    assert Unmark(r.syllable) == st.syllable;
    LettersAppend(st.syllable, w);
    assert Letters(w) == Letters(w[1..]);
  }


  /** The partner of `PlaceTones`: with the corrected accent mapping,
      stripping the accents from the result and dropping white space gives
      exactly the letters of the input. Only the tone digits and the spaces
      are gone. */
  lemma {:induction false} PlaceTonesKeepsLetters(w: seq<Wide>)
    requires Unaccented(w)
    requires PlaceTones(w, Pinyin.ToneMapFixed).Ok?
    ensures Letters(Unmark(PlaceTones(w, Pinyin.ToneMapFixed).value)) == Letters(w)
    decreases |w|
  {
    if w == [] {
    } else if IsSpace(w[0]) {
      UnaccentedTail(w);
      PlaceTonesKeepsLetters(w[1..]);
      assert Letters(w) == Letters(w[1..]);
    } else {
      PlaceTonesStep(w, Pinyin.ToneMapFixed);
      var read := ReadSyllable(w, Start, Pinyin.ToneMapFixed).value;
      var more := PlaceTones(read.rest, Pinyin.ToneMapFixed).value;
      SyllableLetters(w, Start);
      assert Start.syllable + w == w;
      ReadSyllableSuffix(w, Start, Pinyin.ToneMapFixed);
      UnaccentedSuffix(w, |w| - |read.rest|);
      PlaceTonesKeepsLetters(read.rest);
      UnmarkAppend(read.syllable, more);
      LettersAppend(Unmark(read.syllable), Unmark(more));
    }
  }

  lemma UnaccentedSuffix(w: seq<Wide>, k: nat)
    requires Unaccented(w) && k <= |w|
    ensures Unaccented(w[k..])
  {
    assert w == w[..k] + w[k..];
    UnmarkAppend(w[..k], w[k..]);
  }

  /** A whole syllable at the front of the input: its marked form comes
      first in the result, followed by whatever the rest gives. */
  lemma PlaceTonesSyllable(s: seq<Wide>, d: Wide, rest: seq<Wide>, mark: MarkRule) returns (p: nat)
    requires Appendable(s) && s != [] && !IsSpace(s[0])
    requires IsDigit(d) && 1 <= d - Zero <= 5
    ensures p < |s| && IsMarkPosition(s, p)
    ensures PlaceTones(s + [d] + rest, mark)
         == match PlaceTones(rest, mark)
            case Ok(more) => Ok(s[p := mark(s[p], d - Zero)] + more)
            case Err(e) => Err(e)
  {
    p := MarkSyllable(s, d, rest, mark);
    var w := s + [d] + rest;
    assert w[0] == s[0];
  }

  // ---------------------------------------------------------------- 16-bit output

  lemma ToneMapFixedBmp(c: Wide, tone: nat)
    requires c < 0x1_0000
    ensures Pinyin.ToneMapFixed(c, tone) < 0x1_0000
  {
  }

  lemma {:induction false} ReadSyllableBmp(w: seq<Wide>, st: Scan)
    requires ValidScan(st) && Bmp(w) && Bmp(st.syllable)
    requires ReadSyllable(w, st, Pinyin.ToneMapFixed).Ok?
    ensures Bmp(ReadSyllable(w, st, Pinyin.ToneMapFixed).value.syllable)
    decreases |w|
  {
    if w != [] {
      if IsDigit(w[0]) {
        var p := TonePosition(st).value;
        ToneMapFixedBmp(st.syllable[p], w[0] - Zero);
      } else if w[0] == Colon {
        ReadSyllableBmp(w[1..], Diaeresis(st).value);
      } else {
        ReadSyllableBmp(w[1..], Push(st, w[0]));
      }
    }
  }

  /** With the corrected mapping, input in the basic multilingual plane
      gives output in it: every accent it adds is a 16-bit letter. */
  lemma {:induction false} PlaceTonesBmp(w: seq<Wide>)
    requires Bmp(w)
    requires PlaceTones(w, Pinyin.ToneMapFixed).Ok?
    ensures Bmp(PlaceTones(w, Pinyin.ToneMapFixed).value)
    decreases |w|
  {
    if w != [] {
      if IsSpace(w[0]) {
        PlaceTonesBmp(w[1..]);
      } else {
        PlaceTonesStep(w, Pinyin.ToneMapFixed);
        var read := ReadSyllable(w, Start, Pinyin.ToneMapFixed).value;
        ReadSyllableBmp(w, Start);
        ReadSyllableSuffix(w, Start, Pinyin.ToneMapFixed);
        assert Bmp(read.rest);
        PlaceTonesBmp(read.rest);
      }
    }
  }

  // ---------------------------------------------------------------- examples

  /** "ban4 fa3" becomes "bànfǎ": the a claims the mark in both syllables,
      and the space between them is dropped. */
  lemma ExampleBanFa()
    ensures PlaceTones([0x62, 0x61, 0x6E, 0x34, 0x20, 0x66, 0x61, 0x33], Pinyin.ToneMapFixed)
         == Ok([0x62, Pinyin.SmallAGrave, 0x6E, 0x66, Pinyin.SmallACaron])
  {
    var m := Pinyin.ToneMapFixed;
    var tail := ExampleFa();
    var ban: seq<Wide> := [0x62, 0x61, 0x6E];
    assert IsMarkPosition(ban, 1) by {
      assert FirstClaim(ban, 1) by { assert !Claims(ban, 0); }
    }
    assert ban + [0x34] + [0x20, 0x66, 0x61, 0x33] == [0x62, 0x61, 0x6E, 0x34, 0x20, 0x66, 0x61, 0x33];
    var head := ExampleSyllable(ban, 0x34, [0x20, 0x66, 0x61, 0x33], m, 1);
    assert head == [0x62, Pinyin.SmallAGrave, 0x6E] by {
      assert m(0x61, 4) == Pinyin.SmallAGrave;
    }
    assert head + tail == [0x62, Pinyin.SmallAGrave, 0x6E, 0x66, Pinyin.SmallACaron];
  }

  /** The second half of "ban4 fa3": the space is skipped, "fa3" becomes
      "fǎ". */
  lemma ExampleFa() returns (tail: seq<Wide>)
    ensures tail == [0x66, Pinyin.SmallACaron]
    ensures PlaceTones([0x20, 0x66, 0x61, 0x33], Pinyin.ToneMapFixed) == Ok(tail)
  {
    var m := Pinyin.ToneMapFixed;
    var fa: seq<Wide> := [0x66, 0x61];
    assert IsMarkPosition(fa, 1) by {
      assert FirstClaim(fa, 1) by { assert !Claims(fa, 0); }
    }
    tail := ExampleSyllable(fa, 0x33, [], m, 1);
    assert fa + [0x33] + [] == [0x66, 0x61, 0x33];
    assert tail == [0x66, Pinyin.SmallACaron] by {
      assert m(0x61, 3) == Pinyin.SmallACaron;
    }
    assert PlaceTones([], m) == Ok([]);
    assert tail + [] == tail;
    assert PlaceTones([0x66, 0x61, 0x33], m) == Ok(tail);
    LeadingSpaces([0x20], [0x66, 0x61, 0x33], m);
    assert [0x20] + [0x66, 0x61, 0x33] == [0x20, 0x66, 0x61, 0x33];
  }

  /** "gou3" becomes "gǒu": in "ou" the o takes the mark. */
  lemma ExampleGou()
    ensures PlaceTones([0x67, 0x6F, 0x75, 0x33], Pinyin.ToneMapFixed) == Ok([0x67, Pinyin.SmallOCaron, 0x75])
  {
    var m := Pinyin.ToneMapFixed;
    var s: seq<Wide> := [0x67, 0x6F, 0x75];
    assert IsMarkPosition(s, 1) by {
      assert FirstClaim(s, 2) by { assert !Claims(s, 0) && !Claims(s, 1); }
    }
    assert s + [0x33] + [] == [0x67, 0x6F, 0x75, 0x33];
    var r := ExampleSyllable(s, 0x33, [], m, 1);
    assert r == [0x67, Pinyin.SmallOCaron, 0x75] by {
      assert m(0x6F, 3) == Pinyin.SmallOCaron;
    }
    assert PlaceTones([], m) == Ok([]);
    assert r + [] == r;
  }

  /** "xiong2" becomes "xióng": nothing claims the mark, so the last vowel
      takes it. */
  lemma ExampleXiong()
    ensures PlaceTones([0x78, 0x69, 0x6F, 0x6E, 0x67, 0x32], Pinyin.ToneMapFixed)
         == Ok([0x78, 0x69, Pinyin.SmallOAcute, 0x6E, 0x67])
  {
    var m := Pinyin.ToneMapFixed;
    var s: seq<Wide> := [0x78, 0x69, 0x6F, 0x6E, 0x67];
    assert IsMarkPosition(s, 2) by {
      assert forall i :: 0 <= i < |s| ==> !Claims(s, i) by {
        forall i | 0 <= i < |s| ensures !Claims(s, i) {
          assert !IsAOrE(s[i]) && !IsU(s[i]);
        }
      }
      assert LastVowelAt(s, 2);
    }
    assert s + [0x32] + [] == [0x78, 0x69, 0x6F, 0x6E, 0x67, 0x32];
    var r := ExampleSyllable(s, 0x32, [], m, 2);
    assert r == [0x78, 0x69, Pinyin.SmallOAcute, 0x6E, 0x67] by {
      assert m(0x6F, 2) == Pinyin.SmallOAcute;
    }
    assert PlaceTones([], m) == Ok([]);
    assert r + [] == r;
  }

  /** With the source's sum-keyed `tonemap` the neutral tone of "ma5"
      turns the a into e-macron; the corrected mapping leaves it alone. */
  lemma ExampleNeutralTone()
    ensures PlaceTones([0x6D, 0x61, 0x35], Pinyin.ToneMap) == Ok([0x6D, Pinyin.SmallEMacron])
    ensures PlaceTones([0x6D, 0x61, 0x35], Pinyin.ToneMapFixed) == Ok([0x6D, 0x61])
  {
    var ma: seq<Wide> := [0x6D, 0x61];
    assert IsMarkPosition(ma, 1) by {
      assert FirstClaim(ma, 1) by { assert !Claims(ma, 0); }
    }
    assert ma + [0x35] + [] == [0x6D, 0x61, 0x35];
    assert PlaceTones([], Pinyin.ToneMap) == Ok([]) && PlaceTones([], Pinyin.ToneMapFixed) == Ok([]);
    Pinyin.NeutralToneLeak();
    var r1 := ExampleSyllable(ma, 0x35, [], Pinyin.ToneMap, 1);
    assert r1 == [0x6D, Pinyin.SmallEMacron] && r1 + [] == r1;
    var r2 := ExampleSyllable(ma, 0x35, [], Pinyin.ToneMapFixed, 1);
    assert r2 == ma && r2 + [] == r2;
  }

  /** With the source's `tonemap`, "ng2" puts an o-macron in place of the
      n, because n + 2 is the key of o with tone 1. Stripping the accents
      then gives "og", not the letters "ng" that were read: the letters are
      kept only with the corrected mapping. */
  lemma ExampleConsonant()
    ensures PlaceTones([0x6E, 0x67, 0x32], Pinyin.ToneMap) == Ok([Pinyin.SmallOMacron, 0x67])
    ensures Letters(Unmark(PlaceTones([0x6E, 0x67, 0x32], Pinyin.ToneMap).value)) != Letters([0x6E, 0x67, 0x32])
  {
    var ng := NgMarkPosition();
    Pinyin.ConsonantLeak();
    var r := ExampleSyllable(ng, 0x32, [], Pinyin.ToneMap, 0);
    assert r == [Pinyin.SmallOMacron, 0x67] && r + [] == r;
    ConsonantLettersLost();
  }

  /** The corrected mapping leaves the consonant alone. */
  lemma ExampleConsonantFixed()
    ensures PlaceTones([0x6E, 0x67, 0x32], Pinyin.ToneMapFixed) == Ok([0x6E, 0x67])
  {
    var ng := NgMarkPosition();
    var r := ExampleSyllable(ng, 0x32, [], Pinyin.ToneMapFixed, 0);
    assert r == ng && r + [] == r;
  }

  lemma NgMarkPosition() returns (ng: seq<Wide>)
    ensures ng == [0x6E, 0x67] && IsMarkPosition(ng, 0)
    ensures ng + [0x32] + [] == [0x6E, 0x67, 0x32]
    ensures PlaceTones([], Pinyin.ToneMap) == Ok([]) && PlaceTones([], Pinyin.ToneMapFixed) == Ok([])
  {
    ng := [0x6E, 0x67];
    assert !Claims(ng, 0) && !Claims(ng, 1);
    assert LastVowelAt(ng, 0);
  }

  lemma ConsonantLettersLost()
    ensures Letters(Unmark([Pinyin.SmallOMacron, 0x67])) != Letters([0x6E, 0x67, 0x32])
  {
    assert Unmark([Pinyin.SmallOMacron, 0x67])[0] == Pinyin.SmallO;
    assert Letters(Unmark([Pinyin.SmallOMacron, 0x67]))[0] == Pinyin.SmallO;
    assert Letters([0x6E, 0x67, 0x32])[0] == 0x6E;
  }

  /** The three ways a syllable aborts the source: tone digit 0, a digit
      with no letters before it, and a ':' after something other than a
      lower-case u. */
  lemma ExampleErrors(mark: MarkRule)
    ensures PlaceTones([0x6D, 0x61, 0x30], mark) == Err(ToneOutOfRange(0))
    ensures PlaceTones([0x33], mark) == Err(EmptySyllable)
    ensures PlaceTones([0x6F, 0x3A], mark) == Err(MisplacedDiaeresis)
    ensures PlaceTones([0x55, 0x3A], mark) == Err(MisplacedDiaeresis)
  {
    ToneDigitErrors([0x6D, 0x61], 0x30, [], mark);
    assert [0x6D, 0x61] + [0x30] + [] == [0x6D, 0x61, 0x30];
    ToneDigitErrors([], 0x33, [], mark);
    assert [] + [0x33] + [] == [0x33];
    ColonRewrite([0x6F], [], mark);
    assert [0x6F] + [Colon] + [] == [0x6F, 0x3A];
    ColonRewrite([0x55], [], mark);
    assert [0x55] + [Colon] + [] == [0x55, 0x3A];
  }

  /** "lu:4" becomes "lǜ": the ':' turns the u into u-diaeresis, which then
      takes the mark as the last vowel. */
  lemma ExampleDiaeresis()
    ensures PlaceTones([0x6C, 0x75, 0x3A, 0x34], Pinyin.ToneMapFixed) == Ok([0x6C, Pinyin.SmallUDiaeresisGrave])
  {
    var m := Pinyin.ToneMapFixed;
    var lu: seq<Wide> := [0x6C, 0x75];
    ColonRewrite(lu, [0x34], m);
    assert lu + [Colon] + [0x34] == [0x6C, 0x75, 0x3A, 0x34];
    ScanClaims(lu);
    assert !Claims(lu, 0) && !Claims(lu, 1);
    var st := Scan([0x6C, Pinyin.SmallUDiaeresis], None);
    assert lu[..1] + [Pinyin.SmallUDiaeresis] == st.syllable;
    assert Fold(Start, lu).tonepos == None;
    assert TonePosition(st) == Some(1);
    DigitStep(st, 0x34, [], m);
    assert [0x34] + [] == [0x34];
    assert m(Pinyin.SmallUDiaeresis, 4) == Pinyin.SmallUDiaeresisGrave;
    var out: seq<Wide> := [0x6C, Pinyin.SmallUDiaeresisGrave];
    assert ReadSyllable([0x6C, 0x75, 0x3A, 0x34], Start, m) == ReadSyllable([0x34], st, m);
    assert st.syllable[1 := m(st.syllable[1], 4)] == out;
    assert ReadSyllable([0x34], st, m) == Ok(Read(out, []));
    assert PlaceTones([], m) == Ok([]);
    assert out + [] == out;
  }

  /** Evaluates one syllable of an example, given the position the rule
      picks. */
  lemma ExampleSyllable(s: seq<Wide>, d: Wide, rest: seq<Wide>, mark: MarkRule, p: nat) returns (marked: seq<Wide>)
    requires Appendable(s) && s != [] && !IsSpace(s[0])
    requires IsDigit(d) && 1 <= d - Zero <= 5
    requires p < |s| && IsMarkPosition(s, p)
    ensures marked == s[p := mark(s[p], d - Zero)]
    ensures PlaceTones(s + [d] + rest, mark)
         == match PlaceTones(rest, mark)
            case Ok(more) => Ok(marked + more)
            case Err(e) => Err(e)
  {
    var q := PlaceTonesSyllable(s, d, rest, mark);
    MarkPositionUnique(s, p, q);
    marked := s[p := mark(s[p], d - Zero)];
  }
}
