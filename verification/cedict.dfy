/** The CC-CEDICT converter of tools/cedict.cpp: every entry line
    `traditional simplified [pin1 yin1] /definition/.../` becomes a line
    `traditional|simplified|pīnyīn|definition / ...` of the program's own
    dictionary format.

    The input file is the sequence of lines `std::getline` reads; opening
    the files, the progress counter and the messages on standard error are
    left out. A failed `assert` aborts the source in a debug build; here it
    is the `Aborted` outcome. */
module Cedict {
  import opened Chars
  import opened Wrappers
  import Seqs
  import Utf8
  import Pinyin
  import ToneMarks

  /** `struct word`: the four fields `parse_word` fills in. */
  datatype Word = Word(traditional: seq<Byte>, simplified: seq<Byte>, pinyin: seq<Byte>, definition: seq<Byte>)

  // ---------------------------------------------------------------- parse_word

  /** The characters of the headword fields: anything but CR, LF and
      space. */
  predicate IsNameChar(c: Byte) {
    c != CarriageReturn && c != LineFeed && c != Space
  }

  /** The characters of the pinyin field: anything but CR, LF and ']'. */
  predicate IsPinyinChar(c: Byte) {
    c != CarriageReturn && c != LineFeed && c != RightBracket
  }

  /** The length of the longest run at the front of `s` whose characters
      satisfy `ok`: a greedy Kleene star. */
  function Span(s: seq<Byte>, ok: Byte -> bool): (n: nat)
    ensures n <= |s|
    ensures forall k :: 0 <= k < n ==> ok(s[k])
    ensures n < |s| ==> !ok(s[n])
  {
    if s == [] || !ok(s[0]) then 0 else 1 + Span(s[1..], ok)
  }

  /** `*field >> ch_p(sep)`: the greedy run of `ok` characters, which the
      separator must follow; the field and what comes after the
      separator. */
  function Field(s: seq<Byte>, ok: Byte -> bool, sep: Byte): Option<(seq<Byte>, seq<Byte>)>
  {
    var n := Span(s, ok);
    if n == |s| || s[n] != sep then None else Some((s[..n], s[n + 1..]))
  }

  /** `!ch_p('/') >> (*anychar_p)`: the optional slash is skipped, all the
      rest is the definition. */
  function Definition(s: seq<Byte>): seq<Byte>
  {
    if s != [] && s[0] == Slash then s[1..] else s
  }

  /** `'[' *pinyin ']' ' ' !'/' *anychar`: the pinyin and the
      definition. */
  function Bracketed(s: seq<Byte>): Option<(seq<Byte>, seq<Byte>)>
  {
    if s == [] || s[0] != LeftBracket then None
    else
      match Field(s[1..], IsPinyinChar, RightBracket)
      case None => None
      case Some((pinyin, after)) =>
        if after == [] || after[0] != Space then None else Some((pinyin, Definition(after[1..])))
  }

  /** `parse_word`: the Spirit grammar
      `*trad ' ' *simp ' ' '[' *pinyin ']' ' ' !'/' *anychar`, every star
      greedy. Every line it accepts is the entry line of the well-formed
      word it returns. */
  function ParseWord(line: seq<Byte>): (r: Option<Word>)
    ensures r.Some? ==>
      && WellFormed(r.value)
      && (line == Render(r.value, true)
          || (line == Render(r.value, false) && (r.value.definition == [] || r.value.definition[0] != Slash)))
  {
    match Field(line, IsNameChar, Space)
    case None => None
    case Some((traditional, afterTraditional)) =>
      FieldSound(line, IsNameChar, Space);
      match Field(afterTraditional, IsNameChar, Space)
      case None => None
      case Some((simplified, afterSimplified)) =>
        FieldSound(afterTraditional, IsNameChar, Space);
        match Bracketed(afterSimplified)
        case None => None
        case Some((pinyin, definition)) =>
          BracketedSound(afterSimplified);
          Some(Word(traditional, simplified, pinyin, definition))
  }

  /** A word whose fields the grammar can delimit. */
  predicate WellFormed(w: Word) {
    && (forall i :: 0 <= i < |w.traditional| ==> IsNameChar(w.traditional[i]))
    && (forall i :: 0 <= i < |w.simplified| ==> IsNameChar(w.simplified[i]))
    && (forall i :: 0 <= i < |w.pinyin| ==> IsPinyinChar(w.pinyin[i]))
  }

  /** The part of an entry line from the bracket on. */
  function RenderBracketed(pinyin: seq<Byte>, definition: seq<Byte>, slash: bool): seq<Byte>
  {
    [LeftBracket] + (pinyin + [RightBracket] + ([Space] + (if slash then [Slash] else []) + definition))
  }

  /** The entry line a word is read from, with or without the slash that
      opens the definition. */
  function Render(w: Word, slash: bool): seq<Byte>
  {
    w.traditional + [Space] + (w.simplified + [Space] + RenderBracketed(w.pinyin, w.definition, slash))
  }

  /** A run stops at the first character outside it. */
  lemma {:induction false} SpanOfField(f: seq<Byte>, sep: Byte, rest: seq<Byte>, ok: Byte -> bool)
    requires forall i :: 0 <= i < |f| ==> ok(f[i])
    requires !ok(sep)
    ensures Span(f + [sep] + rest, ok) == |f|
    decreases |f|
  {
    if f != [] {
      assert (f + [sep] + rest)[1..] == f[1..] + [sep] + rest;
      SpanOfField(f[1..], sep, rest, ok);
    }
  }

  lemma FieldRender(f: seq<Byte>, sep: Byte, rest: seq<Byte>, ok: Byte -> bool)
    requires forall i :: 0 <= i < |f| ==> ok(f[i])
    requires !ok(sep)
    ensures Field(f + [sep] + rest, ok, sep) == Some((f, rest))
  {
    SpanOfField(f, sep, rest, ok);
    var s := f + [sep] + rest;
    assert s[|f|] == sep && s[..|f|] == f && s[|f| + 1..] == rest;
  }

  lemma FieldSound(s: seq<Byte>, ok: Byte -> bool, sep: Byte)
    requires Field(s, ok, sep).Some?
    ensures var (f, rest) := Field(s, ok, sep).value;
      && s == f + [sep] + rest
      && (forall i :: 0 <= i < |f| ==> ok(f[i]))
  {
    var n := Span(s, ok);
    assert s == s[..n] + [sep] + s[n + 1..];
  }

  lemma BracketedRender(pinyin: seq<Byte>, definition: seq<Byte>, slash: bool)
    requires forall i :: 0 <= i < |pinyin| ==> IsPinyinChar(pinyin[i])
    requires !slash ==> (definition == [] || definition[0] != Slash)
    ensures Bracketed(RenderBracketed(pinyin, definition, slash)) == Some((pinyin, definition))
  {
    var opening: seq<Byte> := if slash then [Slash] else [];
    var tail := [Space] + opening + definition;
    var s := RenderBracketed(pinyin, definition, slash);
    assert s[1..] == pinyin + [RightBracket] + tail;
    FieldRender(pinyin, RightBracket, tail, IsPinyinChar);
    assert tail[1..] == opening + definition;
  }

  /** The optional slash is either there, or the definition does not
      start with one. */
  lemma DefinitionSound(pinyin: seq<Byte>, rest: seq<Byte>)
    ensures var d := Definition(rest);
      var s := [LeftBracket] + (pinyin + [RightBracket] + ([Space] + rest));
      || s == RenderBracketed(pinyin, d, true)
      || (s == RenderBracketed(pinyin, d, false) && (d == [] || d[0] != Slash))
  {
    if rest != [] && rest[0] == Slash {
      assert rest == [Slash] + rest[1..];
    } else {
      assert rest == [] + rest;
    }
  }

  lemma BracketedSound(s: seq<Byte>)
    requires Bracketed(s).Some?
    ensures var (pinyin, definition) := Bracketed(s).value;
      && (forall i :: 0 <= i < |pinyin| ==> IsPinyinChar(pinyin[i]))
      && (s == RenderBracketed(pinyin, definition, true)
          || (s == RenderBracketed(pinyin, definition, false) && (definition == [] || definition[0] != Slash)))
  {
    var field := Field(s[1..], IsPinyinChar, RightBracket).value;
    FieldSound(s[1..], IsPinyinChar, RightBracket);
    var pinyin := field.0;
    var rest := field.1[1..];
    assert field.1 == [Space] + rest;
    assert s == [LeftBracket] + (pinyin + [RightBracket] + ([Space] + rest));
    DefinitionSound(pinyin, rest);
  }

  /** Every well-formed word is read back from its entry line, whether or
      not the definition opens with the slash (without it, the definition
      itself must not start with one). */
  lemma ParseRender(w: Word, slash: bool)
    requires WellFormed(w)
    requires !slash ==> (w.definition == [] || w.definition[0] != Slash)
    ensures ParseWord(Render(w, slash)) == Some(w)
  {
    var bracketed := RenderBracketed(w.pinyin, w.definition, slash);
    FieldRender(w.traditional, Space, w.simplified + [Space] + bracketed, IsNameChar);
    FieldRender(w.simplified, Space, bracketed, IsNameChar);
    BracketedRender(w.pinyin, w.definition, slash);
  }

  // ---------------------------------------------------------------- make_dictionary_key

  /** `make_dictionary_key`: `std::remove_if` of every digit and white-space
      byte, the other bytes kept in order; the letters `ToneMarks.Letters`
      keeps, on bytes. */
  function MakeKey(pinyin: seq<Byte>): (key: seq<Byte>)
    ensures |key| <= |pinyin|
    ensures forall i :: 0 <= i < |key| ==> !IsDigit(key[i]) && !IsSpace(key[i])
  {
    var letters := ToneMarks.Letters(pinyin);
    assert forall i :: 0 <= i < |letters| ==> letters[i] in pinyin;
    letters
  }

  /** `remove_if` keeps the order: the key of a concatenation is the
      concatenation of the keys. */
  lemma MakeKeyAppend(a: seq<Byte>, b: seq<Byte>)
    ensures MakeKey(a + b) == MakeKey(a) + MakeKey(b)
  {
    ToneMarks.LettersAppend(a, b);
  }

  /** A key comes back unchanged exactly when it holds no digit and no
      white space. */
  lemma MakeKeyUnchangedIff(s: seq<Byte>)
    ensures MakeKey(s) == s <==> forall i :: 0 <= i < |s| ==> !IsDigit(s[i]) && !IsSpace(s[i])
  {
    ToneMarks.LettersUnchangedIff(s);
  }

  /** Making a key twice is making it once. */
  lemma MakeKeyIdempotent(s: seq<Byte>)
    ensures MakeKey(MakeKey(s)) == MakeKey(s)
  {
    MakeKeyUnchangedIff(MakeKey(s));
  }

  // ---------------------------------------------------------------- make_dictionary_pinyin

  /** `make_dictionary_pinyin` with a given `decode` and a given
      `tonemap`: decode the UTF-8 pinyin, place the tone marks, and encode
      through the 16-bit `std::wstring` wrapper. */
  function PinyinWith(pinyin: seq<Byte>, four: Utf8.FourByteRule, mark: ToneMarks.MarkRule)
    : Result<seq<Byte>, ToneMarks.Error>
  {
    match ToneMarks.PlaceTones(Utf8.DecodeWith(pinyin, four).units, mark)
    case Err(e) => Err(e)
    case Ok(marked) => Ok(Utf8.EncodeWide(marked))
  }

  /** The source's `make_dictionary_pinyin`, with both defects. Its
      errors are those of the corrected conversion on input without a
      four-byte lead byte: the defects change what is written, never
      whether the conversion fails. */
  function MakeDictionaryPinyinAsWritten(pinyin: seq<Byte>): (r: Result<seq<Byte>, ToneMarks.Error>)
    ensures Utf8.NoFourByteLead(pinyin) ==> (r.Ok? <==> MakeDictionaryPinyin(pinyin).Ok?)
    ensures Utf8.NoFourByteLead(pinyin) && r.Err? ==> r == MakeDictionaryPinyin(pinyin)
  {
    Utf8.DecodeRulesAgree(pinyin, Utf8.FourByteAsWritten, Utf8.FourByteFixed);
    ToneMarks.PlaceTonesMarkFree(Utf8.DecodeWith(pinyin, Utf8.FourByteFixed).units, Pinyin.ToneMap, Pinyin.ToneMapFixed);
    PinyinWith(pinyin, Utf8.FourByteAsWritten, Pinyin.ToneMap)
  }

  /** `make_dictionary_pinyin` with the corrected decode and tone mapping.
      For plain pinyin the key and the displayed pinyin spell the same
      letters: decoding the result, taking every accent off and dropping
      the white space gives the key. */
  function MakeDictionaryPinyin(pinyin: seq<Byte>): (r: Result<seq<Byte>, ToneMarks.Error>)
    ensures PlainPinyin(pinyin) && r.Ok? ==>
      ToneMarks.Letters(ToneMarks.Unmark(Utf8.DecodeStringFixed(r.value))) == MakeKey(pinyin)
  {
    PinyinMatchesKey(pinyin);
    PinyinWith(pinyin, Utf8.FourByteFixed, Pinyin.ToneMapFixed)
  }

  /** Plain ASCII pinyin without ':', as CC-CEDICT writes it apart from
      the u-diaeresis. */
  predicate PlainPinyin(s: seq<Byte>) {
    forall i :: 0 <= i < |s| ==> s[i] < 0x80 && s[i] != Colon
  }

  lemma PlainIsUnaccented(s: seq<Byte>)
    requires PlainPinyin(s)
    ensures ToneMarks.Unaccented(s)
  {
    forall i | 0 <= i < |s|
      ensures ToneMarks.Unmark(s)[i] == s[i]
    {
      Pinyin.ToneUnmapChangesIff(s[i]);
    }
  }

  /** The partner of the key: the conversion keeps the letters of plain
      pinyin. */
  lemma {:induction false} PinyinMatchesKey(pinyin: seq<Byte>)
    ensures var r := PinyinWith(pinyin, Utf8.FourByteFixed, Pinyin.ToneMapFixed);
      PlainPinyin(pinyin) && r.Ok? ==>
        ToneMarks.Letters(ToneMarks.Unmark(Utf8.DecodeStringFixed(r.value))) == MakeKey(pinyin)
  {
    if PlainPinyin(pinyin) && PinyinWith(pinyin, Utf8.FourByteFixed, Pinyin.ToneMapFixed).Ok? {
      Utf8.AsciiDecodes(pinyin);
      assert Utf8.DecodeWith(pinyin, Utf8.FourByteFixed).units == pinyin;
      var marked := ToneMarks.PlaceTones(pinyin, Pinyin.ToneMapFixed).value;
      PlainIsUnaccented(pinyin);
      ToneMarks.PlaceTonesKeepsLetters(pinyin);
      ToneMarks.PlaceTonesBmp(pinyin);
      Utf8.WideRoundTrip(marked);
      Utf8.Truncate16Bmp(marked);
    }
  }

  /** With the sum-keyed `tonemap` the key and the displayed pinyin
      disagree: "ng2" is keyed "ng" but shown as "ōg" (UTF-8 C5 8D 67),
      while the corrected conversion shows "ng". */
  lemma AsWrittenKeyMismatch()
    ensures MakeKey([0x6E, 0x67, 0x32]) == [0x6E, 0x67]
    ensures MakeDictionaryPinyinAsWritten([0x6E, 0x67, 0x32]) == Ok([0xC5, 0x8D, 0x67])
    ensures MakeDictionaryPinyin([0x6E, 0x67, 0x32]) == Ok([0x6E, 0x67])
  {
    NgAsWritten();
    NgFixed();
  }

  lemma NgAsWritten()
    ensures MakeDictionaryPinyinAsWritten([0x6E, 0x67, 0x32]) == Ok([0xC5, 0x8D, 0x67])
  {
    var p: seq<Byte> := [0x6E, 0x67, 0x32];
    NgDecodes();
    assert Utf8.DecodeWith(p, Utf8.FourByteAsWritten).units == p;
    ToneMarks.ExampleConsonant();
    var shown: seq<Wide> := [Pinyin.SmallOMacron, 0x67];
    assert ToneMarks.PlaceTones(p, Pinyin.ToneMap) == Ok(shown);
    NgEncodes();
    assert PinyinWith(p, Utf8.FourByteAsWritten, Pinyin.ToneMap) == Ok(Utf8.EncodeWide(shown));
  }

  lemma NgFixed()
    ensures MakeDictionaryPinyin([0x6E, 0x67, 0x32]) == Ok([0x6E, 0x67])
  {
    var p: seq<Byte> := [0x6E, 0x67, 0x32];
    NgDecodes();
    assert Utf8.DecodeWith(p, Utf8.FourByteFixed).units == p;
    ToneMarks.ExampleConsonantFixed();
    var shown: seq<Wide> := [0x6E, 0x67];
    assert ToneMarks.PlaceTones(p, Pinyin.ToneMapFixed) == Ok(shown);
    NgEncodes();
    assert PinyinWith(p, Utf8.FourByteFixed, Pinyin.ToneMapFixed) == Ok(Utf8.EncodeWide(shown));
  }

  lemma NgDecodes()
    ensures Utf8.DecodeWith([0x6E, 0x67, 0x32], Utf8.FourByteAsWritten).units == [0x6E, 0x67, 0x32]
    ensures Utf8.DecodeWith([0x6E, 0x67, 0x32], Utf8.FourByteFixed).units == [0x6E, 0x67, 0x32]
  {
    var p: seq<Byte> := [0x6E, 0x67, 0x32];
    Utf8.AsciiIdentity(p);
    Utf8.RoundTripAsWritten(p);
  }

  lemma NgEncodes()
    ensures Utf8.EncodeWide([Pinyin.SmallOMacron, 0x67]) == [0xC5, 0x8D, 0x67]
    ensures Utf8.EncodeWide([0x6E, 0x67]) == [0x6E, 0x67]
  {
    var shown: seq<Wide> := [Pinyin.SmallOMacron, 0x67];
    Utf8.Truncate16Bmp(shown);
    Utf8.Truncate16Bmp([0x6E, 0x67]);
    assert Utf8.EncodeUnit(Pinyin.SmallOMacron) == [0xC5, 0x8D];
    assert Utf8.Encode(shown) == Utf8.EncodeUnit(Pinyin.SmallOMacron) + Utf8.Encode([0x67]);
    Utf8.AsciiIdentity([0x67]);
    Utf8.AsciiIdentity([0x6E, 0x67]);
  }

  // ---------------------------------------------------------------- make_dictionary_definition

  /** Every slash of the definition written as " / ", all other bytes
      copied. */
  function Expand(s: seq<Byte>): (r: seq<Byte>)
    ensures |r| == |s| + 2 * multiset(s)[Slash]
    ensures Slash !in s ==> r == s
  {
    if s == [] then []
    else
      assert s == [s[0]] + s[1..];
      (if s[0] == Slash then [Space, Slash, Space] else [s[0]]) + Expand(s[1..])
  }

  lemma {:induction false} ExpandAppend(a: seq<Byte>, b: seq<Byte>)
    ensures Expand(a + b) == Expand(a) + Expand(b)
    decreases |a|
  {
    if a == [] {
      assert a + b == b;
    } else {
      assert (a + b)[1..] == a[1..] + b;
      ExpandAppend(a[1..], b);
    }
  }

  lemma {:induction false} ExpandJoin(parts: seq<seq<Byte>>)
    requires forall i :: 0 <= i < |parts| ==> Slash !in parts[i]
    ensures Expand(Seqs.Join(parts, [Slash])) == Seqs.Join(parts, [Space, Slash, Space])
    decreases |parts|
  {
    if |parts| >= 2 {
      var tail := Seqs.Join(parts[1..], [Slash]);
      ExpandAppend(parts[0] + [Slash], tail);
      ExpandAppend(parts[0], [Slash]);
      assert Expand([Slash]) == [Space, Slash, Space];
      ExpandJoin(parts[1..]);
    }
  }

  /** The sense separator: the pieces between slashes, joined with " / ". */
  lemma ExpandIsJoin(s: seq<Byte>)
    ensures Expand(s) == Seqs.Join(Seqs.Split(s, Slash), [Space, Slash, Space])
  {
    ExpandJoin(Seqs.Split(s, Slash));
  }

  /** `make_dictionary_definition`: the definition must end with '/' (the
      source's `assert`; on an empty definition `back()` is undefined and
      the same error is reported); that slash is dropped and the rest
      expanded. */
  function MakeDictionaryDefinition(s: seq<Byte>): (r: Option<seq<Byte>>)
    ensures r.Some? <==> s != [] && s[|s| - 1] == Slash
  {
    if s == [] || s[|s| - 1] != Slash then None else Some(Expand(s[..|s| - 1]))
  }

  /** The senses `/a/b/` of an entry come out as `a / b`. */
  lemma DefinitionSenses(senses: seq<seq<Byte>>)
    requires |senses| >= 1
    requires forall i :: 0 <= i < |senses| ==> Slash !in senses[i]
    ensures MakeDictionaryDefinition(Seqs.Join(senses, [Slash]) + [Slash])
         == Some(Seqs.Join(senses, [Space, Slash, Space]))
  {
    var s := Seqs.Join(senses, [Slash]) + [Slash];
    assert s[..|s| - 1] == Seqs.Join(senses, [Slash]);
    ExpandJoin(senses);
  }

  // ---------------------------------------------------------------- process_word

  /** Why a word cannot be converted. */
  datatype Failure =
    | BadPinyin(error: ToneMarks.Error)   // an assert of make_dictionary_pinyin
    | UnterminatedDefinition              // the assert of make_dictionary_definition

  /** `process_word`: the line `trad|simp|pinyin|definition` and a newline.
      The key the source computes first is never written. */
  function ProcessWord(w: Word): (r: Result<seq<Byte>, Failure>)
    ensures r.Ok? <==> MakeDictionaryPinyin(w.pinyin).Ok? && MakeDictionaryDefinition(w.definition).Some?
    ensures MakeDictionaryPinyin(w.pinyin).Err? ==> r == Err(BadPinyin(MakeDictionaryPinyin(w.pinyin).error))
    ensures MakeDictionaryPinyin(w.pinyin).Ok? && (w.definition == [] || w.definition[|w.definition| - 1] != Slash)
            ==> r == Err(UnterminatedDefinition)
    ensures r.Ok? ==> |r.value| > 0 && r.value[|r.value| - 1] == LineFeed
  {
    match MakeDictionaryPinyin(w.pinyin)
    case Err(e) => Err(BadPinyin(e))
    case Ok(pin) =>
      match MakeDictionaryDefinition(w.definition)
      case None => Err(UnterminatedDefinition)
      case Some(def) => Ok(OutputLine(w.traditional, w.simplified, pin, def))
  }

  function OutputLine(traditional: seq<Byte>, simplified: seq<Byte>, pinyin: seq<Byte>, definition: seq<Byte>)
    : seq<Byte>
  {
    traditional + [Pipe] + simplified + [Pipe] + pinyin + [Pipe] + definition + [LineFeed]
  }

  /** The partner of the output line: splitting it on '|' gives the four
      fields back, provided none of them holds a '|'. */
  lemma OutputLineSplits(fields: seq<seq<Byte>>)
    requires |fields| == 4
    requires forall i :: 0 <= i < 4 ==> Pipe !in fields[i]
    ensures var line := OutputLine(fields[0], fields[1], fields[2], fields[3]);
      && line[|line| - 1] == LineFeed
      && Seqs.Split(line[..|line| - 1], Pipe) == fields
  {
    var line := OutputLine(fields[0], fields[1], fields[2], fields[3]);
    assert line[..|line| - 1] == Seqs.Join(fields, [Pipe]) by {
      assert Seqs.Join(fields[3..], [Pipe]) == fields[3];
      assert Seqs.Join(fields[2..], [Pipe]) == fields[2] + [Pipe] + fields[3];
      assert Seqs.Join(fields[1..], [Pipe]) == fields[1] + [Pipe] + (fields[2] + [Pipe] + fields[3]);
    }
    Seqs.SplitJoin(fields, Pipe);
  }

  /** The line `process_word` writes is `trad|simp|pinyin|definition`
      and a newline: split on '|', it gives back the traditional and
      simplified headwords, the converted pinyin and the expanded
      definition, provided none of them holds a '|'. */
  lemma ProcessWordLine(w: Word)
    requires ProcessWord(w).Ok?
    requires Pipe !in w.traditional && Pipe !in w.simplified
    requires Pipe !in MakeDictionaryPinyin(w.pinyin).value
    requires Pipe !in MakeDictionaryDefinition(w.definition).value
    ensures var line := ProcessWord(w).value;
      && line[|line| - 1] == LineFeed
      && Seqs.Split(line[..|line| - 1], Pipe)
         == [w.traditional, w.simplified, MakeDictionaryPinyin(w.pinyin).value,
             MakeDictionaryDefinition(w.definition).value]
  {
    var fields := [w.traditional, w.simplified, MakeDictionaryPinyin(w.pinyin).value,
                   MakeDictionaryDefinition(w.definition).value];
    OutputLineSplits(fields);
  }

  // ---------------------------------------------------------------- main

  /** How the conversion loop ends. */
  datatype Status =
    | Done                            // the input ran out
    | ParseFailed(line: seq<Byte>)    // "Failed to parse", exit code 1
    | Aborted(failure: Failure)       // a failed assert

  /** What was handed to the output stream before the loop ended, and how
      it ended. On `Aborted` this is not what reaches the file: `abort()`
      ends the process without flushing the `std::ofstream`, so a buffered
      part of it may be lost. */
  datatype Outcome = Outcome(output: seq<Byte>, status: Status)

  /** One trailing carriage return is removed. */
  function StripReturn(line: seq<Byte>): (r: seq<Byte>)
    ensures r == line || (line == r + [CarriageReturn])
    ensures |line| > 0 && line[|line| - 1] == CarriageReturn ==> |r| == |line| - 1
  {
    if |line| > 0 && line[|line| - 1] == CarriageReturn then line[..|line| - 1] else line
  }

  /** Empty lines and '#' comments are skipped. */
  predicate Skipped(line: seq<Byte>) {
    line == [] || line[0] == Hash
  }

  /** One line of the loop of `main`: what it writes, or how it ends the
      loop. */
  function ConvertLine(line: seq<Byte>): (r: Result<seq<Byte>, Status>)
    ensures Skipped(line) ==> r == Ok([])
    ensures r.Err? ==> r.error != Done
  {
    if Skipped(line) then Ok([])
    else
      var stripped := StripReturn(line);
      match ParseWord(stripped)
      case None => Err(ParseFailed(stripped))
      case Some(w) =>
        match ProcessWord(w)
        case Err(f) => Err(Aborted(f))
        case Ok(out) => Ok(out)
  }

  /** The loop of `main` over what its lines give, in order: each line's
      output is written, and the first line that ends the loop ends it. */
  function Run(results: seq<Result<seq<Byte>, Status>>): (o: Outcome)
    ensures results == [] ==> o == Outcome([], Done)
    ensures LineResults(results) ==> (o.status == Done <==> forall i :: 0 <= i < |results| ==> results[i].Ok?)
  {
    if results == [] then Outcome([], Done)
    else
      match results[0]
      case Err(status) => Outcome([], status)
      case Ok(out) =>
        assert forall i :: 1 <= i < |results| ==> results[i] == results[1..][i - 1];
        var more := Run(results[1..]);
        Outcome(out + more.output, more.status)
  }

  /** Results a line can give: only the end of the input is `Done`. */
  predicate LineResults(results: seq<Result<seq<Byte>, Status>>) {
    forall i :: 0 <= i < |results| ==> results[i] != Err(Done)
  }

  /** What each line gives. */
  function Results(lines: seq<seq<Byte>>): (r: seq<Result<seq<Byte>, Status>>)
    ensures |r| == |lines|
    ensures forall i :: 0 <= i < |lines| ==> r[i] == ConvertLine(lines[i])
  {
    seq(|lines|, i requires 0 <= i < |lines| => ConvertLine(lines[i]))
  }

  /** The loop of `main` over the lines `std::getline` returns: skip,
      strip, parse, process, and stop at the first line that fails. */
  function Convert(lines: seq<seq<Byte>>): (o: Outcome)
    ensures lines == [] ==> o == Outcome([], Done)
    ensures o.status == Done <==> forall i :: 0 <= i < |lines| ==> ConvertLine(lines[i]).Ok?
  {
    Run(Results(lines))
  }

  /** A line ended by "\r\n" converts like the same line ended by '\n'
      alone. */
  lemma ConvertLineCrlf(line: seq<Byte>)
    requires !Skipped(line) && line[|line| - 1] != CarriageReturn
    ensures ConvertLine(line + [CarriageReturn]) == ConvertLine(line)
  {
    var crlf := line + [CarriageReturn];
    assert !Skipped(crlf) by {
      assert crlf[0] == line[0];
    }
    assert StripReturn(crlf) == line;
  }

  /** A line that is not skipped and does not parse ends the run: it
      writes nothing and reports the line without its '\r'. */
  lemma ConvertLineParseFails(line: seq<Byte>)
    requires !Skipped(line) && ParseWord(StripReturn(line)).None?
    ensures ConvertLine(line) == Err(ParseFailed(StripReturn(line)))
  {
  }

  /** After the lines before it converted, a line that does not parse
      stops the run: what was written stays, and the lines after it are
      never read. */
  lemma ConvertStopsAtBadLine(before: seq<seq<Byte>>, line: seq<Byte>, after: seq<seq<Byte>>)
    requires Convert(before).status == Done
    requires !Skipped(line) && ParseWord(StripReturn(line)).None?
    ensures Convert(before + [line] + after) == Outcome(Convert(before).output, ParseFailed(StripReturn(line)))
  {
    ConvertLineParseFails(line);
    assert before + [line] + after == before + ([line] + after);
    ConvertAppend(before, [line] + after);
    assert Results([line] + after)[0] == ConvertLine(line);
    assert Convert(before).output + [] == Convert(before).output;
  }

  /** Running two runs of results: when the first finishes, the outputs
      are concatenated; when it stops, the second is never looked at. */
  lemma {:induction false} RunAppend(a: seq<Result<seq<Byte>, Status>>, b: seq<Result<seq<Byte>, Status>>)
    requires LineResults(a)
    ensures var first := Run(a);
      Run(a + b) == if first.status == Done
                    then Outcome(first.output + Run(b).output, Run(b).status)
                    else first
    decreases |a|
  {
    if a == [] {
      assert a + b == b;
    } else {
      Seqs.AppendFront(a, b);
      match a[0]
      case Err(status) =>
      case Ok(out) =>
        assert LineResults(a[1..]) by {
          assert forall i :: 0 <= i < |a| - 1 ==> a[1..][i] == a[i + 1];
        }
        RunAppend(a[1..], b);
        var tail := Run(a[1..]);
        if tail.status == Done {
          assert out + (tail.output + Run(b).output) == out + tail.output + Run(b).output;
        }
    }
  }

  /** Converting two runs of lines: when the first finishes, the outputs
      are concatenated; when it stops, the second is never read. */
  lemma ConvertAppend(a: seq<seq<Byte>>, b: seq<seq<Byte>>)
    ensures var first := Convert(a);
      Convert(a + b) == if first.status == Done
                        then Outcome(first.output + Convert(b).output, Convert(b).status)
                        else first
  {
    ResultsAppend(a, b);
    ResultsNeverDone(a);
    RunAppend(Results(a), Results(b));
  }

  lemma ResultsAppend(a: seq<seq<Byte>>, b: seq<seq<Byte>>)
    ensures Results(a + b) == Results(a) + Results(b)
  {
    var r, ra, rb := Results(a + b), Results(a), Results(b);
    forall i | 0 <= i < |r|
      ensures r[i] == (ra + rb)[i]
    {
      if i < |a| {
        assert (a + b)[i] == a[i];
      } else {
        assert (a + b)[i] == b[i - |a|];
      }
    }
  }

  /** No line reports that the input ran out. */
  lemma ResultsNeverDone(lines: seq<seq<Byte>>)
    ensures LineResults(Results(lines))
  {
    var r := Results(lines);
    forall i | 0 <= i < |r|
      ensures r[i] != Err(Done)
    {
      assert r[i] == ConvertLine(lines[i]);
    }
  }

  /** The lines of a run of entries, each written with the opening slash
      of its definition. */
  function EntryLines(words: seq<Word>): (lines: seq<seq<Byte>>)
    ensures |lines| == |words|
    ensures forall i :: 0 <= i < |words| ==> lines[i] == Render(words[i], true)
  {
    seq(|words|, i requires 0 <= i < |words| => Render(words[i], true))
  }

  /** A word whose entry line is read back: its fields can be delimited
      and the line is not taken for a comment. */
  predicate Readable(w: Word) {
    && WellFormed(w)
    && (w.traditional == [] || w.traditional[0] != Hash)
  }

  /** The outputs of a run of words, one line each. */
  function Outputs(words: seq<Word>): seq<Byte>
    requires forall i :: 0 <= i < |words| ==> ProcessWord(words[i]).Ok?
  {
    if words == [] then [] else ProcessWord(words[0]).value + Outputs(words[1..])
  }

  /** The entry line of a convertible word gives the word's output line. */
  lemma EntryLineGives(w: Word)
    requires Readable(w) && ProcessWord(w).Ok?
    ensures ConvertLine(Render(w, true)) == Ok(ProcessWord(w).value)
  {
    var line := Render(w, true);
    EntryLineShape(w);
    assert StripReturn(line) == line;
    ParseRender(w, true);
  }

  lemma {:induction false} EntryLineConverts(w: Word)
    requires Readable(w) && ProcessWord(w).Ok?
    ensures Convert([Render(w, true)]) == Outcome(ProcessWord(w).value, Done)
  {
    var line := Render(w, true);
    EntryLineGives(w);
    var results := Results([line]);
    assert results == [Ok(ProcessWord(w).value)];
    assert results[1..] == [];
    assert ProcessWord(w).value + [] == ProcessWord(w).value;
  }

  /** The converter round trip: the entry lines of convertible words are
      read back and each word's output line is written, in order. */
  lemma {:induction false} ConvertEntries(words: seq<Word>)
    requires forall i :: 0 <= i < |words| ==> Readable(words[i])
    requires forall i :: 0 <= i < |words| ==> ProcessWord(words[i]).Ok?
    ensures Convert(EntryLines(words)) == Outcome(Outputs(words), Done)
    decreases |words|
  {
    if words != [] {
      var first, rest := [Render(words[0], true)], EntryLines(words[1..]);
      EntryLinesCons(words);
      ConvertAppend(first, rest);
      EntryLineConverts(words[0]);
      ConvertEntries(words[1..]);
      assert Outputs(words) == ProcessWord(words[0]).value + Outputs(words[1..]);
    }
  }

  /** Every line followed by a carriage return, as a file with "\r\n"
      line ends reads. */
  function WithReturns(lines: seq<seq<Byte>>): (r: seq<seq<Byte>>)
    ensures |r| == |lines|
    ensures forall i :: 0 <= i < |lines| ==> r[i] == lines[i] + [CarriageReturn]
  {
    seq(|lines|, i requires 0 <= i < |lines| => lines[i] + [CarriageReturn])
  }

  /** Lines ended by "\r\n" convert like the same lines ended by '\n'. */
  lemma ConvertCrlf(lines: seq<seq<Byte>>)
    requires forall i :: 0 <= i < |lines| ==> !Skipped(lines[i]) && lines[i][|lines[i]| - 1] != CarriageReturn
    ensures Convert(WithReturns(lines)) == Convert(lines)
  {
    forall i | 0 <= i < |lines|
      ensures ConvertLine(lines[i] + [CarriageReturn]) == ConvertLine(lines[i])
    {
      ConvertLineCrlf(lines[i]);
    }
    assert Results(WithReturns(lines)) == Results(lines);
  }

  /** The entry line of a convertible word is not skipped and does not end
      in a carriage return: it ends in the definition's final slash. */
  lemma EntryLineShape(w: Word)
    requires Readable(w) && ProcessWord(w).Ok?
    ensures var line := Render(w, true);
      !Skipped(line) && line[|line| - 1] != CarriageReturn
  {
    var line := Render(w, true);
    assert line[|line| - 1] == w.definition[|w.definition| - 1];
    if w.traditional == [] {
      assert line[0] == Space;
    } else {
      assert line[0] == w.traditional[0];
    }
  }

  /** The converter round trip for a file with "\r\n" line ends: the
      carriage returns are dropped and the same lines are written. */
  lemma ConvertEntriesCrlf(words: seq<Word>)
    requires forall i :: 0 <= i < |words| ==> Readable(words[i])
    requires forall i :: 0 <= i < |words| ==> ProcessWord(words[i]).Ok?
    ensures Convert(WithReturns(EntryLines(words))) == Outcome(Outputs(words), Done)
  {
    var lines := EntryLines(words);
    forall i | 0 <= i < |lines|
      ensures !Skipped(lines[i]) && lines[i][|lines[i]| - 1] != CarriageReturn
    {
      EntryLineShape(words[i]);
    }
    ConvertCrlf(lines);
    ConvertEntries(words);
  }

  lemma EntryLinesCons(words: seq<Word>)
    requires words != []
    ensures EntryLines(words) == [Render(words[0], true)] + EntryLines(words[1..])
  {
  }
}
