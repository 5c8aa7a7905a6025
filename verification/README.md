# pinyin-translator, modelled in Dafny

pinyin-translator is a Chinese–English dictionary and input helper. Its core
consists of the following parts:

- the pinyin tone-mark tables (`pinyin.h`);
- the CC-CEDICT converter tool, with its tone-mark placement rule
  (`tools/cedict.cpp`);
- the UTF-8 codec the tool uses (`tools/utf8.h`);
- two generations of the dictionary store (`dictionary.cpp`, and the API
  declared in `dictionary.h`);
- the character frequency table loader (`freqtable.cpp`);
- the `_1`, `_2`, … placeholder formatter (`format.h`);
- the typing game (`invaders/game.cpp`).

This project models each part as pure functions over immutable values and
proves what the code and its comments promise. It also proves where the code
falls short of those promises.

The modules:

| module | file | models |
|---|---|---|
| `Chars` | chars.dfy | bytes, 32-bit `wchar_t`, `std::isdigit` and `std::isspace` in the C locale |
| `Wrappers` | wrappers.dfy | `Option` and `Result` |
| `Seqs` | seqs.dfy | `QString::split`, `QString::replace` (replace-all), and joining |
| `Numbers` | numbers.dfy | `QString("%1").arg(n)` and `QString::toLongLong` |
| `TextStream` | text_stream.dfy | `QTextStream::readLine` until `atEnd` |
| `Pinyin` | pinyin.dfy | `tonemap`, `toneunmap`, `is_vowel` and the code-point constants |
| `Utf8` | utf8.dfy | `utf8::encode` and `utf8::decode`, with their string wrappers |
| `ToneMarks` | tonemarks.dfy | the syllable scan of `make_dictionary_pinyin` |
| `Cedict` | cedict.dfy | `parse_word`, the key, the pinyin, the definition, `process_word` and the loop of `main` |
| `Multimap` | multimap.dfy | `std::multimap<QString, V>` as a key-ordered sequence |
| `LegacyDictionary` | legacy_dictionary.dfy | the multimap dictionary of `dictionary.cpp` |
| `DictionaryIndex` | dictionary_index.dfy | the `index_`/`words_` dictionary declared in `dictionary.h` |
| `FreqTable` | freqtable.dfy | `freqtable::load` |
| `Format` | format.dfy | `format`, `detail::key`, `detail::format_arg`, `str` and `utf8` |
| `Invaders` | invaders.dfy | `Game`'s constructor, `tick`, `fire` and `play` |

How the model represents the program:

- **Files and randomness are inputs.** A file is the text it holds, and a
  file that cannot be opened is `None`.
- **A thrown exception or failed `assert` is an error value.** The source's
  `assert`s abort a debug build; here they are error results.
- **Game callbacks are returned, not made.** The game's callbacks come back
  as a list of events. What the level spawns and what `std::rand` returns
  are parameters.

## Model

| member | source | states |
|---|---|---|
| Pinyin.ToneMap | pinyin.h:118-199 | when `vowel + tone` is no table key the letter comes back unchanged, and a key that is found never yields a plain vowel |
| Pinyin.Marks | pinyin.h:34-97 | the twelve plain vowels have four accented forms each; no other character has any |
| Pinyin.ToneMapFixed | pinyin.h:114-116 | the intended pair-keyed map: a vowel with tone 1 to 4 becomes a different, non-vowel letter; tone 5 and every other pair leave the letter alone |
| Pinyin.ToneMapAgrees | pinyin.h:120-196 | on the twelve vowels with tones 1 to 4, the sum-keyed lookup gives the listed macron, acute, caron or grave letter |
| Pinyin.ToneMapInjective | pinyin.h:36-97 | each of the 48 accented letters decomposes back into the one (vowel, tone) pair that produced it, so they are pairwise distinct |
| Pinyin.ToneUnmapRoundTrip | pinyin.h:202-280 | removing the accent of a, e, i, o or u (either case) with tone 1 to 4 gives the vowel back |
| Pinyin.ToneUnmapLosesDiaeresis | pinyin.h:204-274 | for ü and Ü the round trip ends at plain u and U |
| Pinyin.ToneUnmapChangesIff | pinyin.h:238-279 | `toneunmap` changes exactly the 48 accented letters, each into a plain vowel |
| Pinyin.ToneUnmapIdempotent | pinyin.h:202-280 | applying `toneunmap` twice is applying it once |
| Pinyin.ToneUnmap | pinyin.h:202-280 | `toneunmap` changes a letter only into a plain vowel, and leaves every plain vowel as it is |
| Pinyin.ToneMapChangesIff | pinyin.h:155-198 | below 32-bit wrap-around, `tonemap(c, t)` changes `c` exactly when `c + t` is a table key, whatever `c` is |
| Pinyin.NeutralToneLeak | pinyin.h:155-196 | tone 5 maps a to ē, e to ī, A to Ē and E to Ī, and leaves the other eight vowels alone |
| Pinyin.ConsonantLeak | pinyin.h:155 | consonants hit keys too: n with tone 2 becomes ō, r with tone 5 becomes ú |
| Pinyin.DecomposeInverts | pinyin.h:118-199 | every accented letter in the tables is what `tonemap` gives for a plain vowel and a tone from 1 to 4 |
| Pinyin.IsVowelExact | pinyin.h:283-306 | `is_vowel` holds exactly for the letters that are the plain vowel of some accented letter, and never for an accented letter |
| Pinyin.IsVowel | pinyin.h:283-306 | a letter `is_vowel` accepts is no accented letter and lies below 0x100 |
| Utf8.EncodeUnit | tools/utf8.h:94-115 | one to four bytes for values up to 0x7F, 0x7FF, 0xFFFF and above; ASCII is copied |
| Utf8.EncodeUnitLayout | tools/utf8.h:83-115 | the bit layout of section 3 of RFC 3629: lead byte by length, continuation bytes 10xxxxxx, payload reassembling to the value |
| Utf8.Encode | tools/utf8.h:77-117 | at least one byte per unit, and nothing for nothing |
| Utf8.EncodeNarrow | tools/utf8.h:120-126 | `encode(std::string)` writes one or two bytes per byte, copies ASCII, and both decoders read every byte back as the code point of its value |
| Utf8.Truncate16 | tools/utf8.h:66-71 | the `unsigned short` cast keeps each unit modulo 0x10000 |
| Utf8.EncodeWide | tools/utf8.h:129-135 | through the 16-bit cast no byte reaches 0xF0, so the four-byte branch is never taken |
| Utf8.NarrowUnitsEncodeBelowF0 | tools/utf8.h:103-108 | units up to 0xFFFF encode into bytes below 0xF0 |
| Utf8.DecodeStep | tools/utf8.h:150-194 | `decode` stops at a lead byte exactly when its sequence is cut short or a two-byte value is below 0x7F; bytes below 0xC0, stray continuation bytes included, pass through; 0x7F itself is accepted |
| Utf8.DecodeWith | tools/utf8.h:139-198 | the returned position is the end or a lead byte where `decode` stops, and no more units than bytes are written |
| Utf8.DecodeAsWritten | tools/utf8.h:139-198 | the source's decoder stops inside the input after no more units than bytes; on input without a byte from 0xF0 up it decodes like the corrected one |
| Utf8.Decode | tools/utf8.h:139-198 | with the corrected four-byte branch: no more units than bytes; an early stop is at a sequence the decoder rejects; ASCII decodes to itself and is consumed whole |
| Utf8.DecodeString | tools/utf8.h:200-206 | `decode(std::string)` with the source's four-byte branch gives no more characters than bytes, agrees with the corrected wrapper on input without a byte from 0xF0 up, and reads ASCII bytes as themselves |
| Utf8.DecodeStringFixed | tools/utf8.h:200-206 | the same wrapper on the corrected four-byte branch: no more characters than bytes, and ASCII bytes are their own characters |
| Utf8.DecodeRulesAgree | tools/utf8.h:155-161 | on input without a byte from 0xF0 up the two four-byte branches decode alike |
| Utf8.RoundTrip | tools/utf8.h:89-198 | with the corrected four-byte branch, decoding what `encode` wrote gives every unit below 0x200000 back and consumes all bytes |
| Utf8.RoundTripAsWritten | tools/utf8.h:152-163 | the source's decode inverts `encode` for every unit below 0x40000 |
| Utf8.FourByteDecodeBug | tools/utf8.h:155 | U+40000 encodes as F1 80 80 80 and decodes as 8; U+10FFFF decodes as 0xFFFF; the corrected branch gives U+40000 back |
| Utf8.AsWrittenAgreesOnPlainLead | tools/utf8.h:155-161 | when the lead byte carries no payload bits, the two four-byte branches agree |
| Utf8.FixedInverts | tools/utf8.h:111-114 | the corrected four-byte branch inverts the four-byte encoding up to 0x1FFFFF |
| Utf8.AsWrittenInverts | tools/utf8.h:152-163 | the source's four-byte branch inverts the encoding below 0x40000 |
| Utf8.Truncate16Bmp | tools/utf8.h:70 | the 16-bit cast changes nothing in the basic multilingual plane |
| Utf8.WideRoundTrip | tools/utf8.h:200-206 | decoding what `encode(std::wstring)` wrote gives the units cut to 16 bits |
| Utf8.AsciiIdentity | tools/utf8.h:94-97 | encode and decode are the identity on pure ASCII |
| Utf8.TruncatedTail | tools/utf8.h:158-184 | a cut-off last sequence makes `decode` stop at its lead byte after all earlier units, and the string wrapper drops the tail: on the corrected branch for earlier units below 0x200000, on the source's branch for earlier units below 0x40000 |
| Utf8.TwoByteChecks | tools/utf8.h:178-189 | C1 BF decodes to 0x7F, C1 BE is rejected, C3 41 decodes without checking the continuation byte |
| ToneMarks.Push | tools/cedict.cpp:125-146 | a letter is appended; a claim already made stays; an a or e claims the mark, and a u after an o hands it to the o |
| ToneMarks.Diaeresis | tools/cedict.cpp:118-124 | ':' succeeds exactly after a lower-case u, which it turns into ü, leaving every other letter and the claim alone |
| ToneMarks.DownFrom | tools/cedict.cpp:107-111 | the fallback loop stops at a vowel from index 1 on, or at index 0 without checking it |
| ToneMarks.Fallback | tools/cedict.cpp:104-113 | an empty syllable has no position (the `assert`); otherwise the last vowel from index 1 on, else index 0 |
| ToneMarks.TonePosition | tools/cedict.cpp:104-113 | an empty syllable has no tone position; any other syllable has one inside it |
| ToneMarks.ReadSyllable | tools/cedict.cpp:89-148 | reading a syllable consumes at least one character when there is any; the syllable and the rest together never outgrow what was given |
| ToneMarks.MarkPositionUnique | tools/cedict.cpp:74-79 | the placement rule picks at most one letter |
| ToneMarks.ScanClaims | tools/cedict.cpp:128-146 | the letter-by-letter scan claims the mark exactly at the first claim's target, or nowhere when no letter claims it |
| ToneMarks.ScanPosition | tools/cedict.cpp:104-112 | the scan of a whole syllable ends on the position the placement rule picks |
| ToneMarks.MarkSyllable | tools/cedict.cpp:96-116 | a digit-ended syllable differs from its letters only at that position, which gets the digit's tone, and reading resumes after the digit |
| ToneMarks.ToneDigitErrors | tools/cedict.cpp:98-113 | digits 0 and 6 to 9 and a digit with no letter before it are errors |
| ToneMarks.Unterminated | tools/cedict.cpp:91-151 | a syllable cut off by the end of the input is appended unmarked, inner spaces included |
| ToneMarks.LeadingSpaces | tools/cedict.cpp:86-87 | white space before a syllable never reaches the result |
| ToneMarks.ColonRewrite | tools/cedict.cpp:118-124 | ':' rewrites the lower-case u before it and fails anywhere else |
| ToneMarks.PlaceTonesSyllable | tools/cedict.cpp:84-152 | a marked syllable comes first in the result, followed by what the rest gives, with no separator |
| ToneMarks.PlaceTonesKeepsLetters | tools/cedict.cpp:84-152 | with the corrected accent map, removing the accents and the white space from the result gives the letters of the input |
| ToneMarks.PlaceTonesBmp | tools/cedict.cpp:149-153 | with the corrected accent map, input in the basic multilingual plane gives output in it, so the 16-bit cast loses nothing |
| ToneMarks.PlaceTones | tools/cedict.cpp:84-152 | the result is no longer than the input, and white space alone gives nothing |
| ToneMarks.ReadSyllableMarkFree | tools/cedict.cpp:91-148 | whether reading a syllable fails, with which error, and where it resumes do not depend on the accent map |
| ToneMarks.PlaceTonesMarkFree | tools/cedict.cpp:84-152 | whether the conversion fails, and with which error, does not depend on the accent map |
| ToneMarks.ExampleBanFa | tools/cedict.cpp:74 | "ban4 fa3" becomes "bànfǎ" |
| ToneMarks.ExampleGou | tools/cedict.cpp:78 | in "gou3" the o of "ou" takes the mark |
| ToneMarks.ExampleXiong | tools/cedict.cpp:79 | "xiong2" becomes "xióng": the last vowel takes the mark |
| ToneMarks.ExampleNeutralTone | tools/cedict.cpp:99-100 | with the source's `tonemap`, "ma5" gets ē; the corrected map leaves the a alone |
| ToneMarks.ExampleConsonant | tools/cedict.cpp:107-115 | with the source's `tonemap`, "ng2" becomes "ōg", whose letters are not those read |
| ToneMarks.ExampleErrors | tools/cedict.cpp:101-121 | tone 0, a bare digit, and ':' after anything but a lower-case u are errors |
| ToneMarks.ExampleDiaeresis | tools/cedict.cpp:118-124 | "lu:4" becomes "lǜ" |
| Cedict.Span | tools/cedict.cpp:48-50 | the greedy star takes the longest run of allowed characters |
| Cedict.FieldRender | tools/cedict.cpp:54-55 | a field followed by its separator is read back |
| Cedict.ParseRender | tools/cedict.cpp:44-60 | every word whose fields the grammar can delimit is read back from its entry line, with or without the opening slash |
| Cedict.ParseWord | tools/cedict.cpp:44-60 | every line `parse_word` accepts is the entry line of the well-formed word it returns, with the optional slash present or absent |
| Cedict.MakeKey | tools/cedict.cpp:62-70 | the key holds no digit and no white space, and is no longer than the pinyin |
| Cedict.MakeKeyUnchangedIff | tools/cedict.cpp:62-70 | the key equals the input exactly when the input has no digit and no white space |
| Cedict.MakeKeyIdempotent | tools/cedict.cpp:62-70 | making a key twice is making it once |
| Cedict.MakeKeyAppend | tools/cedict.cpp:64-68 | `remove_if` keeps the other bytes in order: the key of a concatenation is the concatenation of keys |
| Cedict.MakeDictionaryPinyin | tools/cedict.cpp:72-154 | with the corrected accent map and four-byte branch: for plain pinyin, decoding the displayed pinyin (with `Utf8.DecodeStringFixed`) and removing the accents and the white space gives the key that `make_dictionary_key` makes |
| Cedict.MakeDictionaryPinyinAsWritten | tools/cedict.cpp:72-154 | on pinyin without a byte from 0xF0 up, the conversion as written fails exactly when the corrected one does, with the same error |
| Cedict.AsWrittenKeyMismatch | tools/cedict.cpp:115 | with the source's `tonemap`, "ng2" is keyed "ng" but shown as C5 8D 67 ("ōg"); the corrected conversion shows "ng" |
| Cedict.Expand | tools/cedict.cpp:161-169 | each '/' adds two bytes; text without '/' comes back unchanged |
| Cedict.ExpandJoin | tools/cedict.cpp:162-169 | every '/' becomes " / " and every other byte is kept |
| Cedict.ExpandIsJoin | tools/cedict.cpp:162-169 | the expansion is the slash-separated pieces joined with " / " |
| Cedict.MakeDictionaryDefinition | tools/cedict.cpp:156-171 | the definition is accepted exactly when it ends with '/' |
| Cedict.DefinitionSenses | tools/cedict.cpp:156-171 | senses "/a/b/" come out as "a / b" |
| Cedict.ProcessWord | tools/cedict.cpp:156-183 | a word converts exactly when its pinyin and definition do; a pinyin error is reported as such; good pinyin with a definition not ending in '/' is `UnterminatedDefinition`; a written line ends in a newline |
| Cedict.ProcessWordLine | tools/cedict.cpp:173-183 | for names without '\|', the written line ends in a newline and, without it, splits on '\|' into the two names, the displayed pinyin and the expanded definition |
| Cedict.OutputLineSplits | tools/cedict.cpp:181-182 | the output line ends in a newline and splits on '\|' into its four fields |
| Cedict.StripReturn | tools/cedict.cpp:233-234 | one trailing carriage return is removed, nothing else |
| Cedict.ConvertLine | tools/cedict.cpp:228-242 | empty and '#' lines write nothing; a failure never reads as a finished run |
| Cedict.ConvertLineCrlf | tools/cedict.cpp:233-234 | a line read with its '\r' converts like the line without it |
| Cedict.ConvertLineParseFails | tools/cedict.cpp:228-241 | a line that is not skipped and does not parse ends the run with the line, without its '\r' |
| Cedict.Convert | tools/cedict.cpp:216-243 | no lines finish at once; a run finishes exactly when every line converts |
| Cedict.ConvertAppend | tools/cedict.cpp:218-243 | the loop stops at the first failing line, and otherwise writes each line's output in order |
| Cedict.ConvertStopsAtBadLine | tools/cedict.cpp:218-243 | after lines that converted, a line that does not parse stops the run: their output stays, and no later line is read |
| Cedict.ConvertEntries | tools/cedict.cpp:216-243 | the entry lines of convertible words convert to their output lines, in order, and the run finishes |
| Cedict.ConvertCrlf | tools/cedict.cpp:218-243 | lines ended by "\r\n" convert like the same lines ended by '\n' |
| Cedict.ConvertEntriesCrlf | tools/cedict.cpp:216-243 | a file of entry lines with "\r\n" ends converts to the same output lines, and the run finishes |
| TextStream.ReadLinesStep | dictionary.cpp:55-57 | a line without newline and trailing '\r', followed by '\n', reads back as that line |
| TextStream.ReadLines | dictionary.cpp:55-57 | an empty text has no lines and any other text at least one; no line holds a newline or is longer than the text |
| TextStream.ReadLinesCrlf | dictionary.cpp:57 | a line ended by "\r\n" reads like the same line ended by '\n' |
| TextStream.ReadLinesLast | dictionary.cpp:55-57 | an unterminated last line is read, without a final '\r' |
| Multimap.UpperBound | dictionary.cpp:90-91 | the upper bound is the first entry whose key is greater than the key |
| Multimap.LookupMembers | dictionary.cpp:88-98 | a value is found under a key exactly when an entry with that key and value is stored |
| Multimap.LookupAppend | dictionary.cpp:94-95 | the lookup walks the entries in order: the values found in two runs of entries are those of the first, then those of the second |
| Multimap.Insert | dictionary.cpp:102 | one entry more, and keys in order stay in order |
| Multimap.InsertMembers | dictionary.cpp:102 | after insertion the entries are the old ones and the new one |
| Multimap.InsertLookup | dictionary.cpp:102 | a new value is found last under its key |
| Multimap.InsertLookupOther | dictionary.cpp:102 | lookups of every other key are unchanged |
| Multimap.InsertEntries | dictionary.cpp:102 | insertion adds exactly the one entry |
| LegacyDictionary.Store | dictionary.cpp:100-103 | `store` always adds one entry, even a duplicate |
| LegacyDictionary.StoreLookup | dictionary.cpp:100-103 | after `store` the key's lookup ends with the new word, other keys are unchanged, and the order holds |
| LegacyDictionary.Lookup | dictionary.cpp:88-98 | `lookup` finds a word exactly when it is stored under that exact key |
| LegacyDictionary.SaveLine | dictionary.cpp:84 | when no field holds '\|' or a newline, the line holds no newline and splits on '\|' into key, chinese, pinyin and description |
| LegacyDictionary.Save | dictionary.cpp:69-86 | an empty dictionary writes nothing, a non-empty one something |
| LegacyDictionary.ParseLine | dictionary.cpp:57-64 | a line fails exactly when it has fewer than four '\|'-separated fields |
| LegacyDictionary.Load | dictionary.cpp:47-51 | a file that does not open fails before anything is read |
| LegacyDictionary.LoadLines | dictionary.cpp:55-66 | loading succeeds exactly when every line has four fields; then the dictionary grows by one entry per line and keys in order stay in order |
| LegacyDictionary.LoadLookup | dictionary.cpp:55-66 | loading only adds: a lookup gives the old words and then the file's, in file order |
| LegacyDictionary.SaveLineParses | dictionary.cpp:84 | a saved line with plain fields parses back into its entry |
| LegacyDictionary.ReadSaved | dictionary.cpp:80-85 | reading the saved text gives back one line per entry |
| LegacyDictionary.SaveLoad | dictionary.cpp:47-86 | loading what `save` wrote into an empty dictionary gives back the same multimap |
| DictionaryIndex.EmptyValid | dictionary.h:85-86 | the empty dictionary satisfies the representation invariant |
| DictionaryIndex.Lookup | dictionary.h:58-59 | `lookup(key)` returns exactly the words whose key is `key` |
| DictionaryIndex.WordCount | dictionary.h:79-80 | in a valid dictionary `wordCount()` is also the number of index entries |
| DictionaryIndex.Flatten | dictionary.h:67-68 | `flatten` returns `wordCount()` words |
| DictionaryIndex.FlattenIsEveryLookup | dictionary.h:67-68 | a word is flattened exactly when a lookup of its key finds it |
| DictionaryIndex.Search | dictionary.h:63-65 | `search(str)` returns exactly the words whose definition contains `str` |
| DictionaryIndex.Store | dictionary.h:70-74 | on a valid dictionary `store` returns true exactly when a word with that key and guid was stored; an update keeps the count and the index, an insert appends the word |
| DictionaryIndex.StoreUpdates | dictionary.h:70-74 | an update replaces the matching word in place and keeps the count |
| DictionaryIndex.StoreInserts | dictionary.h:70-80 | an insert appends the word, grows `wordCount` by one, keeps the invariant, and a lookup of its key ends with it |
| DictionaryIndex.StoreValid | dictionary.h:85-86 | `store` keeps every indexed position valid and every word indexed |
| FreqTable.ParseLine | freqtable.cpp:60-66 | a line is accepted exactly when it splits on tab into two fields; the frequency fits in 64 bits |
| FreqTable.LoadLines | freqtable.cpp:58-68 | no entry is ever removed |
| FreqTable.Load | freqtable.cpp:52-54 | a file that does not open throws before any change |
| FreqTable.LineRoundTrip | freqtable.cpp:60-67 | a word without tab and its frequency, written as a line, read back as both |
| FreqTable.LoadFails | freqtable.cpp:61-63 | `load` throws exactly when some line is not two tab-separated fields |
| FreqTable.FirstBadLine | freqtable.cpp:58-68 | the load is not atomic: the lines before the first bad one stay in the table |
| FreqTable.LoadUntouched | freqtable.cpp:67 | a word no line sets keeps its entry, or its absence |
| FreqTable.LastWins | freqtable.cpp:65-67 | the last line that sets a word decides its frequency |
| FreqTable.LoadAppend | freqtable.cpp:58-68 | loading two runs of lines is loading the first, then the second unless the first threw |
| Numbers.ParseDecimal | freqtable.cpp:66 | `toLongLong` reads back every 64-bit value written in decimal |
| Numbers.Decimal | format.h:34 | at least one character: digits, after a '-' exactly when the number is negative |
| Numbers.ParseLongLong | freqtable.cpp:66 | the value fits in 64 bits, and anything but an optionally signed run of digits reads as 0 |
| Seqs.Split | dictionary.cpp:58 | at least one part; no part holds the separator; joining the parts with it gives the string back; one part exactly when it does not occur |
| Seqs.SplitJoin | dictionary.cpp:58 | splitting parts joined by a separator they do not hold gives the parts back |
| Seqs.ReplaceAll | format.h:48 | an equal-length replacement keeps the length, a longer one never shortens the text |
| Seqs.ReplaceAllAbsent | format.h:48 | a text without the pattern comes back unchanged |
| Seqs.ReplaceAllJoin | format.h:48 | every occurrence of a pattern that cannot overlap itself is replaced: the pieces between occurrences are joined with the replacement |
| Format.FormatArg | format.h:31-35 | a string argument is its own text; a number is its decimal digits with an optional minus |
| Format.Key | format.h:38-42 | the key is '_' followed by the index, with no further '_' |
| Format.KeyInjective | format.h:38-42 | different indices have different keys |
| Format.SubstituteAppend | format.h:51-57 | substitution is sequential: the first arguments act first, and the later ones act on what they left |
| Format.Substitute | format.h:44-57 | a string without the placeholders `_index` to `_(index+n-1)` comes back unchanged |
| Format.Str | format.h:61-67 | a format string without `_1` to `_n` comes back unchanged |
| Format.FirstStepReplacesAll | format.h:44-49 | each step replaces every occurrence of its placeholder |
| Format.TenIsOneThenZero | format.h:51-57 | "_10" becomes the first argument followed by "0" |
| Format.InsertedPlaceholderReplaced | format.h:51-57 | a placeholder put in by an earlier argument is replaced by a later one |
| Format.Utf8Str | format.h:69-75 | what `utf8` returns decodes back (with the corrected `Utf8.DecodeStringFixed`) to the text `str` produced |
| Invaders.NewGame | invaders/game.cpp:33 | a new game has no level, no invaders, tick 0, and satisfies the invariant |
| Invaders.Tick | invaders/game.cpp:39-85 | without a level nothing happens; otherwise the tick grows by one, identities advance by the spawn count, and the count of invaders is the survivors plus the spawned |
| Invaders.TickPrunes | invaders/game.cpp:44-60 | a victory is reported once for every invader at column 0 and for no other; every other invader survives one column further left |
| Invaders.TickSpawns | invaders/game.cpp:62-82 | on a multiple of the interval `spawnCount` invaders are appended at column `width + i`, in a row inside the field, with consecutive identities, each reported; otherwise none |
| Invaders.TickValid | invaders/game.cpp:39-85 | `tick` keeps identities distinct and below the counter, and rows inside the field |
| Invaders.FindTarget | invaders/game.cpp:89-92 | the first invader whose kill string is the missile's text |
| Invaders.Fire | invaders/game.cpp:93-94 | a missile that matches nothing changes nothing |
| Invaders.FireHits | invaders/game.cpp:96-102 | a matching missile destroys the first match, adds its score and reports the kill |
| Invaders.FireRemovesOne | invaders/game.cpp:102 | a hit removes exactly that one invader |
| Invaders.FireValid | invaders/game.cpp:87-103 | `fire` keeps the invariant |
| Invaders.Play | invaders/game.cpp:105-111 | `play` empties the invaders and resets tick and score to 0 with the new level; the counter runs on |
| Invaders.RunSpawnIds | invaders/game.cpp:78 | over any run of calls the spawned identities are consecutive from the counter on |
| Invaders.RunSpawnsDistinct | invaders/game.cpp:78 | no two invaders ever spawned share an identity |

## Left out

- File opening, `QFile`, `std::ifstream` and `std::ofstream` are not modelled. A file is its text or lines, and an open failure is `None`.
- The UTF-8 codec of `QTextStream` is not modelled: a file is the sequence of characters it decodes to.
- The progress counter and error messages of the converter's `main`, and its argument checks, are not modelled.
- The sign extension of `char` in `decode`'s default branch and in `std::isdigit` is not modelled: bytes are read as unsigned.
- `sizeof(wchar_t)` is fixed at 32 bits, so the `sizeof` tests in `decode` never fire.
- `std::isspace` and `std::isdigit` on a wide character (the `wchar_t` tests in tools/cedict.cpp:66 and :96) are taken to be the C-locale tests on its value.
- `QString::operator<` is modelled as lexicographic order on code points. UTF-16 order differs only between surrogate pairs and U+E000 to U+FFFF, which matters for neither lookup nor round trip.
- Numbers.ParseLongLong: leading and trailing white space, which `toLongLong` accepts, reads as 0 here.
- `QString::toUtf8` is modelled by the project's own encoder on the code points of the string (`Format.CodePoints`); surrogate handling is not modelled.
- Format.Str: the variadic template needs at least one argument, so `Str` requires one.
- `QString("%1").arg` only ever sees strings and integers here, the argument types the program passes; floating point is not modelled.
- `dictionary.h` declares `erase`, `load`, `save` and `lookup(key, tone)` without bodies. Their behaviour is not shown, so they are not modelled.
- The guid that `store` would take from `wordguid_` is not shown; a word is stored with the guid it carries.
- LegacyDictionary.LoadLines: a line with fewer than four fields indexes past the end of the list, which is undefined; the model reports `MissingFields` and drops the partial result.
- Cedict.MakeDictionaryDefinition: on an empty definition `s.back()` is undefined; the model reports it like a missing final '/'.
- Cedict.ProcessWord uses the corrected pinyin conversion. The conversion as written is `Cedict.MakeDictionaryPinyinAsWritten`, shown against it in `Cedict.AsWrittenKeyMismatch`.
- ToneMarks.ToneDigitErrors, ToneMarks.ColonRewrite: these model a debug build, where the `assert`s of `make_dictionary_pinyin` abort. A release build (NDEBUG) drops them. There tone 0 goes through `tonemap` ("e0" gives à), a digit with no letter before it writes `syllable[-1]`, and ':' after another letter turns that letter into ü. The release behaviour is not modelled.
- Invaders.TickPrunes: `std::partition` is not stable, so the survivors' order is unspecified. The model keeps them in order but states only how many of each there are.
- Invaders.NewGame: the constructor leaves `score_` uninitialised, so the initial score is a parameter.
- The game's `tick_` and `identity_` are unbounded here. Their unsigned wrap-around after 2^32 calls is not modelled.
- The `Level` behind `spawn()`, `spawnCount()` and `spawnInterval()` is an input. So is `std::rand()`. A zero interval is excluded because `tick_ % 0` is undefined.
- `freqtable::load` is not atomic: it keeps the lines before a bad one. `lookup` matches the exact key, not a prefix.

## Findings

| source | as written | input that shows it | evidently intended | confidence | as-written member | corrected member |
|---|---|---|---|---|---|---|
| pinyin.h:155 | `tonemap` looks up the sum `vowel + tone`, so different (letter, tone) pairs share keys | `tonemap('a', 5)` is ē and `tonemap('n', 2)` is ō; "ng2" is keyed "ng" but shown as "ōg" | the accent for the (vowel, tone) pair, and the letter itself for tone 5 and for consonants | high, not executed | Cedict.AsWrittenKeyMismatch | Pinyin.ToneMapFixed |
| tools/utf8.h:155 | the four-byte decode shifts `lead & 0x03` left by 3, onto the last byte's payload | U+40000 encodes as F1 80 80 80 and decodes as 8 | `(lead & 0x07) << 18`, which makes decode invert encode | high, not executed | Utf8.FourByteDecodeBug | Utf8.RoundTrip |
