/** The tone-mark codec of pinyin.h: the code points of the accented pinyin
    vowels, `tonemap` (vowel and tone to accented letter), `toneunmap`
    (accented letter to plain vowel) and `is_vowel`.

    The source keys both `tonemap` tables on the arithmetic sum
    `vowel + tone`. `ToneMap` keeps that lookup as written;
    `ToneMapFixed` is the lookup keyed on the (vowel, tone) pair that the
    comments of pinyin.h describe, and the two agree on every vowel with a
    tone from 1 to 4. */
module Pinyin {
  import opened Chars
  import opened Wrappers

  // Tone 1: macron.
  const SmallAMacron: Wide := 0x0101
  const SmallEMacron: Wide := 0x0113
  const SmallIMacron: Wide := 0x012b
  const SmallOMacron: Wide := 0x014d
  const SmallUMacron: Wide := 0x016b
  const SmallUDiaeresisMacron: Wide := 0x01d6
  const CapitalAMacron: Wide := 0x0100
  const CapitalEMacron: Wide := 0x0112
  const CapitalIMacron: Wide := 0x012a
  const CapitalOMacron: Wide := 0x014c
  const CapitalUMacron: Wide := 0x016a
  const CapitalUDiaeresisMacron: Wide := 0x01d5

  // Tone 2: acute accent.
  const SmallAAcute: Wide := 0x00e1
  const SmallEAcute: Wide := 0x00e9
  const SmallIAcute: Wide := 0x00ed
  const SmallOAcute: Wide := 0x00f3
  const SmallUAcute: Wide := 0x00fa
  const SmallUDiaeresisAcute: Wide := 0x01d8
  const CapitalAAcute: Wide := 0x00c1
  const CapitalEAcute: Wide := 0x00c9
  const CapitalIAcute: Wide := 0x00cd
  const CapitalOAcute: Wide := 0x00d3
  const CapitalUAcute: Wide := 0x00da
  const CapitalUDiaeresisAcute: Wide := 0x01d7

  // Tone 3: caron.
  const SmallACaron: Wide := 0x01ce
  const SmallECaron: Wide := 0x011b
  const SmallICaron: Wide := 0x01d0
  const SmallOCaron: Wide := 0x01d2
  const SmallUCaron: Wide := 0x01d4
  const SmallUDiaeresisCaron: Wide := 0x01da
  const CapitalACaron: Wide := 0x01cd
  const CapitalECaron: Wide := 0x011a
  const CapitalICaron: Wide := 0x01cf
  const CapitalOCaron: Wide := 0x01d1
  const CapitalUCaron: Wide := 0x01d3
  const CapitalUDiaeresisCaron: Wide := 0x01d9

  // Tone 4: grave accent.
  const SmallAGrave: Wide := 0x00e0
  const SmallEGrave: Wide := 0x00e8
  const SmallIGrave: Wide := 0x00ec
  const SmallOGrave: Wide := 0x00f2
  const SmallUGrave: Wide := 0x00f9
  const SmallUDiaeresisGrave: Wide := 0x01dc
  const CapitalAGrave: Wide := 0x00c0
  const CapitalEGrave: Wide := 0x00c8
  const CapitalIGrave: Wide := 0x00cc
  const CapitalOGrave: Wide := 0x00d2
  const CapitalUGrave: Wide := 0x00d9
  const CapitalUDiaeresisGrave: Wide := 0x01db

  // The plain pinyin vowels.
  const SmallA: Wide := 0x0061
  const SmallE: Wide := 0x0065
  const SmallI: Wide := 0x0069
  const SmallO: Wide := 0x006f
  const SmallU: Wide := 0x0075
  const SmallUDiaeresis: Wide := 0x00fc
  const CapitalA: Wide := 0x0041
  const CapitalE: Wide := 0x0045
  const CapitalI: Wide := 0x0049
  const CapitalO: Wide := 0x004f
  const CapitalU: Wide := 0x0055
  const CapitalUDiaeresis: Wide := 0x00dc

  /** The lower-case table of `tonemap`, keyed on `vowel + tone`. */
  function LowerCaseTone(key: int): Option<Wide>
  {
    if key == SmallA + 1 then Some(SmallAMacron)
    else if key == SmallE + 1 then Some(SmallEMacron)
    else if key == SmallI + 1 then Some(SmallIMacron)
    else if key == SmallO + 1 then Some(SmallOMacron)
    else if key == SmallU + 1 then Some(SmallUMacron)
    else if key == SmallUDiaeresis + 1 then Some(SmallUDiaeresisMacron)
    else if key == SmallA + 2 then Some(SmallAAcute)
    else if key == SmallE + 2 then Some(SmallEAcute)
    else if key == SmallI + 2 then Some(SmallIAcute)
    else if key == SmallO + 2 then Some(SmallOAcute)
    else if key == SmallU + 2 then Some(SmallUAcute)
    else if key == SmallUDiaeresis + 2 then Some(SmallUDiaeresisAcute)
    else if key == SmallA + 3 then Some(SmallACaron)
    else if key == SmallE + 3 then Some(SmallECaron)
    else if key == SmallI + 3 then Some(SmallICaron)
    else if key == SmallO + 3 then Some(SmallOCaron)
    else if key == SmallU + 3 then Some(SmallUCaron)
    else if key == SmallUDiaeresis + 3 then Some(SmallUDiaeresisCaron)
    else if key == SmallA + 4 then Some(SmallAGrave)
    else if key == SmallE + 4 then Some(SmallEGrave)
    else if key == SmallI + 4 then Some(SmallIGrave)
    else if key == SmallO + 4 then Some(SmallOGrave)
    else if key == SmallU + 4 then Some(SmallUGrave)
    else if key == SmallUDiaeresis + 4 then Some(SmallUDiaeresisGrave)
    else None
  }

  /** The upper-case table of `tonemap`, keyed on `vowel + tone`. */
  function UpperCaseTone(key: int): Option<Wide>
  {
    if key == CapitalA + 1 then Some(CapitalAMacron)
    else if key == CapitalE + 1 then Some(CapitalEMacron)
    else if key == CapitalI + 1 then Some(CapitalIMacron)
    else if key == CapitalO + 1 then Some(CapitalOMacron)
    else if key == CapitalU + 1 then Some(CapitalUMacron)
    else if key == CapitalUDiaeresis + 1 then Some(CapitalUDiaeresisMacron)
    else if key == CapitalA + 2 then Some(CapitalAAcute)
    else if key == CapitalE + 2 then Some(CapitalEAcute)
    else if key == CapitalI + 2 then Some(CapitalIAcute)
    else if key == CapitalO + 2 then Some(CapitalOAcute)
    else if key == CapitalU + 2 then Some(CapitalUAcute)
    else if key == CapitalUDiaeresis + 2 then Some(CapitalUDiaeresisAcute)
    else if key == CapitalA + 3 then Some(CapitalACaron)
    else if key == CapitalE + 3 then Some(CapitalECaron)
    else if key == CapitalI + 3 then Some(CapitalICaron)
    else if key == CapitalO + 3 then Some(CapitalOCaron)
    else if key == CapitalU + 3 then Some(CapitalUCaron)
    else if key == CapitalUDiaeresis + 3 then Some(CapitalUDiaeresisCaron)
    else if key == CapitalA + 4 then Some(CapitalAGrave)
    else if key == CapitalE + 4 then Some(CapitalEGrave)
    else if key == CapitalI + 4 then Some(CapitalIGrave)
    else if key == CapitalO + 4 then Some(CapitalOGrave)
    else if key == CapitalU + 4 then Some(CapitalUGrave)
    else if key == CapitalUDiaeresis + 4 then Some(CapitalUDiaeresisGrave)
    else None
  }

  /** The lower-case table of `toneunmap`; the u-diaeresis letters map to plain u. */
  function LowerCaseUnmark(key: int): Option<Wide>
  {
    if key == SmallAMacron then Some(SmallA)
    else if key == SmallEMacron then Some(SmallE)
    else if key == SmallIMacron then Some(SmallI)
    else if key == SmallOMacron then Some(SmallO)
    else if key == SmallUMacron then Some(SmallU)
    else if key == SmallUDiaeresisMacron then Some(SmallU)
    else if key == SmallAAcute then Some(SmallA)
    else if key == SmallEAcute then Some(SmallE)
    else if key == SmallIAcute then Some(SmallI)
    else if key == SmallOAcute then Some(SmallO)
    else if key == SmallUAcute then Some(SmallU)
    else if key == SmallUDiaeresisAcute then Some(SmallU)
    else if key == SmallACaron then Some(SmallA)
    else if key == SmallECaron then Some(SmallE)
    else if key == SmallICaron then Some(SmallI)
    else if key == SmallOCaron then Some(SmallO)
    else if key == SmallUCaron then Some(SmallU)
    else if key == SmallUDiaeresisCaron then Some(SmallU)
    else if key == SmallAGrave then Some(SmallA)
    else if key == SmallEGrave then Some(SmallE)
    else if key == SmallIGrave then Some(SmallI)
    else if key == SmallOGrave then Some(SmallO)
    else if key == SmallUGrave then Some(SmallU)
    else if key == SmallUDiaeresisGrave then Some(SmallU)
    else None
  }

  /** The upper-case table of `toneunmap`. */
  function UpperCaseUnmark(key: int): Option<Wide>
  {
    if key == CapitalAMacron then Some(CapitalA)
    else if key == CapitalEMacron then Some(CapitalE)
    else if key == CapitalIMacron then Some(CapitalI)
    else if key == CapitalOMacron then Some(CapitalO)
    else if key == CapitalUMacron then Some(CapitalU)
    else if key == CapitalUDiaeresisMacron then Some(CapitalU)
    else if key == CapitalAAcute then Some(CapitalA)
    else if key == CapitalEAcute then Some(CapitalE)
    else if key == CapitalIAcute then Some(CapitalI)
    else if key == CapitalOAcute then Some(CapitalO)
    else if key == CapitalUAcute then Some(CapitalU)
    else if key == CapitalUDiaeresisAcute then Some(CapitalU)
    else if key == CapitalACaron then Some(CapitalA)
    else if key == CapitalECaron then Some(CapitalE)
    else if key == CapitalICaron then Some(CapitalI)
    else if key == CapitalOCaron then Some(CapitalO)
    else if key == CapitalUCaron then Some(CapitalU)
    else if key == CapitalUDiaeresisCaron then Some(CapitalU)
    else if key == CapitalAGrave then Some(CapitalA)
    else if key == CapitalEGrave then Some(CapitalE)
    else if key == CapitalIGrave then Some(CapitalI)
    else if key == CapitalOGrave then Some(CapitalO)
    else if key == CapitalUGrave then Some(CapitalU)
    else if key == CapitalUDiaeresisGrave then Some(CapitalU)
    else None
  }

  /** `is_vowel`: the twelve plain pinyin vowels. */
  predicate IsVowel(c: int)
    ensures IsVowel(c) ==> Decompose(c).None? && c < 0x100
  {
    || c == SmallA || c == SmallE || c == SmallI || c == SmallO || c == SmallU || c == SmallUDiaeresis
    || c == CapitalA || c == CapitalE || c == CapitalI || c == CapitalO || c == CapitalU || c == CapitalUDiaeresis
  }

  /** The key `tonemap` looks up: `vowel + tone`, computed in 32-bit
      unsigned arithmetic. */
  function ToneKey(vowel: Wide, tone: nat): int {
    (vowel + tone) % 0x1_0000_0000
  }

  predicate IsToneKey(k: int) {
    LowerCaseTone(k).Some? || UpperCaseTone(k).Some?
  }

  /** `tonemap` as written: the lower-case table, then the upper-case table,
      searched for the sum `vowel + tone`; the letter itself when neither has
      that key. */
  function ToneMap(vowel: Wide, tone: nat): (r: Wide)
    ensures !IsToneKey(ToneKey(vowel, tone)) ==> r == vowel
    ensures IsToneKey(ToneKey(vowel, tone)) ==> !IsVowel(r)
  {
    var key := ToneKey(vowel, tone);
    match LowerCaseTone(key)
    case Some(lower) => lower
    case None =>
      match UpperCaseTone(key)
      case Some(upper) => upper
      case None => vowel
  }

  /** `toneunmap`: an accented letter's plain vowel (u for the u-diaeresis
      letters), any other character unchanged. */
  function ToneUnmap(c: Wide): (r: Wide)
    ensures r != c ==> IsVowel(r)
    ensures IsVowel(c) ==> r == c
  {
    match LowerCaseUnmark(c)
    case Some(lower) => lower
    case None =>
      match UpperCaseUnmark(c)
      case Some(upper) => upper
      case None => c
  }

  /** The four accented forms of a plain vowel, tone 1 to 4, as the
      comments of pinyin.h list them. */
  function Marks(vowel: Wide): (m: seq<Wide>)
    ensures IsVowel(vowel) <==> |m| == 4
    ensures !IsVowel(vowel) ==> m == []
  {
    if vowel == SmallA then [SmallAMacron, SmallAAcute, SmallACaron, SmallAGrave]
    else if vowel == SmallE then [SmallEMacron, SmallEAcute, SmallECaron, SmallEGrave]
    else if vowel == SmallI then [SmallIMacron, SmallIAcute, SmallICaron, SmallIGrave]
    else if vowel == SmallO then [SmallOMacron, SmallOAcute, SmallOCaron, SmallOGrave]
    else if vowel == SmallU then [SmallUMacron, SmallUAcute, SmallUCaron, SmallUGrave]
    else if vowel == SmallUDiaeresis then
      [SmallUDiaeresisMacron, SmallUDiaeresisAcute, SmallUDiaeresisCaron, SmallUDiaeresisGrave]
    else if vowel == CapitalA then [CapitalAMacron, CapitalAAcute, CapitalACaron, CapitalAGrave]
    else if vowel == CapitalE then [CapitalEMacron, CapitalEAcute, CapitalECaron, CapitalEGrave]
    else if vowel == CapitalI then [CapitalIMacron, CapitalIAcute, CapitalICaron, CapitalIGrave]
    else if vowel == CapitalO then [CapitalOMacron, CapitalOAcute, CapitalOCaron, CapitalOGrave]
    else if vowel == CapitalU then [CapitalUMacron, CapitalUAcute, CapitalUCaron, CapitalUGrave]
    else if vowel == CapitalUDiaeresis then
      [CapitalUDiaeresisMacron, CapitalUDiaeresisAcute, CapitalUDiaeresisCaron, CapitalUDiaeresisGrave]
    else []
  }

  /** The tone mapping the comments of pinyin.h describe, keyed on the
      (vowel, tone) pair: a vowel with a tone from 1 to 4 gets its accent,
      and every other pair (tone 5 in particular) leaves the letter as it
      is. */
  function ToneMapFixed(vowel: Wide, tone: nat): (r: Wide)
    ensures !(IsVowel(vowel) && 1 <= tone <= 4) ==> r == vowel
    ensures IsVowel(vowel) && 1 <= tone <= 4 ==> !IsVowel(r) && r != vowel
    ensures tone == 5 ==> r == vowel
  {
    if IsVowel(vowel) && 1 <= tone <= 4 then Marks(vowel)[tone - 1] else vowel
  }

  /** Which (vowel, tone) pair an accented letter stands for. */
  function Decompose(c: int): Option<(Wide, nat)>
  {
    if c == SmallAMacron then Some((SmallA, 1))
    else if c == SmallAAcute then Some((SmallA, 2))
    else if c == SmallACaron then Some((SmallA, 3))
    else if c == SmallAGrave then Some((SmallA, 4))
    else if c == SmallEMacron then Some((SmallE, 1))
    else if c == SmallEAcute then Some((SmallE, 2))
    else if c == SmallECaron then Some((SmallE, 3))
    else if c == SmallEGrave then Some((SmallE, 4))
    else if c == SmallIMacron then Some((SmallI, 1))
    else if c == SmallIAcute then Some((SmallI, 2))
    else if c == SmallICaron then Some((SmallI, 3))
    else if c == SmallIGrave then Some((SmallI, 4))
    else if c == SmallOMacron then Some((SmallO, 1))
    else if c == SmallOAcute then Some((SmallO, 2))
    else if c == SmallOCaron then Some((SmallO, 3))
    else if c == SmallOGrave then Some((SmallO, 4))
    else if c == SmallUMacron then Some((SmallU, 1))
    else if c == SmallUAcute then Some((SmallU, 2))
    else if c == SmallUCaron then Some((SmallU, 3))
    else if c == SmallUGrave then Some((SmallU, 4))
    else if c == SmallUDiaeresisMacron then Some((SmallUDiaeresis, 1))
    else if c == SmallUDiaeresisAcute then Some((SmallUDiaeresis, 2))
    else if c == SmallUDiaeresisCaron then Some((SmallUDiaeresis, 3))
    else if c == SmallUDiaeresisGrave then Some((SmallUDiaeresis, 4))
    else if c == CapitalAMacron then Some((CapitalA, 1))
    else if c == CapitalAAcute then Some((CapitalA, 2))
    else if c == CapitalACaron then Some((CapitalA, 3))
    else if c == CapitalAGrave then Some((CapitalA, 4))
    else if c == CapitalEMacron then Some((CapitalE, 1))
    else if c == CapitalEAcute then Some((CapitalE, 2))
    else if c == CapitalECaron then Some((CapitalE, 3))
    else if c == CapitalEGrave then Some((CapitalE, 4))
    else if c == CapitalIMacron then Some((CapitalI, 1))
    else if c == CapitalIAcute then Some((CapitalI, 2))
    else if c == CapitalICaron then Some((CapitalI, 3))
    else if c == CapitalIGrave then Some((CapitalI, 4))
    else if c == CapitalOMacron then Some((CapitalO, 1))
    else if c == CapitalOAcute then Some((CapitalO, 2))
    else if c == CapitalOCaron then Some((CapitalO, 3))
    else if c == CapitalOGrave then Some((CapitalO, 4))
    else if c == CapitalUMacron then Some((CapitalU, 1))
    else if c == CapitalUAcute then Some((CapitalU, 2))
    else if c == CapitalUCaron then Some((CapitalU, 3))
    else if c == CapitalUGrave then Some((CapitalU, 4))
    else if c == CapitalUDiaeresisMacron then Some((CapitalUDiaeresis, 1))
    else if c == CapitalUDiaeresisAcute then Some((CapitalUDiaeresis, 2))
    else if c == CapitalUDiaeresisCaron then Some((CapitalUDiaeresis, 3))
    else if c == CapitalUDiaeresisGrave then Some((CapitalUDiaeresis, 4))
    else None
  }

  /** On its intended domain, twelve vowels times tones 1 to 4, the
      sum-keyed lookup returns the accent the pair stands for. */
  lemma {:induction false} ToneMapAgrees(vowel: Wide, tone: nat)
    requires IsVowel(vowel) && 1 <= tone <= 4
    ensures ToneMap(vowel, tone) == ToneMapFixed(vowel, tone)
  {
    assert ToneKey(vowel, tone) == vowel + tone;
    if vowel == SmallA || vowel == SmallE || vowel == SmallI {
    } else if vowel == SmallO || vowel == SmallU || vowel == SmallUDiaeresis {
    } else if vowel == CapitalA || vowel == CapitalE || vowel == CapitalI {
    } else {
    }
  }

  /** The 48 accented letters are pairwise distinct: every one of them
      decomposes back into the pair that produced it. */
  lemma ToneMapInjective(vowel: Wide, tone: nat)
    requires IsVowel(vowel) && 1 <= tone <= 4
    ensures Decompose(ToneMapFixed(vowel, tone)) == Some((vowel, tone))
  {
  }

  /** Removing the accent gives back the vowel for a, e, i, o and u in either
      case. */
  lemma ToneUnmapRoundTrip(vowel: Wide, tone: nat)
    requires IsVowel(vowel) && vowel != SmallUDiaeresis && vowel != CapitalUDiaeresis
    requires 1 <= tone <= 4
    ensures ToneUnmap(ToneMap(vowel, tone)) == vowel
  {
    ToneMapAgrees(vowel, tone);
    UnmapMarks(vowel, tone - 1);
  }

  /** Each accented form of a, e, i, o or u loses its accent again. */
  lemma UnmapMarks(vowel: Wide, k: nat)
    requires IsVowel(vowel) && vowel != SmallUDiaeresis && vowel != CapitalUDiaeresis
    requires k < 4
    ensures ToneUnmap(Marks(vowel)[k]) == vowel
  {
    if vowel == SmallA || vowel == SmallE || vowel == SmallI || vowel == SmallO || vowel == SmallU {
      UnmapSmallMarks(vowel, k);
    } else {
      UnmapCapitalMarks(vowel, k);
    }
  }

  lemma UnmapSmallMarks(vowel: Wide, k: nat)
    requires vowel == SmallA || vowel == SmallE || vowel == SmallI || vowel == SmallO || vowel == SmallU
    requires k < 4
    ensures ToneUnmap(Marks(vowel)[k]) == vowel
  {
    if vowel == SmallA || vowel == SmallE {
    } else if vowel == SmallI {
    } else {
    }
  }

  lemma UnmapCapitalMarks(vowel: Wide, k: nat)
    requires vowel == CapitalA || vowel == CapitalE || vowel == CapitalI || vowel == CapitalO || vowel == CapitalU
    requires k < 4
    ensures ToneUnmap(Marks(vowel)[k]) == vowel
  {
    if vowel == CapitalA || vowel == CapitalE {
    } else if vowel == CapitalI {
    } else {
    }
  }

  /** For u-diaeresis the round trip ends at plain u: the diaeresis is lost. */
  lemma ToneUnmapLosesDiaeresis(tone: nat)
    requires 1 <= tone <= 4
    ensures ToneUnmap(ToneMap(SmallUDiaeresis, tone)) == SmallU
    ensures ToneUnmap(ToneMap(CapitalUDiaeresis, tone)) == CapitalU
  {
    ToneMapAgrees(SmallUDiaeresis, tone);
    ToneMapAgrees(CapitalUDiaeresis, tone);
  }

  /** `toneunmap` changes exactly the 48 accented letters, and maps each of
      them to a plain vowel. */
  lemma ToneUnmapChangesIff(c: Wide)
    ensures ToneUnmap(c) != c <==> Decompose(c).Some?
    ensures ToneUnmap(c) != c ==> IsVowel(ToneUnmap(c))
  {
  }

  /** Applying `toneunmap` twice is applying it once. */
  lemma ToneUnmapIdempotent(c: Wide)
    ensures ToneUnmap(ToneUnmap(c)) == ToneUnmap(c)
  {
    ToneUnmapChangesIff(c);
    ToneUnmapChangesIff(ToneUnmap(c));
  }

  /** Without 32-bit wrap-around, `tonemap` changes the letter exactly when
      the sum `vowel + tone` is one of the table keys, whatever the letter. */
  lemma ToneMapChangesIff(c: Wide, tone: nat)
    requires c + tone < 0x1_0000_0000
    ensures ToneMap(c, tone) != c <==> IsToneKey(c + tone)
  {
  }

  /** The neutral tone leaks through the sum-keyed lookup: a + 5 is the key
      of e with tone 1, e + 5 the key of i with tone 1, and likewise in upper
      case, while the other vowels come back unchanged. */
  lemma NeutralToneLeak()
    ensures ToneMap(SmallA, 5) == SmallEMacron
    ensures ToneMap(SmallE, 5) == SmallIMacron
    ensures ToneMap(CapitalA, 5) == CapitalEMacron
    ensures ToneMap(CapitalE, 5) == CapitalIMacron
    ensures forall v | v in {SmallI, SmallO, SmallU, SmallUDiaeresis, CapitalI, CapitalO, CapitalU, CapitalUDiaeresis}
      :: ToneMap(v, 5) == v
  {
  }

  /** A consonant can hit a key too: n + 2 is the key of o with tone 1. */
  lemma ConsonantLeak()
    ensures ToneMap('n' as int, 2) == SmallOMacron
    ensures ToneMap('r' as int, 5) == SmallUAcute
  {
  }

  /** Every accented letter is a vowel with one of the tones 1 to 4 on it. */
  lemma DecomposeInverts(c: int)
    ensures Decompose(c).Some? ==>
      var (vowel, tone) := Decompose(c).value;
      IsVowel(vowel) && 1 <= tone <= 4 && ToneMapFixed(vowel, tone) == c
  {
  }

  /** `is_vowel` holds exactly for the letters that are the base of an
      accented letter, and never for an accented letter. */
  lemma IsVowelExact(c: Wide)
    ensures IsVowel(c) <==> exists a :: Decompose(a).Some? && Decompose(a).value.0 == c
    ensures Decompose(c).Some? ==> !IsVowel(c)
  {
    if IsVowel(c) {
      ToneMapInjective(c, 1);
      assert Decompose(ToneMapFixed(c, 1)).value.0 == c;
    }
    forall a | Decompose(a).Some? && Decompose(a).value.0 == c
      ensures IsVowel(c)
    {
      DecomposeInverts(a);
    }
  }
}
