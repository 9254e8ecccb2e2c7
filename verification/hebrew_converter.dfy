/** The consonant extraction and Paleo-Hebrew letter mapping
    (`utils/hebrew_converter.py`): stripping nikud, cantillation and the
    ancient punctuation marks, mapping the 22 letters and 5 final forms onto
    the 22 Paleo glyphs U+10900..U+10915, the lossy reverse mapping, and the
    simplified modern pronunciation guide. */
module HebrewConverter {
  import opened PyStr

  /** HEBREW_TO_PALEO, entry by entry: every letter and final form to its
      Paleo glyph, and the space to itself. */
  function GlyphOf(c: char): char
    requires IsHebrewLetter(c) || c == ' '
  {
    match c
    case 'א' => '\U{10900}'  // Aleph
    case 'ב' => '\U{10901}'  // Bet
    case 'ג' => '\U{10902}'  // Gimel
    case 'ד' => '\U{10903}'  // Dalet
    case 'ה' => '\U{10904}'  // Hey
    case 'ו' => '\U{10905}'  // Vav
    case 'ז' => '\U{10906}'  // Zayin
    case 'ח' => '\U{10907}'  // Chet
    case 'ט' => '\U{10908}'  // Tet
    case 'י' => '\U{10909}'  // Yod
    case 'כ' => '\U{1090A}'  // Kaf
    case 'ך' => '\U{1090A}'  // Final Kaf
    case 'ל' => '\U{1090B}'  // Lamed
    case 'מ' => '\U{1090C}'  // Mem
    case 'ם' => '\U{1090C}'  // Final Mem
    case 'נ' => '\U{1090D}'  // Nun
    case 'ן' => '\U{1090D}'  // Final Nun
    case 'ס' => '\U{1090E}'  // Samekh
    case 'ע' => '\U{1090F}'  // Ayin
    case 'פ' => '\U{10910}'  // Pey
    case 'ף' => '\U{10910}'  // Final Pey
    case 'צ' => '\U{10911}'  // Tsadey
    case 'ץ' => '\U{10911}'  // Final Tsadey
    case 'ק' => '\U{10912}'  // Qof
    case 'ר' => '\U{10913}'  // Resh
    case 'ש' => '\U{10914}'  // Shin
    case 'ת' => '\U{10915}'  // Tav
    case _ => ' '
  }

  /** HEBREW_TO_PALEO */
  const HebrewToPaleoTable: map<char, char> := map c: char | 'א' <= c <= 'ת' || c == ' ' :: GlyphOf(c)

  const FinalForms: set<char> := {'ך', 'ם', 'ן', 'ף', 'ץ'}

  /** The non-final letter a final form is written as elsewhere in a word. */
  function BaseForm(f: char): char
    requires f in FinalForms
  {
    match f
    case 'ך' => 'כ'
    case 'ם' => 'מ'
    case 'ן' => 'נ'
    case 'ף' => 'פ'
    case 'ץ' => 'צ'
  }

  /** The 27 letter forms: the Unicode range U+05D0..U+05EA. */
  predicate IsHebrewLetter(c: char) {
    'א' <= c <= 'ת'
  }

  predicate IsPaleoGlyph(c: char) {
    '\U{10900}' <= c <= '\U{10915}'
  }

  /** The non-final letter each Paleo glyph was mapped from, and the space
      from itself. */
  function LetterOfGlyph(g: char): char
    requires IsPaleoGlyph(g) || g == ' '
  {
    match g
    case '\U{10900}' => 'א'
    case '\U{10901}' => 'ב'
    case '\U{10902}' => 'ג'
    case '\U{10903}' => 'ד'
    case '\U{10904}' => 'ה'
    case '\U{10905}' => 'ו'
    case '\U{10906}' => 'ז'
    case '\U{10907}' => 'ח'
    case '\U{10908}' => 'ט'
    case '\U{10909}' => 'י'
    case '\U{1090A}' => 'כ'
    case '\U{1090B}' => 'ל'
    case '\U{1090C}' => 'מ'
    case '\U{1090D}' => 'נ'
    case '\U{1090E}' => 'ס'
    case '\U{1090F}' => 'ע'
    case '\U{10910}' => 'פ'
    case '\U{10911}' => 'צ'
    case '\U{10912}' => 'ק'
    case '\U{10913}' => 'ר'
    case '\U{10914}' => 'ש'
    case '\U{10915}' => 'ת'
    case _ => ' '
  }

  /** PALEO_TO_HEBREW: every Paleo glyph and the space to the non-final
      letter it stands for. The source builds it by turning HEBREW_TO_PALEO
      around and leaving out the final-form keys; `ReverseTableUndoesGlyphs`
      and `ReverseTableComesFromGlyphs` show this table is exactly that. */
  const PaleoToHebrewTable: map<char, char> := map g: char | IsPaleoOrSpace(g) :: LetterOfGlyph(g)

  predicate NonFinalKey(k: char) {
    (IsHebrewLetter(k) || k == ' ') && k !in FinalForms
  }

  /** The Paleo glyph of a non-final key leads back to it. */
  lemma GlyphBack(k: char)
    requires NonFinalKey(k)
    ensures IsPaleoOrSpace(GlyphOf(k)) && LetterOfGlyph(GlyphOf(k)) == k
  {
    if k == ' ' {
    } else if k <= 'ז' {
      GlyphBackLow(k);
    } else if k <= 'ם' {
      GlyphBackMid(k);
    } else {
      GlyphBackHigh(k);
    }
  }

  lemma GlyphBackLow(k: char)
    requires 'א' <= k <= 'ז'
    ensures IsPaleoOrSpace(GlyphOf(k)) && LetterOfGlyph(GlyphOf(k)) == k
  {
  }

  lemma GlyphBackMid(k: char)
    requires 'ח' <= k <= 'ם' && k !in FinalForms
    ensures IsPaleoOrSpace(GlyphOf(k)) && LetterOfGlyph(GlyphOf(k)) == k
  {
  }

  lemma GlyphBackHigh(k: char)
    requires 'מ' <= k <= 'ת' && k !in FinalForms
    ensures IsPaleoOrSpace(GlyphOf(k)) && LetterOfGlyph(GlyphOf(k)) == k
  {
  }

  /** Every non-final key of HEBREW_TO_PALEO is found again under its glyph
      in the reverse table. */
  lemma ReverseTableUndoesGlyphs(k: char)
    requires NonFinalKey(k)
    ensures GlyphOf(k) in PaleoToHebrewTable && PaleoToHebrewTable[GlyphOf(k)] == k
  {
    GlyphBack(k);
  }

  /** The reverse table holds the Paleo glyphs and the space and nothing else,
      and each of its values is a non-final key whose glyph is the entry's key:
      no entry exists that turning HEBREW_TO_PALEO around would not make. */
  lemma ReverseTableComesFromGlyphs(g: char)
    ensures g in PaleoToHebrewTable <==> IsPaleoOrSpace(g)
    ensures g in PaleoToHebrewTable ==>
      NonFinalKey(PaleoToHebrewTable[g]) && GlyphOf(PaleoToHebrewTable[g]) == g
  {
    if IsPaleoOrSpace(g) {
      LetterBack(g);
    }
  }

  /** Every glyph and the space come from a non-final key. */
  lemma LetterBack(g: char)
    requires IsPaleoOrSpace(g)
    ensures NonFinalKey(LetterOfGlyph(g)) && GlyphOf(LetterOfGlyph(g)) == g
  {
    if g == ' ' {
    } else if g <= '\U{10907}' {
      LetterBackLow(g);
    } else if g <= '\U{1090E}' {
      LetterBackMid(g);
    } else {
      LetterBackHigh(g);
    }
  }

  lemma LetterBackLow(g: char)
    requires '\U{10900}' <= g <= '\U{10907}'
    ensures NonFinalKey(LetterOfGlyph(g)) && GlyphOf(LetterOfGlyph(g)) == g
  {
  }

  lemma LetterBackMid(g: char)
    requires '\U{10908}' <= g <= '\U{1090E}'
    ensures NonFinalKey(LetterOfGlyph(g)) && GlyphOf(LetterOfGlyph(g)) == g
  {
  }

  lemma LetterBackHigh(g: char)
    requires '\U{1090F}' <= g <= '\U{10915}'
    ensures NonFinalKey(LetterOfGlyph(g)) && GlyphOf(LetterOfGlyph(g)) == g
  {
  }

  /** The code points `remove_nikud` skips: its four ancient punctuation marks
      (maqaf, sof pasuq, paseq, nun hafukha) and its five ranges of points and
      accents. */
  predicate IsNikudOrPunctuation(c: char) {
    || c as int in {0x05BE, 0x05C3, 0x05C0, 0x05C6}
    || 0x0591 <= c as int <= 0x05BD
    || 0x05BF <= c as int <= 0x05BF
    || 0x05C1 <= c as int <= 0x05C2
    || 0x05C4 <= c as int <= 0x05C5
    || 0x05C7 <= c as int <= 0x05C7
  }

  /** The contiguous block of Hebrew points, accents and marks. */
  predicate InMarkBlock(c: char) {
    '\U{0591}' <= c <= '\U{05C7}'
  }

  predicate KeptByRemoveNikud(c: char) {
    !InMarkBlock(c)
  }

  /** `remove_nikud`: the result is the input with exactly the code points
      U+0591..U+05C7 deleted, everything else kept in order. */
  function RemoveNikud(s: string): (r: string)
    ensures r == Filter(s, KeptByRemoveNikud)
    decreases |s|
  {
    if s == [] then []
    else (if IsNikudOrPunctuation(s[0]) then [] else [s[0]]) + RemoveNikud(s[1..])
  }

  /** `remove_nikud` never lengthens its input, maps "" to "", and is idempotent. */
  lemma RemoveNikudIdempotent(s: string)
    ensures |RemoveNikud(s)| <= |s|
    ensures RemoveNikud([]) == []
    ensures RemoveNikud(RemoveNikud(s)) == RemoveNikud(s)
  {
    FilterKeepsAll(RemoveNikud(s), KeptByRemoveNikud);
  }

  lemma RemoveNikudAppend(a: string, b: string)
    ensures RemoveNikud(a + b) == RemoveNikud(a) + RemoveNikud(b)
  {
    FilterAppend(a, b, KeptByRemoveNikud);
  }

  /** Text without any code point of the mark block is left alone. */
  lemma RemoveNikudOfClean(s: string)
    requires forall i :: 0 <= i < |s| ==> !InMarkBlock(s[i])
    ensures RemoveNikud(s) == s
  {
    FilterKeepsAll(s, KeptByRemoveNikud);
  }

  /** Every value of HEBREW_TO_PALEO is a Paleo glyph or the space. */
  lemma GlyphIsPaleo(c: char)
    requires IsHebrewLetter(c) || c == ' '
    ensures IsPaleoOrSpace(GlyphOf(c))
  {
    if c == ' ' {
    } else if c <= 'ז' {
      GlyphBackLow(c);
    } else if c <= 'ם' {
      GlyphIsPaleoMid(c);
    } else {
      GlyphIsPaleoHigh(c);
    }
  }

  lemma GlyphIsPaleoMid(c: char)
    requires 'ח' <= c <= 'ם'
    ensures IsPaleoOrSpace(GlyphOf(c))
  {
  }

  lemma GlyphIsPaleoHigh(c: char)
    requires 'מ' <= c <= 'ת'
    ensures IsPaleoOrSpace(GlyphOf(c))
  {
  }

  /** What one nikud-free character turns into in Paleo script. */
  function PaleoOf(c: char): (r: string)
    ensures |r| <= 1 && forall i :: 0 <= i < |r| ==> IsPaleoOrSpace(r[i])
  {
    if c in HebrewToPaleoTable then
      GlyphIsPaleo(c);
      [HebrewToPaleoTable[c]]
    else if IsSpace(c) then " "
    else ""
  }

  predicate IsPaleoOrSpace(c: char) {
    IsPaleoGlyph(c) || c == ' '
  }

  function MapPaleo(t: string): (r: string)
    ensures |r| <= |t|
    ensures forall i :: 0 <= i < |r| ==> IsPaleoOrSpace(r[i])
    decreases |t|
  {
    if t == [] then [] else PaleoOf(t[0]) + MapPaleo(t[1..])
  }

  /** `hebrew_to_paleo`: the output holds only the 22 Paleo glyphs and the
      space, and never more characters than the input. */
  function HebrewToPaleo(s: string): (r: string)
    ensures |r| <= |s|
    ensures forall i :: 0 <= i < |r| ==> IsPaleoOrSpace(r[i])
  {
    MapPaleo(RemoveNikud(s))
  }

  lemma MapPaleoAppend(a: string, b: string)
    ensures MapPaleo(a + b) == MapPaleo(a) + MapPaleo(b)
    decreases |a|
  {
    if a == [] {
      assert a + b == b;
    } else {
      assert (a + b)[1..] == a[1..] + b;
      MapPaleoAppend(a[1..], b);
    }
  }

  /** The mapping works character by character. */
  lemma HebrewToPaleoAppend(a: string, b: string)
    ensures HebrewToPaleo(a + b) == HebrewToPaleo(a) + HebrewToPaleo(b)
  {
    RemoveNikudAppend(a, b);
    MapPaleoAppend(RemoveNikud(a), RemoveNikud(b));
  }

  /** Each of the 27 letter forms becomes exactly its glyph; each final form
      becomes the glyph of its base letter. */
  lemma LetterToGlyph(c: char)
    requires IsHebrewLetter(c)
    ensures HebrewToPaleo([c]) == [HebrewToPaleoTable[c]] == [GlyphOf(c)]
    ensures c in FinalForms ==> HebrewToPaleo([c]) == HebrewToPaleo([BaseForm(c)])
  {
    assert RemoveNikud([c]) == [c];
    if c in FinalForms {
      assert RemoveNikud([BaseForm(c)]) == [BaseForm(c)];
      FinalGlyph(c);
    }
  }

  /** A final form has the glyph of its base letter. */
  lemma FinalGlyph(c: char)
    requires c in FinalForms
    ensures GlyphOf(c) == GlyphOf(BaseForm(c))
  {
    match c
    case 'ך' =>
    case 'ם' =>
    case 'ן' =>
    case 'ף' =>
    case 'ץ' =>
  }

  /** Any whitespace character (tab, newline, ...) becomes a single space. */
  lemma WhitespaceToSpace(c: char)
    requires IsSpace(c)
    ensures HebrewToPaleo([c]) == " "
  {
  }

  /** Digits, Latin letters, punctuation and nikud are dropped. */
  lemma OtherCharsDropped(c: char)
    requires !IsHebrewLetter(c) && !IsSpace(c)
    ensures HebrewToPaleo([c]) == ""
  {
  }

  /** `paleo_to_hebrew`: characters outside the table pass through unchanged;
      the output has the length of the input. */
  function PaleoToHebrew(s: string): (r: string)
    ensures |r| == |s|
    decreases |s|
  {
    if s == [] then []
    else
      var c := if s[0] in PaleoToHebrewTable then PaleoToHebrewTable[s[0]] else s[0];
      [c] + PaleoToHebrew(s[1..])
  }

  lemma PaleoToHebrewAppend(a: string, b: string)
    ensures PaleoToHebrew(a + b) == PaleoToHebrew(a) + PaleoToHebrew(b)
    decreases |a|
  {
    if a == [] {
      assert a + b == b;
    } else {
      assert (a + b)[1..] == a[1..] + b;
      PaleoToHebrewAppend(a[1..], b);
    }
  }

  /** A character the reverse table does not know comes back unchanged. */
  lemma PaleoToHebrewPassThrough(c: char)
    requires !IsPaleoGlyph(c) && c != ' '
    ensures PaleoToHebrew([c]) == [c]
  {
  }

  predicate NonFinalLetterOrSpace(c: char) {
    (IsHebrewLetter(c) && c !in FinalForms) || c == ' '
  }

  /** Text made of non-final letters and spaces survives the round trip. */
  lemma {:induction false} RoundTrip(s: string)
    requires forall i :: 0 <= i < |s| ==> NonFinalLetterOrSpace(s[i])
    ensures PaleoToHebrew(HebrewToPaleo(s)) == s
    decreases |s|
  {
    if s != [] {
      var c := s[0];
      assert s == [c] + s[1..];
      HebrewToPaleoAppend([c], s[1..]);
      RoundTrip(s[1..]);
      PaleoToHebrewAppend(HebrewToPaleo([c]), HebrewToPaleo(s[1..]));
      RoundTripChar(c);
    }
  }

  lemma RoundTripChar(c: char)
    requires NonFinalLetterOrSpace(c)
    ensures PaleoToHebrew(HebrewToPaleo([c])) == [c]
  {
    if c == ' ' {
      assert HebrewToPaleo([c]) == " ";
      assert PaleoToHebrew(" ") == [LetterOfGlyph(' ')];
    } else {
      LetterToGlyph(c);
      ReverseTableUndoesGlyphs(c);
      assert PaleoToHebrew([GlyphOf(c)]) == [PaleoToHebrewTable[GlyphOf(c)]];
    }
  }

  /** A final letter comes back as its base form, so the round trip is lossy:
      "מלך" (king) returns as "מלכ". */
  lemma FinalFormRoundTrip(c: char)
    requires c in FinalForms
    ensures PaleoToHebrew(HebrewToPaleo([c])) == [BaseForm(c)]
  {
    LetterToGlyph(c);
    LetterToGlyph(BaseForm(c));
    RoundTrip([BaseForm(c)]);
  }

  lemma KingRoundTrip()
    ensures PaleoToHebrew(HebrewToPaleo("מלך")) == "מלכ"
  {
    var stem: string := ['מ', 'ל'];
    var kaf: char := 'ך';
    assert "מלך" == stem + [kaf];
    HebrewToPaleoAppend(stem, [kaf]);
    var p1 := HebrewToPaleo(stem);
    var p2 := HebrewToPaleo([kaf]);
    PaleoToHebrewAppend(p1, p2);
    RoundTrip(stem);
    FinalFormRoundTrip(kaf);
    assert stem + [BaseForm(kaf)] == "מלכ";
  }

  /** The simplified modern transliteration of `get_pronunciation_guide`,
      entry by entry. */
  function GuideSound(c: char): string
    requires NonFinalKey(c)
  {
    match c
    case 'א' => ""
    case 'ב' => "b"
    case 'ג' => "g"
    case 'ד' => "d"
    case 'ה' => "h"
    case 'ו' => "v"
    case 'ז' => "z"
    case 'ח' => "ch"
    case 'ט' => "t"
    case 'י' => "y"
    case 'כ' => "k"
    case 'ל' => "l"
    case 'מ' => "m"
    case 'נ' => "n"
    case 'ס' => "s"
    case 'ע' => ""
    case 'פ' => "p"
    case 'צ' => "ts"
    case 'ק' => "q"
    case 'ר' => "r"
    case 'ש' => "sh"
    case 'ת' => "t"
    case _ => " "
  }

  /** The table of `get_pronunciation_guide`: the 22 non-final letters and the
      space; final forms are not in it. */
  const GuideTable: map<char, string> := map c: char | NonFinalKey(c) :: GuideSound(c)

  /** A character the guide may emit: a lower-case Latin letter or the
      space. */
  predicate IsGuideChar(x: char) {
    'a' <= x <= 'z' || x == ' '
  }

  /** Every table entry is written in lower-case Latin letters and spaces. */
  lemma GuideSoundLatin(c: char)
    requires NonFinalKey(c)
    ensures forall i :: 0 <= i < |GuideSound(c)| ==> IsGuideChar(GuideSound(c)[i])
  {
  }

  /** The pronunciation before the final strip: the pointless text with
      every character looked up in the table, unmapped ones kept. */
  function GuideRaw(s: string): string {
    CharMap(GuideTable, RemoveNikud(s))
  }

  /** Nothing the guide emits is a non-final Hebrew letter or a mark: each
      emitted character is a table sound or an unmapped character kept. */
  lemma {:induction false} GuideRawClean(t: string)
    requires forall i :: 0 <= i < |t| ==> !InMarkBlock(t[i])
    ensures forall i :: 0 <= i < |CharMap(GuideTable, t)| ==>
              && !(IsHebrewLetter(CharMap(GuideTable, t)[i]) && CharMap(GuideTable, t)[i] !in FinalForms)
              && !InMarkBlock(CharMap(GuideTable, t)[i])
    decreases |t|
  {
    if t != [] {
      var c := t[0];
      var head := SoundOr(GuideTable, c);
      GuideRawClean(t[1..]);
      if NonFinalKey(c) {
        GuideSoundLatin(c);
        assert head == GuideSound(c);
      } else {
        assert head == [c];
      }
      assert CharMap(GuideTable, t) == head + CharMap(GuideTable, t[1..]);
    }
  }

  /** `get_pronunciation_guide`: the result carries no leading or trailing
      whitespace, and neither a non-final Hebrew letter nor a point or
      accent survives: every one of those is transliterated or dropped. */
  function PronunciationGuide(s: string): (r: string)
    ensures Stripped(r)
    ensures forall i :: 0 <= i < |r| ==> !(IsHebrewLetter(r[i]) && r[i] !in FinalForms) && !InMarkBlock(r[i])
  {
    var t := RemoveNikud(s);
    GuideRawClean(t);
    var r := Strip(GuideRaw(s));
    forall i | 0 <= i < |r|
      ensures !(IsHebrewLetter(r[i]) && r[i] !in FinalForms) && !InMarkBlock(r[i])
    {
      StripChar(GuideRaw(s), i);
    }
    r
  }

  /** The guide works character by character. */
  lemma GuideRawAppend(a: string, b: string)
    ensures GuideRaw(a + b) == GuideRaw(a) + GuideRaw(b)
  {
    RemoveNikudAppend(a, b);
    CharMapAppend(GuideTable, RemoveNikud(a), RemoveNikud(b));
  }

  /** One character: a point or accent gives nothing, a table key its sound,
      anything else itself. */
  lemma GuideRawChar(c: char)
    ensures InMarkBlock(c) ==> GuideRaw([c]) == ""
    ensures !InMarkBlock(c) && NonFinalKey(c) ==> GuideRaw([c]) == GuideSound(c)
    ensures !InMarkBlock(c) && !NonFinalKey(c) ==> GuideRaw([c]) == [c]
  {
    assert CharMap(GuideTable, []) == "";
    if !InMarkBlock(c) {
      assert RemoveNikud([c]) == [c];
      assert CharMap(GuideTable, [c]) == SoundOr(GuideTable, c) + CharMap(GuideTable, []);
    } else {
      assert RemoveNikud([c]) == [];
    }
  }

  /** The character at any place of a word, between its two parts. */
  lemma GuideRawAt(a: string, c: char, b: string)
    ensures GuideRaw(a + [c] + b) == GuideRaw(a) + GuideRaw([c]) + GuideRaw(b)
  {
    GuideRawAppend(a + [c], b);
    GuideRawAppend(a, [c]);
  }

  /** A character outside the marks and the table is kept as it is. */
  lemma KeptChar(c: char)
    requires !InMarkBlock(c) && !NonFinalKey(c)
    ensures GuideRaw([c]) == [c]
  {
    assert RemoveNikud([c]) == [c];
    assert c !in GuideTable;
    assert CharMap(GuideTable, [c]) == SoundOr(GuideTable, c) + CharMap(GuideTable, []);
  }

  /** A table key gives its table sound. */
  lemma KeyChar(c: char)
    requires NonFinalKey(c)
    ensures GuideRaw([c]) == GuideTable[c]
  {
    assert !InMarkBlock(c);
    assert RemoveNikud([c]) == [c];
    assert CharMap(GuideTable, [c]) == SoundOr(GuideTable, c) + CharMap(GuideTable, []);
  }

  lemma SilentChar(c: char)
    requires c == 'א' || c == 'ע'
    ensures GuideRaw([c]) == ""
  {
    KeyChar(c);
    assert GuideTable[c] == GuideSound(c);
  }

  lemma SilentLeading(c: char, b: string)
    requires GuideRaw([c]) == ""
    ensures PronunciationGuide([c] + b) == PronunciationGuide(b)
  {
    GuideRawAppend([c], b);
    assert GuideRaw([c] + b) == GuideRaw(b);
  }

  /** Aleph and ayin are silent wherever they stand; a leading one adds
      nothing to the guide. */
  lemma SilentLetters(a: string, c: char, b: string)
    requires c == 'א' || c == 'ע'
    ensures GuideRaw(a + [c] + b) == GuideRaw(a) + GuideRaw(b)
    ensures PronunciationGuide([c] + b) == PronunciationGuide(b)
  {
    SilentChar(c);
    GuideRawAt(a, c, b);
    assert GuideRaw(a) + "" == GuideRaw(a);
    SilentLeading(c, b);
  }

  /** A one-character word whose guide is that character unchanged. */
  lemma SingleGuide(c: char)
    requires GuideRaw([c]) == [c] && !IsSpace(c)
    ensures PronunciationGuide([c]) == [c]
  {
    StripOfStripped([c]);
  }

  /** Final forms are missing from the table and come through as Hebrew,
      wherever they stand. */
  lemma FinalFormsUntransliterated(a: string, c: char, b: string)
    requires c in FinalForms
    ensures GuideRaw(a + [c] + b) == GuideRaw(a) + [c] + GuideRaw(b)
    ensures PronunciationGuide([c]) == [c]
  {
    KeptChar(c);
    GuideRawAt(a, c, b);
    SingleGuide(c);
  }

  lemma VavChar()
    ensures GuideRaw("ו") == "v"
  {
    KeyChar('ו');
    assert GuideTable['ו'] == GuideSound('ו');
  }

  /** Vav is read as the modern "v", wherever it stands. */
  lemma VavIsV(a: string, b: string)
    ensures GuideRaw(a + "ו" + b) == GuideRaw(a) + "v" + GuideRaw(b)
    ensures PronunciationGuide("ו") == "v"
  {
    VavChar();
    GuideRawAt(a, 'ו', b);
    assert PronunciationGuide("ו") == Strip("v");
    StripOfStripped("v");
  }
}
