/** The pure helpers of `BibleImporter` (`utils/bible_importer.py`): the
    word-for-word literal translation, the verse record built from one
    Hebrew/English pair, and the walk over a Sefaria `texts` response. */
module BibleImporter {
  import opened PyStr
  import opened PyJson
  import opened HebrewConverter
  import opened ReplacePass
  import opened Transliterator

  const CommonWordCount: nat := 23

  /** `common_words` of `_create_literal_translation`, entry by entry, in the
      order of the dict literal. */
  function CommonWordEntry(k: nat): (string, string)
    requires k < CommonWordCount
  {
    match k
    case 0 => ("בראשית", "in-beginning")
    case 1 => ("ברא", "created")
    case 2 => ("אלהים", "God/gods")
    case 3 => ("את", "[obj]")
    case 4 => ("השמים", "the-heavens")
    case 5 => ("ואת", "and-[obj]")
    case 6 => ("הארץ", "the-earth")
    case 7 => ("והארץ", "and-the-earth")
    case 8 => ("היתה", "was")
    case 9 => ("תהו", "formless")
    case 10 => ("ובהו", "and-void")
    case 11 => ("וחשך", "and-darkness")
    case 12 => ("על", "upon")
    case 13 => ("פני", "face-of")
    case 14 => ("תהום", "deep")
    case 15 => ("ורוח", "and-spirit")
    case 16 => ("מרחפת", "hovering")
    case 17 => ("ויאמר", "and-said")
    case 18 => ("יהי", "let-be")
    case 19 => ("אור", "light")
    case 20 => ("וירא", "and-saw")
    case 21 => ("כי", "that")
    case _ => ("טוב", "good")
  }

  /** `common_words` in table order. */
  function CommonWords(): (t: Table)
    ensures |t| == CommonWordCount
    ensures forall k :: 0 <= k < CommonWordCount ==> t[k] == CommonWordEntry(k)
  {
    seq(CommonWordCount, k requires 0 <= k < CommonWordCount => CommonWordEntry(k))
  }

  predicate GlossChar(c: char) {
    ('a' <= c <= 'z') || ('A' <= c <= 'Z') || c in {'-', '/', '[', ']'}
  }

  predicate GoodGloss(g: string) {
    g != [] && forall i :: 0 <= i < |g| ==> GlossChar(g[i])
  }

  /** Every gloss of the table is a non-empty string of letters, hyphens,
      slashes and brackets. */
  lemma CommonWordsShape(k: nat)
    requires k < CommonWordCount
    ensures GoodGloss(CommonWords()[k].1)
  {
    if k < 3 {
      GlossesFrom0(k);
    } else if k < 6 {
      GlossesFrom3(k);
    } else if k < 9 {
      GlossesFrom6(k);
    } else if k < 12 {
      GlossesFrom9(k);
    } else if k < 15 {
      GlossesFrom12(k);
    } else if k < 18 {
      GlossesFrom15(k);
    } else if k < 21 {
      GlossesFrom18(k);
    } else {
      GlossesFrom21(k);
    }
  }

  lemma GlossesFrom0(k: nat)
    requires 0 <= k < 3
    ensures GoodGloss(CommonWordEntry(k).1)
  {
    if k == 0 {
      assert GoodGloss(CommonWordEntry(0).1);
    } else if k == 1 {
      assert GoodGloss(CommonWordEntry(1).1);
    } else {
      assert GoodGloss(CommonWordEntry(2).1);
    }
  }

  lemma GlossesFrom3(k: nat)
    requires 3 <= k < 6
    ensures GoodGloss(CommonWordEntry(k).1)
  {
    if k == 3 {
      assert GoodGloss(CommonWordEntry(3).1);
    } else if k == 4 {
      assert GoodGloss(CommonWordEntry(4).1);
    } else {
      assert GoodGloss(CommonWordEntry(5).1);
    }
  }

  lemma GlossesFrom6(k: nat)
    requires 6 <= k < 9
    ensures GoodGloss(CommonWordEntry(k).1)
  {
    if k == 6 {
      assert GoodGloss(CommonWordEntry(6).1);
    } else if k == 7 {
      assert GoodGloss(CommonWordEntry(7).1);
    } else {
      assert GoodGloss(CommonWordEntry(8).1);
    }
  }

  lemma GlossesFrom9(k: nat)
    requires 9 <= k < 12
    ensures GoodGloss(CommonWordEntry(k).1)
  {
    if k == 9 {
      assert GoodGloss(CommonWordEntry(9).1);
    } else if k == 10 {
      assert GoodGloss(CommonWordEntry(10).1);
    } else {
      assert GoodGloss(CommonWordEntry(11).1);
    }
  }

  lemma GlossesFrom12(k: nat)
    requires 12 <= k < 15
    ensures GoodGloss(CommonWordEntry(k).1)
  {
    if k == 12 {
      assert GoodGloss(CommonWordEntry(12).1);
    } else if k == 13 {
      assert GoodGloss(CommonWordEntry(13).1);
    } else {
      assert GoodGloss(CommonWordEntry(14).1);
    }
  }

  lemma GlossesFrom15(k: nat)
    requires 15 <= k < 18
    ensures GoodGloss(CommonWordEntry(k).1)
  {
    if k == 15 {
      assert GoodGloss(CommonWordEntry(15).1);
    } else if k == 16 {
      assert GoodGloss(CommonWordEntry(16).1);
    } else {
      assert GoodGloss(CommonWordEntry(17).1);
    }
  }

  lemma GlossesFrom18(k: nat)
    requires 18 <= k < 21
    ensures GoodGloss(CommonWordEntry(k).1)
  {
    if k == 18 {
      assert GoodGloss(CommonWordEntry(18).1);
    } else if k == 19 {
      assert GoodGloss(CommonWordEntry(19).1);
    } else {
      assert GoodGloss(CommonWordEntry(20).1);
    }
  }

  lemma GlossesFrom21(k: nat)
    requires 21 <= k < 23
    ensures GoodGloss(CommonWordEntry(k).1)
  {
    if k == 21 {
      assert GoodGloss(CommonWordEntry(21).1);
    } else {
      assert GoodGloss(CommonWordEntry(22).1);
    }
  }

  /** One word's gloss: its table entry, or the word itself in brackets. */
  function Gloss(w: string): string {
    match PatternFor(CommonWords(), w)
    case Some(g) => g
    case None => "[" + w + "]"
  }

  function Glosses(ws: seq<string>): (gs: seq<string>)
    ensures |gs| == |ws|
    ensures forall k :: 0 <= k < |ws| ==> gs[k] == Gloss(ws[k])
  {
    seq(|ws|, k requires 0 <= k < |ws| => Gloss(ws[k]))
  }

  /** `_create_literal_translation` */
  function LiteralTranslation(text: string): string {
    Join(" ", Glosses(Split(text)))
  }

  /** A word without whitespace has a gloss without whitespace. */
  lemma GlossShape(w: string)
    requires NoSpace(w)
    ensures Gloss(w) != [] && NoSpace(Gloss(w))
  {
    match PatternFor(CommonWords(), w)
    case Some(g) =>
      var k :| 0 <= k < |CommonWords()| && CommonWords()[k].0 == w && CommonWords()[k].1 == g;
      CommonWordsShape(k);
    case None =>
      var g := "[" + w + "]";
      forall i | 0 <= i < |g|
        ensures !IsSpace(g[i])
      {
        if 0 < i < |g| - 1 {
          assert g[i] == w[i - 1];
        }
      }
  }

  /** The translation has one word per input word: splitting it again gives
      exactly the glosses of the input words, in order, so a known word
      becomes its table entry and an unknown one `[word]`. */
  lemma LiteralTranslationWords(text: string)
    ensures Split(LiteralTranslation(text)) == Glosses(Split(text))
    ensures |Split(LiteralTranslation(text))| == |Split(text)|
  {
    var gs := Glosses(Split(text));
    forall k | 0 <= k < |gs|
      ensures gs[k] != [] && NoSpace(gs[k])
    {
      GlossShape(Split(text)[k]);
    }
    SplitJoin(gs);
  }

  /** The dict `_create_verse_data` returns. */
  datatype VerseData = VerseData(
    chapter: int,
    verse: int,
    hebrewText: string,
    hebrewConsonantal: string,
    paleoText: string,
    paleoTransliteration: string,
    modernTransliteration: string,
    englishTranslation: string,
    literalTranslation: string,
    strongNumbers: string,
    morphology: string,
    notes: string)

  /** `_create_verse_data`, with the transliteration as the fixed
      `CreatePaleoTransliterationFixed` computes it. Every text field is
      derived from the stripped Hebrew: the consonantal text is that text
      without marks, the Paleo text is its Paleo rendering (which would be the
      same from the consonantal text), the transliteration splits back into
      the rendered words, and the literal translation has one gloss per
      consonantal word. */
  function CreateVerseData(chapter: int, verse: int, hebrew: string, english: string): (r: VerseData)
    ensures r.chapter == chapter && r.verse == verse
    ensures r.hebrewText == Strip(hebrew) && Stripped(r.hebrewText)
    ensures r.englishTranslation == Strip(english) && Stripped(r.englishTranslation)
    ensures r.hebrewConsonantal == RemoveNikud(r.hebrewText)
    ensures RemoveNikud(r.hebrewConsonantal) == r.hebrewConsonantal
    ensures r.paleoText == HebrewToPaleo(r.hebrewText) == HebrewToPaleo(r.hebrewConsonantal)
    ensures r.paleoTransliteration == CreatePaleoTransliterationFixed(r.hebrewText)
    ensures Split(r.paleoTransliteration) == NonEmpty(RenderWords(Split(Consonantal(r.hebrewText))))
    ensures Stripped(r.paleoTransliteration) && !Occurs(r.paleoTransliteration, "  ")
    ensures r.modernTransliteration == PronunciationGuide(r.hebrewText)
    ensures Stripped(r.modernTransliteration)
    ensures r.literalTranslation == LiteralTranslation(r.hebrewConsonantal)
    ensures Split(r.literalTranslation) == Glosses(Split(r.hebrewConsonantal))
    ensures |Split(r.literalTranslation)| == |Split(r.hebrewConsonantal)|
    ensures r.strongNumbers == "" && r.morphology == "" && r.notes == ""
  {
    var clean := Strip(hebrew);
    var consonantal := RemoveNikud(clean);
    RemoveNikudIdempotent(clean);
    LiteralTranslationWords(consonantal);
    FixedSplitsIntoWords(clean);
    VerseData(
      chapter, verse, clean, consonantal,
      HebrewToPaleo(clean),
      CreatePaleoTransliterationFixed(clean),
      PronunciationGuide(clean),
      Strip(english),
      LiteralTranslation(consonantal),
      "", "", "")
  }

  /** Every consonantal word of `s` has a letter other than aleph, so that
      no word renders as the empty string. */
  predicate NoSilentWord(s: string) {
    forall w :: w in Split(Consonantal(s)) ==> exists k :: 0 <= k < |w| && w[k] != 'א'
  }

  /** `_create_verse_data` exactly as the program builds the record, calling
      the as-written `create_paleo_transliteration`. It differs from the
      corrected record in the transliteration only, and not at all when no
      word of the verse is made of alephs alone. */
  function CreateVerseDataAsWritten(chapter: int, verse: int, hebrew: string, english: string): (r: VerseData)
    ensures r.paleoTransliteration == CreatePaleoTransliteration(r.hebrewText)
    ensures r.(paleoTransliteration := CreatePaleoTransliterationFixed(r.hebrewText))
              == CreateVerseData(chapter, verse, hebrew, english)
    ensures NoSilentWord(r.hebrewText) ==> r == CreateVerseData(chapter, verse, hebrew, english)
  {
    var clean := Strip(hebrew);
    var consonantal := RemoveNikud(clean);
    var r := VerseData(
      chapter, verse, clean, consonantal,
      HebrewToPaleo(clean),
      CreatePaleoTransliteration(clean),
      PronunciationGuide(clean),
      Strip(english),
      LiteralTranslation(consonantal),
      "", "", "");
    if NoSilentWord(clean) then
      FixedAgreesWithoutSilentWords(clean);
      r
    else
      r
  }

  /** On the verse "ב א" the program stores the transliteration "b ", with a
      trailing space, where the corrected record stores "b". */
  lemma VerseRecordTrailingSpace(chapter: int, verse: int, hebrew: string, english: string)
    requires hebrew == "ב א"
    ensures CreateVerseDataAsWritten(chapter, verse, hebrew, english).paleoTransliteration == "b "
    ensures CreateVerseData(chapter, verse, hebrew, english).paleoTransliteration == "b"
  {
    StripOfStripped(hebrew);
    TrailingSpaceCounterexample(hebrew);
  }

  /** One verse as the walk over a response finds it, before the record is
      built. */
  datatype RawVerse = RawVerse(chapter: nat, verse: nat, hebrew: string, english: string)

  /** Verses gathered so far, and whether an exception ended the walk (the
      caught exception leaves the verses collected before it). */
  datatype Run = Run(verses: seq<RawVerse>, failed: bool)

  /** `x[i] if i < len(x) else default` */
  function IndexOr(j: Json, i: nat, default: Json): (r: Option<Json>)
    ensures j.JList? ==> r == Some(if i < |j.items| then j.items[i] else default)
    ensures Len(j).None? ==> r.None?
  {
    match Len(j)
    case None => None
    case Some(n) => if i < n then Index(j, i) else Some(default)
  }

  /** `(a.chapter, a.verse)` comes before `(b.chapter, b.verse)`. */
  predicate Before(a: RawVerse, b: RawVerse) {
    a.chapter < b.chapter || (a.chapter == b.chapter && a.verse < b.verse)
  }

  predicate Ordered(vs: seq<RawVerse>) {
    forall i, j :: 0 <= i < j < |vs| ==> Before(vs[i], vs[j])
  }

  /** The verses of one chapter from verse index `v` on; a verse or English
      entry that is not a string makes `strip()` raise. Verse `k` holds the
      Hebrew string at index `v + k` and the English string read there; a
      walk that does not fail holds every remaining verse. */
  function VersesFrom(chapter: nat, hs: seq<Json>, english: Json, v: nat): (r: Run)
    requires v <= |hs|
    ensures |r.verses| <= |hs| - v
    ensures forall k :: 0 <= k < |r.verses| ==> r.verses[k].chapter == chapter && r.verses[k].verse == v + k + 1
    ensures forall k :: 0 <= k < |r.verses| ==> hs[v + k] == JStr(r.verses[k].hebrew)
    ensures forall k :: 0 <= k < |r.verses| ==> IndexOr(english, v + k, JStr("")) == Some(JStr(r.verses[k].english))
    ensures !r.failed ==> |r.verses| == |hs| - v
    decreases |hs| - v
  {
    if v == |hs| then Run([], false)
    else
      match IndexOr(english, v, JStr(""))
      case None => Run([], true)
      case Some(e) =>
        if hs[v].JStr? && e.JStr? then
          var rest := VersesFrom(chapter, hs, english, v + 1);
          Run([RawVerse(chapter, v + 1, hs[v].s, e.s)] + rest.verses, rest.failed)
        else Run([], true)
  }

  /** The chapters from chapter index `c` on; a chapter that is not a list is
      skipped. A walk that does not fail holds one verse per item of every
      chapter list. */
  function ChaptersFrom(chs: seq<Json>, english: Json, c: nat): (r: Run)
    requires c <= |chs|
    ensures forall k :: 0 <= k < |r.verses| ==> r.verses[k].chapter > c && r.verses[k].verse >= 1
    ensures !r.failed ==> |r.verses| == NestedCount(chs, c)
    decreases |chs| - c
  {
    if c == |chs| then Run([], false)
    else
      match IndexOr(english, c, JList([]))
      case None => Run([], true)
      case Some(ce) =>
        if chs[c].JList? then
          var here := VersesFrom(c + 1, chs[c].items, ce, 0);
          if here.failed then here
          else
            var rest := ChaptersFrom(chs, english, c + 1);
            Run(here.verses + rest.verses, rest.failed)
        else ChaptersFrom(chs, english, c + 1)
  }

  /** The verses `_process_sefaria_data` finds in a response, in order. */
  function SefariaVerses(data: Json): (vs: seq<RawVerse>)
    ensures forall k :: 0 <= k < |vs| ==> vs[k].chapter >= 1 && vs[k].verse >= 1
  {
    match Get(data, "he", JList([]))
    case None => []
    case Some(he) =>
      match Get(data, "text", JList([]))
      case None => []
      case Some(en) =>
        match Iter(he)
        case None => []
        case Some(chs) => ChaptersFrom(chs, en, 0).verses
  }

  /** `_process_sefaria_data`: one record per verse found, numbered from 1,
      built from that verse's Hebrew and English. */
  function ProcessSefariaData(data: Json): (rs: seq<VerseData>)
    ensures |rs| == |SefariaVerses(data)|
    ensures forall k :: 0 <= k < |rs| ==>
      rs[k].chapter == SefariaVerses(data)[k].chapter >= 1 && rs[k].verse == SefariaVerses(data)[k].verse >= 1
    ensures forall k :: 0 <= k < |rs| ==>
      rs[k] == CreateVerseData(SefariaVerses(data)[k].chapter, SefariaVerses(data)[k].verse,
                               SefariaVerses(data)[k].hebrew, SefariaVerses(data)[k].english)
  {
    var vs := SefariaVerses(data);
    seq(|vs|, k requires 0 <= k < |vs| => CreateVerseData(vs[k].chapter, vs[k].verse, vs[k].hebrew, vs[k].english))
  }

  /** The English string the walk reads for verse index `v` of chapter
      index `c`: `english[c]` (or `[]` past its end), then its entry `v` (or
      "" past its end); `None` where Python raises or the entry is not a
      string. */
  function EnglishAt(english: Json, c: nat, v: nat): Option<string> {
    match IndexOr(english, c, JList([]))
    case None => None
    case Some(ce) =>
      match IndexOr(ce, v, JStr(""))
      case Some(JStr(e)) => Some(e)
      case _ => None
  }

  /** `rv` is the Hebrew string at its place in the chapter lists, paired
      with the English read for that place. */
  predicate FoundVerse(chs: seq<Json>, english: Json, rv: RawVerse) {
    1 <= rv.chapter <= |chs| && chs[rv.chapter - 1].JList? && 1 <= rv.verse <= |chs[rv.chapter - 1].items|
    && chs[rv.chapter - 1].items[rv.verse - 1] == JStr(rv.hebrew)
    && EnglishAt(english, rv.chapter - 1, rv.verse - 1) == Some(rv.english)
  }

  /** One step of a chapter walk over a chapter list whose English is read:
      the chapter's verses come first, then, unless they failed, the rest. */
  lemma ChaptersFromSplit(chs: seq<Json>, english: Json, c: nat)
    requires c < |chs| && chs[c].JList? && IndexOr(english, c, JList([])).Some?
    ensures var here := VersesFrom(c + 1, chs[c].items, IndexOr(english, c, JList([])).value, 0);
            ChaptersFrom(chs, english, c).verses
              == here.verses + (if here.failed then [] else ChaptersFrom(chs, english, c + 1).verses)
  {
  }

  /** Every verse of chapter `c` is the string at its place, with the English
      read for that place. */
  lemma PlaceHere(chs: seq<Json>, english: Json, c: nat, k: nat)
    requires c < |chs| && chs[c].JList? && IndexOr(english, c, JList([])).Some?
    requires k < |VersesFrom(c + 1, chs[c].items, IndexOr(english, c, JList([])).value, 0).verses|
    ensures FoundVerse(chs, english, VersesFrom(c + 1, chs[c].items, IndexOr(english, c, JList([])).value, 0).verses[k])
  {
    var ce := IndexOr(english, c, JList([])).value;
    var x := VersesFrom(c + 1, chs[c].items, ce, 0).verses[k];
    assert IndexOr(ce, k, JStr("")) == Some(JStr(x.english));
    assert EnglishAt(english, c, k) == Some(x.english);
  }

  /** Nothing but the chapters' strings is found: every verse of the walk is
      the string at its place, with the English read for that place. */
  lemma {:induction false} ChaptersFromPlaces(chs: seq<Json>, english: Json, c: nat)
    requires c <= |chs|
    ensures forall k :: 0 <= k < |ChaptersFrom(chs, english, c).verses| ==>
              FoundVerse(chs, english, ChaptersFrom(chs, english, c).verses[k])
    decreases |chs| - c
  {
    if c < |chs| {
      ChaptersFromPlaces(chs, english, c + 1);
      if IndexOr(english, c, JList([])).Some? && chs[c].JList? {
        ChaptersFromSplit(chs, english, c);
        var here := VersesFrom(c + 1, chs[c].items, IndexOr(english, c, JList([])).value, 0);
        var rest := if here.failed then [] else ChaptersFrom(chs, english, c + 1).verses;
        forall k | 0 <= k < |here.verses + rest|
          ensures FoundVerse(chs, english, (here.verses + rest)[k])
        {
          if k < |here.verses| {
            PlaceHere(chs, english, c, k);
            assert (here.verses + rest)[k] == here.verses[k];
          } else {
            assert (here.verses + rest)[k] == rest[k - |here.verses|];
          }
        }
      }
    }
  }

  /** In a chapter walk that does not fail, every item is a string read
      together with its English, and is found. */
  lemma VerseFound(chapter: nat, hs: seq<Json>, ce: Json, v: nat, rest: seq<RawVerse>)
    requires v < |hs| && !VersesFrom(chapter, hs, ce, 0).failed
    ensures hs[v].JStr? && IndexOr(ce, v, JStr("")).Some? && IndexOr(ce, v, JStr("")).value.JStr?
    ensures RawVerse(chapter, v + 1, hs[v].s, IndexOr(ce, v, JStr("")).value.s)
              in VersesFrom(chapter, hs, ce, 0).verses + rest
  {
    var here := VersesFrom(chapter, hs, ce, 0).verses;
    assert (here + rest)[v] == here[v];
  }

  /** One step of a chapter walk that does not fail: the English chapter is
      read, the chapter's verses (when it is a list) come first, and the
      rest of the walk does not fail either. */
  lemma ChaptersFromStep(chs: seq<Json>, english: Json, c: nat)
    requires c < |chs| && !ChaptersFrom(chs, english, c).failed
    ensures IndexOr(english, c, JList([])).Some?
    ensures !ChaptersFrom(chs, english, c + 1).failed
    ensures chs[c].JList? ==>
              var here := VersesFrom(c + 1, chs[c].items, IndexOr(english, c, JList([])).value, 0);
              !here.failed && ChaptersFrom(chs, english, c).verses == here.verses + ChaptersFrom(chs, english, c + 1).verses
    ensures !chs[c].JList? ==> ChaptersFrom(chs, english, c).verses == ChaptersFrom(chs, english, c + 1).verses
  {
  }

  /** Item `v` of chapter list `d` is a string, the English read for its
      place is a string, and the verse they make is among `vs`. */
  predicate Covered(chs: seq<Json>, english: Json, d: nat, v: nat, vs: seq<RawVerse>) {
    d < |chs| && chs[d].JList? && v < |chs[d].items| && chs[d].items[v].JStr? && EnglishAt(english, d, v).Some?
    && RawVerse(d + 1, v + 1, chs[d].items[v].s, EnglishAt(english, d, v).value) in vs
  }

  /** In a walk from chapter index `c` that does not fail, every item of
      chapter `c` is covered. */
  lemma CoverHere(chs: seq<Json>, english: Json, c: nat, v: nat)
    requires c < |chs| && chs[c].JList? && v < |chs[c].items|
    requires !ChaptersFrom(chs, english, c).failed
    ensures Covered(chs, english, c, v, ChaptersFrom(chs, english, c).verses)
  {
    ChaptersFromStep(chs, english, c);
    var ce := IndexOr(english, c, JList([])).value;
    VerseFound(c + 1, chs[c].items, ce, v, ChaptersFrom(chs, english, c + 1).verses);
    assert EnglishAt(english, c, v) == Some(IndexOr(ce, v, JStr("")).value.s);
  }

  /** What the rest of a walk that does not fail covers, the walk covers. */
  lemma CoverLater(chs: seq<Json>, english: Json, c: nat, d: nat, v: nat)
    requires c < |chs| && !ChaptersFrom(chs, english, c).failed
    requires Covered(chs, english, d, v, ChaptersFrom(chs, english, c + 1).verses)
    ensures Covered(chs, english, d, v, ChaptersFrom(chs, english, c).verses)
  {
    ChaptersFromStep(chs, english, c);
  }

  /** A walk that does not fail misses no verse: every item of every chapter
      list is a string and is found with its place and its English. */
  lemma {:induction false} ChaptersFromCovers(chs: seq<Json>, english: Json, c: nat)
    requires c <= |chs|
    ensures !ChaptersFrom(chs, english, c).failed ==>
              forall d: nat, v: nat :: c <= d < |chs| && chs[d].JList? && v < |chs[d].items| ==>
                Covered(chs, english, d, v, ChaptersFrom(chs, english, c).verses)
    decreases |chs| - c
  {
    if c < |chs| && !ChaptersFrom(chs, english, c).failed {
      ChaptersFromStep(chs, english, c);
      ChaptersFromCovers(chs, english, c + 1);
      forall d: nat, v: nat | c <= d < |chs| && chs[d].JList? && v < |chs[d].items|
        ensures Covered(chs, english, d, v, ChaptersFrom(chs, english, c).verses)
      {
        if d == c {
          CoverHere(chs, english, c, v);
        } else {
          CoverLater(chs, english, c, d, v);
        }
      }
    }
  }

  /** With "he" a list of chapters, every verse found is the string at its
      place in them, with the English read for that place. */
  lemma SefariaVersesFromPlaces(data: Json, chs: seq<Json>)
    requires Get(data, "he", JList([])) == Some(JList(chs))
    ensures forall k :: 0 <= k < |SefariaVerses(data)| ==>
              FoundVerse(chs, Get(data, "text", JList([])).value, SefariaVerses(data)[k])
  {
    ChaptersFromPlaces(chs, Get(data, "text", JList([])).value, 0);
  }

  lemma {:induction false} VersesFromOrdered(chapter: nat, hs: seq<Json>, english: Json, v: nat)
    requires v <= |hs|
    ensures Ordered(VersesFrom(chapter, hs, english, v).verses)
    decreases |hs| - v
  {
    if v < |hs| {
      VersesFromOrdered(chapter, hs, english, v + 1);
    }
  }

  lemma {:induction false} ChaptersFromOrdered(chs: seq<Json>, english: Json, c: nat)
    requires c <= |chs|
    ensures Ordered(ChaptersFrom(chs, english, c).verses)
    decreases |chs| - c
  {
    if c < |chs| {
      ChaptersFromOrdered(chs, english, c + 1);
      if IndexOr(english, c, JList([])).Some? && chs[c].JList? {
        var ce := IndexOr(english, c, JList([])).value;
        VersesFromOrdered(c + 1, chs[c].items, ce, 0);
        var here := VersesFrom(c + 1, chs[c].items, ce, 0);
        var rest := ChaptersFrom(chs, english, c + 1);
        var all := here.verses + rest.verses;
        forall i, j | 0 <= i < j < |all|
          ensures Before(all[i], all[j])
        {
          if j < |here.verses| {
            assert Before(here.verses[i], here.verses[j]);
          } else if i >= |here.verses| {
            assert Before(rest.verses[i - |here.verses|], rest.verses[j - |here.verses|]);
          } else {
            assert all[i].chapter == c + 1 && all[j].chapter > c + 1;
          }
        }
      }
    }
  }

  /** The verses come out in (chapter, verse) order without repeats. */
  lemma SefariaVersesOrdered(data: Json)
    ensures Ordered(SefariaVerses(data))
  {
    var he := Get(data, "he", JList([]));
    if he.Some? && Iter(he.value).Some? {
      ChaptersFromOrdered(Iter(he.value).value, Get(data, "text", JList([])).value, 0);
    }
  }

  /** A response that is not a JSON object, or an object without "he", gives
      no verses. */
  lemma NoHebrewNoVerses(data: Json)
    requires !data.JDict? || forall k :: 0 <= k < |data.members| ==> data.members[k].0 != "he"
    ensures ProcessSefariaData(data) == []
  {
  }

  /** A list of chapters, each a list of strings. */
  predicate StringMatrix(chs: seq<Json>) {
    forall c :: 0 <= c < |chs| ==> chs[c].JList? && forall v :: 0 <= v < |chs[c].items| ==> chs[c].items[v].JStr?
  }

  /** The string at `m[c][v]`, or "" where there is none. */
  function MatrixEntry(m: seq<Json>, c: int, v: int): string {
    if 0 <= c < |m| && m[c].JList? && 0 <= v < |m[c].items| && m[c].items[v].JStr? then m[c].items[v].s else ""
  }

  /** Over English chapters of strings, the walk reads the string at the
      same place, or "". */
  lemma EnglishAtMatrix(en: seq<Json>, c: nat, v: nat)
    requires StringMatrix(en)
    ensures EnglishAt(JList(en), c, v) == Some(MatrixEntry(en, c, v))
  {
  }

  lemma {:induction false} VersesFromComplete(chapter: nat, hs: seq<Json>, english: Json, v: nat)
    requires v <= |hs|
    requires forall k :: 0 <= k < |hs| ==> hs[k].JStr?
    requires english.JList? && forall k :: 0 <= k < |english.items| ==> english.items[k].JStr?
    ensures !VersesFrom(chapter, hs, english, v).failed
    ensures |VersesFrom(chapter, hs, english, v).verses| == |hs| - v
    decreases |hs| - v
  {
    if v < |hs| {
      VersesFromComplete(chapter, hs, english, v + 1);
    }
  }

  lemma {:induction false} ChaptersFromComplete(chs: seq<Json>, english: Json, c: nat)
    requires c <= |chs| && StringMatrix(chs)
    requires english.JList? && StringMatrix(english.items)
    ensures !ChaptersFrom(chs, english, c).failed
    ensures |ChaptersFrom(chs, english, c).verses| == NestedCount(chs, c)
    decreases |chs| - c
  {
    if c < |chs| {
      ChaptersFromComplete(chs, english, c + 1);
      var ce := if c < |english.items| then english.items[c] else JList([]);
      assert IndexOr(english, c, JList([])) == Some(ce);
      VersesFromComplete(c + 1, chs[c].items, ce, 0);
    }
  }

  /** Over Hebrew and English chapters of strings every Hebrew verse is
      found, with the English at the same place or "". */
  lemma WellFormedWalkCovers(he: seq<Json>, en: seq<Json>)
    requires StringMatrix(he) && StringMatrix(en)
    requires !ChaptersFrom(he, JList(en), 0).failed
    ensures forall c: nat, v: nat :: c < |he| && v < |he[c].items| ==>
              RawVerse(c + 1, v + 1, he[c].items[v].s, MatrixEntry(en, c, v)) in ChaptersFrom(he, JList(en), 0).verses
  {
    ChaptersFromCovers(he, JList(en), 0);
    forall c: nat, v: nat | c < |he| && v < |he[c].items|
      ensures RawVerse(c + 1, v + 1, he[c].items[v].s, MatrixEntry(en, c, v)) in ChaptersFrom(he, JList(en), 0).verses
    {
      assert Covered(he, JList(en), c, v, ChaptersFrom(he, JList(en), 0).verses);
      EnglishAtMatrix(en, c, v);
    }
  }

  /** Over English chapters of strings every verse found is the Hebrew string
      at its place with the English at the same place or "". */
  lemma WellFormedWalkPlaces(he: seq<Json>, en: seq<Json>)
    requires StringMatrix(en)
    ensures forall k :: 0 <= k < |ChaptersFrom(he, JList(en), 0).verses| ==>
              var x := ChaptersFrom(he, JList(en), 0).verses[k];
              1 <= x.chapter <= |he| && he[x.chapter - 1].JList? && 1 <= x.verse <= |he[x.chapter - 1].items|
              && he[x.chapter - 1].items[x.verse - 1] == JStr(x.hebrew)
              && x.english == MatrixEntry(en, x.chapter - 1, x.verse - 1)
  {
    ChaptersFromPlaces(he, JList(en), 0);
    var vs := ChaptersFrom(he, JList(en), 0).verses;
    forall k | 0 <= k < |vs|
      ensures vs[k].english == MatrixEntry(en, vs[k].chapter - 1, vs[k].verse - 1)
    {
      assert FoundVerse(he, JList(en), vs[k]);
      EnglishAtMatrix(en, vs[k].chapter - 1, vs[k].verse - 1);
    }
  }

  /** The verses found in a response with "he" and "text" lists are the
      walk over those lists. */
  lemma ResponseLists(data: Json, he: seq<Json>, en: seq<Json>)
    requires data == JDict([("he", JList(he)), ("text", JList(en))])
    ensures SefariaVerses(data) == ChaptersFrom(he, JList(en), 0).verses
  {
    assert data.members[0] == ("he", JList(he));
    assert data.members[1] == ("text", JList(en));
    assert Get(data, "he", JList([])) == Some(JList(he));
    assert Get(data, "text", JList([])) == Some(JList(en));
  }

  /** A well-formed response (Hebrew and English both lists of chapters of
      verse strings, the English possibly shorter) loses no verse: there is
      one record per Hebrew verse, and the verse at `he[c][v]` is recorded
      as chapter `c + 1`, verse `v + 1` with `en[c][v]`, or "" past the end
      of the English. No other record is made: every verse found, from which
      `ProcessSefariaData` builds its record, is a Hebrew string at its
      place with the English of that place. */
  lemma WellFormedResponseComplete(data: Json, he: seq<Json>, en: seq<Json>)
    requires data == JDict([("he", JList(he)), ("text", JList(en))])
    requires StringMatrix(he) && StringMatrix(en)
    ensures |ProcessSefariaData(data)| == NestedCount(he, 0)
    ensures forall c: nat, v: nat :: c < |he| && v < |he[c].items| ==>
              CreateVerseData(c + 1, v + 1, he[c].items[v].s, MatrixEntry(en, c, v)) in ProcessSefariaData(data)
    ensures forall k :: 0 <= k < |SefariaVerses(data)| ==>
              var x := SefariaVerses(data)[k];
              1 <= x.chapter <= |he| && 1 <= x.verse <= |he[x.chapter - 1].items|
              && he[x.chapter - 1].items[x.verse - 1] == JStr(x.hebrew)
              && x.english == MatrixEntry(en, x.chapter - 1, x.verse - 1)
  {
    WellFormedRecordCount(data, he, en);
    WellFormedRecordsCover(data, he, en);
    WellFormedVersesAtPlaces(data, he, en);
  }

  lemma WellFormedRecordCount(data: Json, he: seq<Json>, en: seq<Json>)
    requires data == JDict([("he", JList(he)), ("text", JList(en))])
    requires StringMatrix(he) && StringMatrix(en)
    ensures |ProcessSefariaData(data)| == NestedCount(he, 0)
  {
    ResponseLists(data, he, en);
    ChaptersFromComplete(he, JList(en), 0);
  }

  lemma WellFormedRecordsCover(data: Json, he: seq<Json>, en: seq<Json>)
    requires data == JDict([("he", JList(he)), ("text", JList(en))])
    requires StringMatrix(he) && StringMatrix(en)
    ensures forall c: nat, v: nat :: c < |he| && v < |he[c].items| ==>
              CreateVerseData(c + 1, v + 1, he[c].items[v].s, MatrixEntry(en, c, v)) in ProcessSefariaData(data)
  {
    ResponseLists(data, he, en);
    ChaptersFromComplete(he, JList(en), 0);
    WellFormedWalkCovers(he, en);
    RecordsCover(SefariaVerses(data), ProcessSefariaData(data), he, en);
  }

  lemma WellFormedVersesAtPlaces(data: Json, he: seq<Json>, en: seq<Json>)
    requires data == JDict([("he", JList(he)), ("text", JList(en))])
    requires StringMatrix(en)
    ensures forall k :: 0 <= k < |SefariaVerses(data)| ==>
              var x := SefariaVerses(data)[k];
              1 <= x.chapter <= |he| && he[x.chapter - 1].JList? && 1 <= x.verse <= |he[x.chapter - 1].items|
              && he[x.chapter - 1].items[x.verse - 1] == JStr(x.hebrew)
              && x.english == MatrixEntry(en, x.chapter - 1, x.verse - 1)
  {
    ResponseLists(data, he, en);
    WellFormedWalkPlaces(he, en);
  }

  /** Records built verse by verse hold a record for every verse found. */
  lemma RecordsCover(vs: seq<RawVerse>, rs: seq<VerseData>, he: seq<Json>, en: seq<Json>)
    requires StringMatrix(he)
    requires |rs| == |vs|
    requires forall k :: 0 <= k < |rs| ==>
               rs[k] == CreateVerseData(vs[k].chapter, vs[k].verse, vs[k].hebrew, vs[k].english)
    requires forall c: nat, v: nat :: c < |he| && v < |he[c].items| ==>
               RawVerse(c + 1, v + 1, he[c].items[v].s, MatrixEntry(en, c, v)) in vs
    ensures forall c: nat, v: nat :: c < |he| && v < |he[c].items| ==>
              CreateVerseData(c + 1, v + 1, he[c].items[v].s, MatrixEntry(en, c, v)) in rs
  {
    forall c: nat, v: nat | c < |he| && v < |he[c].items|
      ensures CreateVerseData(c + 1, v + 1, he[c].items[v].s, MatrixEntry(en, c, v)) in rs
    {
      var k :| 0 <= k < |vs| && vs[k] == RawVerse(c + 1, v + 1, he[c].items[v].s, MatrixEntry(en, c, v));
      assert rs[k] == CreateVerseData(c + 1, v + 1, he[c].items[v].s, MatrixEntry(en, c, v));
    }
  }

  lemma {:induction false} VersesFromNoEnglish(chapter: nat, hs: seq<Json>, v: nat)
    requires v <= |hs|
    ensures forall k :: 0 <= k < |VersesFrom(chapter, hs, JList([]), v).verses| ==>
      VersesFrom(chapter, hs, JList([]), v).verses[k].english == ""
    decreases |hs| - v
  {
    if v < |hs| {
      VersesFromNoEnglish(chapter, hs, v + 1);
    }
  }

  lemma {:induction false} ChaptersFromNoEnglish(chs: seq<Json>, c: nat)
    requires c <= |chs|
    ensures forall k :: 0 <= k < |ChaptersFrom(chs, JList([]), c).verses| ==>
      ChaptersFrom(chs, JList([]), c).verses[k].english == ""
    decreases |chs| - c
  {
    if c < |chs| {
      ChaptersFromNoEnglish(chs, c + 1);
      if chs[c].JList? {
        VersesFromNoEnglish(c + 1, chs[c].items, 0);
      }
    }
  }

  /** Without an English "text" member every verse's English is "". */
  lemma MissingEnglishIsEmpty(data: Json)
    requires data.JDict? && forall k :: 0 <= k < |data.members| ==> data.members[k].0 != "text"
    ensures forall k :: 0 <= k < |ProcessSefariaData(data)| ==> ProcessSefariaData(data)[k].englishTranslation == ""
  {
    var vs := SefariaVerses(data);
    MissingEnglishVerses(data);
    forall k | 0 <= k < |vs|
      ensures ProcessSefariaData(data)[k].englishTranslation == ""
    {
      VerseDataEnglish(vs[k].chapter, vs[k].verse, vs[k].hebrew, vs[k].english);
    }
  }

  lemma MissingEnglishVerses(data: Json)
    requires data.JDict? && forall k :: 0 <= k < |data.members| ==> data.members[k].0 != "text"
    ensures forall k :: 0 <= k < |SefariaVerses(data)| ==> SefariaVerses(data)[k].english == ""
  {
    assert Get(data, "text", JList([])) == Some(JList([]));
    var he := Get(data, "he", JList([])).value;
    if Iter(he).Some? {
      ChaptersFromNoEnglish(Iter(he).value, 0);
    }
  }

  lemma VerseDataEnglish(chapter: int, verse: int, hebrew: string, english: string)
    ensures CreateVerseData(chapter, verse, hebrew, english).englishTranslation == Strip(english)
    ensures english == "" ==> CreateVerseData(chapter, verse, hebrew, english).englishTranslation == ""
  {
    StripOfStripped("");
  }
}
