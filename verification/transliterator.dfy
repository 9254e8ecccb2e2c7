/** The ancient-pronunciation transliterator (`BiblicalHebrewTransliterator`
    in `utils/bible_importer.py`): an ordered pass of whole-word patterns over
    the consonantal text, then a word-by-word, letter-by-letter rendering that
    inserts a vowel between two table letters by position. */
module Transliterator {
  import opened PyStr
  import opened ReplacePass
  import opened HebrewConverter

  /** ANCIENT_PRONUNCIATION, entry by entry: the pre-exilic sound of each of
      the 27 letter forms. */
  function AncientSound(c: char): string
    requires IsHebrewLetter(c)
  {
    match c
    case 'א' => ""
    case 'ב' => "b"
    case 'ג' => "g"
    case 'ד' => "d"
    case 'ה' => "h"
    case 'ו' => "w"
    case 'ז' => "z"
    case 'ח' => "ch"
    case 'ט' => "t"
    case 'י' => "y"
    case 'כ' => "k"
    case 'ך' => "k"
    case 'ל' => "l"
    case 'מ' => "m"
    case 'ם' => "m"
    case 'נ' => "n"
    case 'ן' => "n"
    case 'ס' => "s"
    case 'ע' => "a"
    case 'פ' => "p"
    case 'ף' => "p"
    case 'צ' => "ts"
    case 'ץ' => "ts"
    case 'ק' => "q"
    case 'ר' => "r"
    case 'ש' => "sh"
    case _ => "t"  // ת
  }

  /** ANCIENT_PRONUNCIATION */
  const AncientPronunciation: map<char, string> := map c: char | IsHebrewLetter(c) :: AncientSound(c)

  const PatternCount: nat := 39

  /** VOWEL_PATTERNS, entry by entry, in the order the dictionary literal lists
      them. */
  function PatternEntry(k: nat): (string, string)
    requires k < PatternCount
  {
    match k
    case 0 => ("בראשית", "ba-ra-sheet")
    case 1 => ("ברא", "ba-ra")
    case 2 => ("אלהים", "eh-lo-heem")
    case 3 => ("את", "eht")
    case 4 => ("השמים", "ha-sha-ma-yim")
    case 5 => ("ואת", "wa-eht")
    case 6 => ("הארץ", "ha-ah-rets")
    case 7 => ("והארץ", "wa-ha-ah-rets")
    case 8 => ("היתה", "ha-ya-tah")
    case 9 => ("תהו", "to-hu")
    case 10 => ("ובהו", "wa-vo-hu")
    case 11 => ("וחשך", "wa-cho-shek")
    case 12 => ("על", "ahl")
    case 13 => ("פני", "pa-nay")
    case 14 => ("תהום", "ta-hohm")
    case 15 => ("ורוח", "wa-ru-ach")
    case 16 => ("מרחפת", "ma-ra-che-fet")
    case 17 => ("ויאמר", "wa-yo-mer")
    case 18 => ("יהי", "ya-hee")
    case 19 => ("אור", "ohr")
    case 20 => ("וירא", "wa-yar")
    case 21 => ("כי", "kee")
    case 22 => ("טוב", "tohv")
    case 23 => ("ויבדל", "wa-yav-dehl")
    case 24 => ("בין", "bayn")
    case 25 => ("ויקרא", "wa-yiq-ra")
    case 26 => ("לילה", "lay-lah")
    case 27 => ("ויהי", "wa-ya-hee")
    case 28 => ("ערב", "eh-rev")
    case 29 => ("בקר", "bo-qer")
    case 30 => ("יום", "yohm")
    case 31 => ("אחד", "eh-chad")
    case 32 => ("רקיע", "ra-qee-a")
    case 33 => ("בתוך", "ba-tokh")
    case 34 => ("המים", "ha-ma-yim")
    case 35 => ("יבדיל", "yav-deel")
    case 36 => ("מעל", "may-ahl")
    case 37 => ("מתחת", "mi-ta-chat")
    case _ => ("כן", "kayn")
  }

  /** VOWEL_PATTERNS in table order. */
  function VowelPatterns(): (t: Table)
    ensures |t| == PatternCount
    ensures forall k :: 0 <= k < PatternCount ==> t[k] == PatternEntry(k)
  {
    seq(PatternCount, k requires 0 <= k < PatternCount => PatternEntry(k))
  }

  predicate PronunciationChar(c: char) {
    ('a' <= c <= 'z') || c == '-'
  }

  /** A pattern of at least two Hebrew letters and a non-empty pronunciation
      of lower-case Latin letters and hyphens. */
  predicate GoodEntry(e: (string, string)) {
    && |e.0| >= 2 && (forall i :: 0 <= i < |e.0| ==> IsHebrewLetter(e.0[i]))
    && e.1 != [] && (forall i :: 0 <= i < |e.1| ==> PronunciationChar(e.1[i]))
  }

  lemma GoodEntryAt(k: nat)
    requires k < PatternCount
    ensures GoodEntry(VowelPatterns()[k])
  {
    if k < 3 {
      GoodEntriesFrom0(k);
    } else if k < 6 {
      GoodEntriesFrom3(k);
    } else if k < 9 {
      GoodEntriesFrom6(k);
    } else if k < 12 {
      GoodEntriesFrom9(k);
    } else if k < 15 {
      GoodEntriesFrom12(k);
    } else if k < 18 {
      GoodEntriesFrom15(k);
    } else if k < 21 {
      GoodEntriesFrom18(k);
    } else if k < 24 {
      GoodEntriesFrom21(k);
    } else if k < 27 {
      GoodEntriesFrom24(k);
    } else if k < 30 {
      GoodEntriesFrom27(k);
    } else if k < 33 {
      GoodEntriesFrom30(k);
    } else if k < 36 {
      GoodEntriesFrom33(k);
    } else {
      GoodEntriesFrom36(k);
    }
  }

  lemma GoodEntriesFrom0(k: nat)
    requires 0 <= k < 3
    ensures GoodEntry(PatternEntry(k))
  {
    if k == 0 {
      assert GoodEntry(PatternEntry(0));
    } else if k == 1 {
      assert GoodEntry(PatternEntry(1));
    } else {
      assert GoodEntry(PatternEntry(2));
    }
  }

  lemma GoodEntriesFrom3(k: nat)
    requires 3 <= k < 6
    ensures GoodEntry(PatternEntry(k))
  {
    if k == 3 {
      assert GoodEntry(PatternEntry(3));
    } else if k == 4 {
      assert GoodEntry(PatternEntry(4));
    } else {
      assert GoodEntry(PatternEntry(5));
    }
  }

  lemma GoodEntriesFrom6(k: nat)
    requires 6 <= k < 9
    ensures GoodEntry(PatternEntry(k))
  {
    if k == 6 {
      assert GoodEntry(PatternEntry(6));
    } else if k == 7 {
      assert GoodEntry(PatternEntry(7));
    } else {
      assert GoodEntry(PatternEntry(8));
    }
  }

  lemma GoodEntriesFrom9(k: nat)
    requires 9 <= k < 12
    ensures GoodEntry(PatternEntry(k))
  {
    if k == 9 {
      assert GoodEntry(PatternEntry(9));
    } else if k == 10 {
      assert GoodEntry(PatternEntry(10));
    } else {
      assert GoodEntry(PatternEntry(11));
    }
  }

  lemma GoodEntriesFrom12(k: nat)
    requires 12 <= k < 15
    ensures GoodEntry(PatternEntry(k))
  {
    if k == 12 {
      assert GoodEntry(PatternEntry(12));
    } else if k == 13 {
      assert GoodEntry(PatternEntry(13));
    } else {
      assert GoodEntry(PatternEntry(14));
    }
  }

  lemma GoodEntriesFrom15(k: nat)
    requires 15 <= k < 18
    ensures GoodEntry(PatternEntry(k))
  {
    if k == 15 {
      assert GoodEntry(PatternEntry(15));
    } else if k == 16 {
      assert GoodEntry(PatternEntry(16));
    } else {
      assert GoodEntry(PatternEntry(17));
    }
  }

  lemma GoodEntriesFrom18(k: nat)
    requires 18 <= k < 21
    ensures GoodEntry(PatternEntry(k))
  {
    if k == 18 {
      assert GoodEntry(PatternEntry(18));
    } else if k == 19 {
      assert GoodEntry(PatternEntry(19));
    } else {
      assert GoodEntry(PatternEntry(20));
    }
  }

  lemma GoodEntriesFrom21(k: nat)
    requires 21 <= k < 24
    ensures GoodEntry(PatternEntry(k))
  {
    if k == 21 {
      assert GoodEntry(PatternEntry(21));
    } else if k == 22 {
      assert GoodEntry(PatternEntry(22));
    } else {
      assert GoodEntry(PatternEntry(23));
    }
  }

  lemma GoodEntriesFrom24(k: nat)
    requires 24 <= k < 27
    ensures GoodEntry(PatternEntry(k))
  {
    if k == 24 {
      assert GoodEntry(PatternEntry(24));
    } else if k == 25 {
      assert GoodEntry(PatternEntry(25));
    } else {
      assert GoodEntry(PatternEntry(26));
    }
  }

  lemma GoodEntriesFrom27(k: nat)
    requires 27 <= k < 30
    ensures GoodEntry(PatternEntry(k))
  {
    if k == 27 {
      assert GoodEntry(PatternEntry(27));
    } else if k == 28 {
      assert GoodEntry(PatternEntry(28));
    } else {
      assert GoodEntry(PatternEntry(29));
    }
  }

  lemma GoodEntriesFrom30(k: nat)
    requires 30 <= k < 33
    ensures GoodEntry(PatternEntry(k))
  {
    if k == 30 {
      assert GoodEntry(PatternEntry(30));
    } else if k == 31 {
      assert GoodEntry(PatternEntry(31));
    } else {
      assert GoodEntry(PatternEntry(32));
    }
  }

  lemma GoodEntriesFrom33(k: nat)
    requires 33 <= k < 36
    ensures GoodEntry(PatternEntry(k))
  {
    if k == 33 {
      assert GoodEntry(PatternEntry(33));
    } else if k == 34 {
      assert GoodEntry(PatternEntry(34));
    } else {
      assert GoodEntry(PatternEntry(35));
    }
  }

  lemma GoodEntriesFrom36(k: nat)
    requires 36 <= k < 39
    ensures GoodEntry(PatternEntry(k))
  {
    if k == 36 {
      assert GoodEntry(PatternEntry(36));
    } else if k == 37 {
      assert GoodEntry(PatternEntry(37));
    } else {
      assert GoodEntry(PatternEntry(38));
    }
  }

  /** Every pattern is a Hebrew word of at least two letters and every
      pronunciation a non-empty Latin string without whitespace. */
  lemma VowelPatternsSeparated()
    ensures Separated(VowelPatterns(), IsHebrewLetter)
    ensures forall k :: 0 <= k < |VowelPatterns()| ==> |VowelPatterns()[k].0| >= 2
    ensures forall k :: 0 <= k < |VowelPatterns()| ==> NoSpace(VowelPatterns()[k].1)
  {
    forall k | 0 <= k < |VowelPatterns()|
      ensures GoodEntry(VowelPatterns()[k])
      ensures NoneIn(VowelPatterns()[k].1, IsHebrewLetter) && NoSpace(VowelPatterns()[k].1)
    {
      GoodEntryAt(k);
    }
  }

  /** `_get_contextual_vowel`: the first rule that applies wins. */
  function ContextualVowel(current: char, next: char, position: int, wordLength: int): (v: string)
    ensures v == "a" || v == "e"
    ensures position == 0 ==> v == "a"
    ensures position != 0 && position == wordLength - 2 ==> v == "e"
    ensures position != 0 && position != wordLength - 2 && next in {'י', 'ל', 'נ', 'ר'} ==> v == "e"
    ensures position != 0 && position != wordLength - 2 && next !in {'י', 'ל', 'נ', 'ר'} ==> v == "a"
  {
    if position == 0 then "a"
    else if position == wordLength - 2 then "e"
    else if next in {'ה', 'ח', 'ע'} then "a"
    else if next in {'י', 'ל', 'נ', 'ר'} then "e"
    else "a"
  }

  /** `ANCIENT_PRONUNCIATION.get(c, c)` */
  function Sound(c: char): (r: string)
    ensures c !in AncientPronunciation ==> r == [c]
  {
    if c in AncientPronunciation then AncientPronunciation[c] else [c]
  }

  /** The vowel inserted after position `i`: only between two table letters
      and never after the last character. */
  function VowelAfter(w: string, i: nat): string
    requires i < |w|
  {
    if i < |w| - 1 && w[i] in AncientPronunciation && w[i + 1] in AncientPronunciation
    then ContextualVowel(w[i], w[i + 1], i, |w|)
    else ""
  }

  /** What position `i` of the word contributes: nothing for a silent letter,
      otherwise its sound and the vowel after it. */
  function Piece(w: string, i: nat): string
    requires i < |w|
  {
    if Sound(w[i]) != "" then Sound(w[i]) + VowelAfter(w, i) else ""
  }

  function PiecesFrom(w: string, i: nat): string
    requires i <= |w|
    decreases |w| - i
  {
    if i == |w| then "" else Piece(w, i) + PiecesFrom(w, i + 1)
  }

  /** `_transliterate_word` */
  function TransliterateWord(w: string): string {
    if w == [] then "" else PiecesFrom(w, 0)
  }

  lemma TransliterateEmpty()
    ensures TransliterateWord("") == ""
  {
  }

  /** The table's keys are the 27 Hebrew letter forms and its sounds are
      lower-case Latin letters. */
  lemma AncientTableShape()
    ensures forall c :: c in AncientPronunciation ==> IsHebrewLetter(c)
    ensures forall c :: c in AncientPronunciation ==>
      forall i :: 0 <= i < |AncientPronunciation[c]| ==> 'a' <= AncientPronunciation[c][i] <= 'z'
  {
  }

  /** Aleph is the only character whose sound is empty, and a character that
      is not whitespace sounds without whitespace. */
  lemma SilentOnlyAleph(c: char)
    ensures Sound(c) == "" <==> c == 'א'
    ensures !IsSpace(c) ==> NoSpace(Sound(c))
  {
    AncientTableShape();
  }

  lemma VowelNoSpace(w: string, i: nat)
    requires i < |w|
    ensures NoSpace(VowelAfter(w, i))
  {
  }

  lemma NoSpaceAppend(a: string, b: string)
    requires NoSpace(a) && NoSpace(b)
    ensures NoSpace(a + b)
  {
    assert forall i :: 0 <= i < |a + b| ==> (a + b)[i] == if i < |a| then a[i] else b[i - |a|];
  }

  /** The pieces from position `i` on hold no whitespace when the word holds
      none, and are empty exactly when every character from `i` on is an
      aleph. */
  lemma {:induction false} PiecesFromFacts(w: string, i: nat)
    requires i <= |w|
    ensures NoSpace(w) ==> NoSpace(PiecesFrom(w, i))
    ensures PiecesFrom(w, i) == "" <==> forall k :: i <= k < |w| ==> w[k] == 'א'
    decreases |w| - i
  {
    if i < |w| {
      PiecesFromFacts(w, i + 1);
      SilentOnlyAleph(w[i]);
      VowelNoSpace(w, i);
      if NoSpace(w) {
        assert !IsSpace(w[i]);
        NoSpaceAppend(Sound(w[i]), VowelAfter(w, i));
        NoSpaceAppend(Piece(w, i), PiecesFrom(w, i + 1));
      }
    }
  }

  /** A word without whitespace transliterates to a string without whitespace;
      the result is empty exactly when the word is made of alephs only. */
  lemma TransliterateWordFacts(w: string)
    ensures NoSpace(w) ==> NoSpace(TransliterateWord(w))
    ensures TransliterateWord(w) == "" <==> forall k :: 0 <= k < |w| ==> w[k] == 'א'
  {
    PiecesFromFacts(w, 0);
  }

  /** Characters outside the table are copied and never take a vowel: a word
      without table characters comes back unchanged. */
  lemma {:induction false} ForeignWordCopied(w: string, i: nat)
    requires i <= |w|
    requires forall k :: 0 <= k < |w| ==> w[k] !in AncientPronunciation
    ensures PiecesFrom(w, i) == w[i..]
    decreases |w| - i
  {
    if i < |w| {
      ForeignWordCopied(w, i + 1);
      assert Piece(w, i) == [w[i]];
      assert w[i..] == [w[i]] + w[i + 1..];
    }
  }

  lemma ForeignWordUnchanged(w: string)
    requires forall k :: 0 <= k < |w| ==> w[k] !in AncientPronunciation
    ensures TransliterateWord(w) == w
  {
    ForeignWordCopied(w, 0);
  }

  /** No vowel follows the last character. */
  lemma LastPieceIsSound(w: string)
    requires w != []
    ensures Piece(w, |w| - 1) == Sound(w[|w| - 1])
  {
  }

  /** In a two-letter word the position-0 rule shadows the "before the last
      consonant" rule: the vowel is "a", not "e". */
  lemma TwoLetterWord(a: char, b: char)
    requires a in AncientPronunciation && b in AncientPronunciation && a != 'א'
    ensures TransliterateWord([a, b]) == Sound(a) + "a" + Sound(b)
  {
    var w := [a, b];
    assert PiecesFrom(w, 2) == "";
    assert PiecesFrom(w, 1) == Piece(w, 1) == Sound(b) by {
      if b == 'א' {
        assert Sound(b) == "";
      }
    }
    assert Piece(w, 0) == Sound(a) + "a" by {
      SilentOnlyAleph(a);
    }
  }

  /** One word of the consonantal text: its VOWEL_PATTERNS entry if it has one,
      else the letter-by-letter rendering. */
  function RenderWord(w: string): string {
    match PatternFor(VowelPatterns(), w)
    case Some(p) => p
    case None => TransliterateWord(w)
  }

  function RenderWords(ws: seq<string>): (rs: seq<string>)
    ensures |rs| == |ws|
    ensures forall k :: 0 <= k < |ws| ==> rs[k] == RenderWord(ws[k])
  {
    seq(|ws|, k requires 0 <= k < |ws| => RenderWord(ws[k]))
  }

  /** The text after the pattern pass. */
  function Consonantal(s: string): string {
    Apply(VowelPatterns(), RemoveNikud(s))
  }

  /** `create_paleo_transliteration` as written: the rendered words joined by
      one space, including the empty rendering of an aleph-only word. The only
      whitespace in the result is the plain space. */
  function CreatePaleoTransliteration(s: string): (r: string)
    ensures PlainSpacesOnly(r)
  {
    var ws := Split(Consonantal(s));
    RenderedWordsNoSpace(ws);
    JoinPlainSpaces(RenderWords(ws));
    Join(" ", RenderWords(ws))
  }

  lemma RenderedWordsNoSpace(ws: seq<string>)
    requires forall k :: 0 <= k < |ws| ==> ws[k] != [] && NoSpace(ws[k])
    ensures forall k :: 0 <= k < |ws| ==> NoSpace(RenderWords(ws)[k])
  {
    forall k | 0 <= k < |ws|
      ensures NoSpace(RenderWords(ws)[k])
    {
      match PatternFor(VowelPatterns(), ws[k])
      case Some(p) =>
        var j :| 0 <= j < |VowelPatterns()| && VowelPatterns()[j].0 == ws[k] && VowelPatterns()[j].1 == p;
        VowelPatternsSeparated();
      case None =>
        TransliterateWordFacts(ws[k]);
    }
  }

  /** After the pattern pass no pattern is left, so the per-word
      VOWEL_PATTERNS lookup never finds one: every word is rendered letter by
      letter. */
  lemma WordLookupNeverHits(s: string)
    ensures forall w :: w in Split(Consonantal(s)) ==> PatternFor(VowelPatterns(), w) == None
  {
    var text := Consonantal(s);
    var ws := Split(text);
    VowelPatternsSeparated();
    PatternsGoneAfter(VowelPatterns(), IsHebrewLetter, RemoveNikud(s), |VowelPatterns()|);
    assert VowelPatterns()[..|VowelPatterns()|] == VowelPatterns();
    SplitWordsOccur(text);
    forall w | w in ws
      ensures PatternFor(VowelPatterns(), w) == None
    {
      var i :| 0 <= i < |ws| && ws[i] == w;
      assert Occurs(text, w);
      forall k | 0 <= k < |VowelPatterns()|
        ensures VowelPatterns()[k].0 != w
      {
        assert !Occurs(text, VowelPatterns()[k].0);
      }
    }
  }

  /** The rendered words with the empty ones dropped. */
  function NonEmpty(ws: seq<string>): (r: seq<string>)
    ensures forall k :: 0 <= k < |r| ==> r[k] != []
    ensures |r| <= |ws|
  {
    if ws == [] then []
    else (if ws[0] == [] then [] else [ws[0]]) + NonEmpty(ws[1..])
  }

  lemma NonEmptyKeeps(ws: seq<string>, P: string -> bool)
    requires forall k :: 0 <= k < |ws| ==> P(ws[k])
    ensures forall k :: 0 <= k < |NonEmpty(ws)| ==> P(NonEmpty(ws)[k])
  {
    if ws != [] {
      NonEmptyKeeps(ws[1..], P);
      var rest := NonEmpty(ws[1..]);
      assert NonEmpty(ws) == (if ws[0] == [] then [] else [ws[0]]) + rest;
    }
  }

  lemma NonEmptyOfNonEmpty(ws: seq<string>)
    requires forall k :: 0 <= k < |ws| ==> ws[k] != []
    ensures NonEmpty(ws) == ws
  {
  }

  /** The transliteration with the evident intent of the code: the rendered
      words joined by single spaces, an aleph-only word contributing no
      separator of its own. The result carries no leading or trailing
      whitespace and no run of two spaces. */
  function CreatePaleoTransliterationFixed(s: string): (r: string)
    ensures Stripped(r)
    ensures !Occurs(r, "  ")
    ensures PlainSpacesOnly(r)
  {
    var ws := RenderWords(Split(Consonantal(s)));
    RenderedWordsNoSpace(Split(Consonantal(s)));
    NonEmptyKeeps(ws, NoSpace);
    JoinWordsStripped(NonEmpty(ws));
    JoinPlainSpaces(NonEmpty(ws));
    Join(" ", NonEmpty(ws))
  }

  /** Splitting the fixed transliteration gives back exactly the non-empty
      renderings of the consonantal words, in order. */
  lemma FixedSplitsIntoWords(s: string)
    ensures Split(CreatePaleoTransliterationFixed(s)) == NonEmpty(RenderWords(Split(Consonantal(s))))
  {
    var ws := RenderWords(Split(Consonantal(s)));
    RenderedWordsNoSpace(Split(Consonantal(s)));
    NonEmptyKeeps(ws, NoSpace);
    SplitJoin(NonEmpty(ws));
  }

  /** The two agree whenever no word of the consonantal text is made of
      alephs only. */
  lemma FixedAgreesWithoutSilentWords(s: string)
    requires forall w :: w in Split(Consonantal(s)) ==> exists k :: 0 <= k < |w| && w[k] != 'א'
    ensures CreatePaleoTransliterationFixed(s) == CreatePaleoTransliteration(s)
  {
    var ws := Split(Consonantal(s));
    WordLookupNeverHits(s);
    forall k | 0 <= k < |ws|
      ensures RenderWords(ws)[k] != []
    {
      assert ws[k] in ws;
      TransliterateWordFacts(ws[k]);
    }
    NonEmptyOfNonEmpty(RenderWords(ws));
  }

  /** A word shorter than two characters, or one starting with a non-Hebrew
      character, is no key of VOWEL_PATTERNS. */
  lemma NoPatternFor(w: string)
    requires |w| < 2 || !IsHebrewLetter(w[0])
    ensures PatternFor(VowelPatterns(), w) == None
  {
    VowelPatternsSeparated();
    forall k | 0 <= k < |VowelPatterns()|
      ensures VowelPatterns()[k].0 != w
    {
      assert IsHebrewLetter(VowelPatterns()[k].0[0]);
    }
  }

  /** A word without Hebrew letters renders as itself. */
  lemma LatinWordRendered(w: string)
    requires w != [] && forall k :: 0 <= k < |w| ==> !IsHebrewLetter(w[k])
    ensures RenderWord(w) == w
  {
    NoPatternFor(w);
    AncientTableShape();
    ForeignWordUnchanged(w);
  }

  /** "ב א" (a bet, a space, an aleph) comes out as "b " with a trailing
      space under the code as written; the fixed version gives "b". */
  lemma TrailingSpaceCounterexample(s: string)
    requires s == "ב א"
    ensures CreatePaleoTransliteration(s) == "b "
    ensures !Stripped(CreatePaleoTransliteration(s))
    ensures CreatePaleoTransliterationFixed(s) == "b"
  {
    var rs := ["b", ""];
    BetAlephWords(s);
    assert Join(" ", rs) == "b ";
    assert NonEmpty(rs) == ["b"];
  }

  /** No pattern fires on "ב א", which splits into its two letters; the bet
      renders as "b" and the aleph as nothing. */
  lemma BetAlephWords(s: string)
    requires s == "ב א"
    ensures Split(Consonantal(s)) == ["ב", "א"]
    ensures RenderWords(Split(Consonantal(s))) == ["b", ""]
  {
    BetAlephSplit(s);
    var bet, aleph := "ב", "א";
    NoPatternFor(bet);
    NoPatternFor(aleph);
    assert RenderWord(bet) == "b" by {
      assert Piece(bet, 0) == "b";
    }
    assert RenderWord(aleph) == "";
  }

  lemma BetAlephSplit(s: string)
    requires s == "ב א"
    ensures Split(Consonantal(s)) == ["ב", "א"]
  {
    RemoveNikudOfClean(s);
    VowelPatternsSeparated();
    SparseTextUnchanged(VowelPatterns(), IsHebrewLetter, s);
    assert TakeWord(s) == "ב";
    assert s[1..][1..] == "א";
    SplitOfWord("א");
  }

  /** The Genesis opening word: the first pattern fires, and the Latin result
      passes the letter-by-letter rendering unchanged. */
  lemma BereshitExample(s: string)
    requires s == "בראשית"
    ensures CreatePaleoTransliteration(s) == "ba-ra-sheet"
  {
    BereshitConsonantal(s);
    LatinTextKept(s, "ba-ra-sheet");
  }

  /** Text whose consonantal form is one Latin word comes out as that word. */
  lemma LatinTextKept(s: string, out: string)
    requires Consonantal(s) == out && out != []
    requires NoSpace(out) && forall k :: 0 <= k < |out| ==> !IsHebrewLetter(out[k])
    ensures CreatePaleoTransliteration(s) == out
  {
    SplitOfWord(out);
    LatinWordRendered(out);
    assert RenderWords([out]) == [out];
  }

  /** The first pattern turns the whole word into Latin text, which no later
      pattern matches. */
  lemma BereshitConsonantal(s: string)
    requires s == "בראשית"
    ensures Consonantal(s) == "ba-ra-sheet"
  {
    var out := "ba-ra-sheet";
    RemoveNikudOfClean(s);
    VowelPatternsSeparated();
    assert VowelPatterns()[0] == (s, out);
    assert OccursAt(s, s, 0);
    assert ReplaceAll(s, s, out) == out by {
      assert s[|s|..] == [];
    }
    assert Step(s, VowelPatterns()[0]) == out;
    ApplyFirst(VowelPatterns(), s);
    SeparatedSuffix(VowelPatterns(), IsHebrewLetter, 1);
    assert NoneIn(out, IsHebrewLetter);
    ForeignTextUnchanged(VowelPatterns()[1..], IsHebrewLetter, out);
  }

  /** A later pattern that contains an earlier one never fires: ואת (after
      את), והארץ (after הארץ), תהום (after תהו), ויהי (after יהי) and מעל
      (after על) can be dropped from the table without changing any result. */
  lemma ShadowedPatternsNeverFire(j: nat, s: string)
    requires j in {5, 7, 14, 27, 36}
    ensures Consonantal(s) == Apply(VowelPatterns()[..j] + VowelPatterns()[j + 1..], RemoveNikud(s))
  {
    VowelPatternsSeparated();
    var i: nat;
    if j == 5 {
      i := 3;
      assert OccursAt("ואת", "את", 1);
    } else if j == 7 {
      i := 6;
      assert OccursAt("והארץ", "הארץ", 1);
    } else if j == 14 {
      i := 9;
      assert OccursAt("תהום", "תהו", 0);
    } else if j == 27 {
      i := 18;
      assert OccursAt("ויהי", "יהי", 1);
    } else {
      i := 12;
      assert OccursAt("מעל", "על", 1);
    }
    ShadowedEntryNeverFires(VowelPatterns(), IsHebrewLetter, i, j, RemoveNikud(s));
  }
}
