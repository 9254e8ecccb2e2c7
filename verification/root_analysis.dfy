/** The pictographic root analysis of the dictionary builder
    (`create_comprehensive_dictionary.py`): the meaning table of the 27
    letter forms, the cleaning of a dictionary headword, the per-letter
    analysis with its Paleo spelling and concept sentence, and the English
    "formation" sentence chosen by keyword. */
module RootAnalysis {
  import opened PyStr
  import opened HebrewConverter

  /** What the table records about one letter form. */
  datatype LetterInfo = LetterInfo(name: string, meaning: string, pictograph: string, concept: string)

  /** The entry HEBREW_LETTER_MEANINGS holds for one letter form; the last
      case is Tav. */
  function LetterInfoOf(c: char): LetterInfo
    requires IsHebrewLetter(c)
  {
    match c
    case 'א' => LetterInfo("Aleph", "strength, mighty one, leader, bull, ox",
        "ox head, strong leader", "strength, power, leadership, first, beginning")
    case 'ב' => LetterInfo("Bet", "house, family, tent, inside, within",
        "tent floor plan, house", "dwelling, family, containment, inside")
    case 'ג' => LetterInfo("Gimel", "camel, pride, lift up, gather",
        "camel, foot of man", "movement, gathering, pride, lifting")
    case 'ד' => LetterInfo("Dalet", "door, entrance, path, move, hang",
        "tent door hanging", "entrance, pathway, movement, access")
    case 'ה' => LetterInfo("Hey", "breath, behold, reveal, window, spirit",
        "man with arms raised, window", "revelation, breath, spirit, behold")
    case 'ו' => LetterInfo("Vav", "nail, peg, hook, secure, add, and",
        "tent peg, nail", "connection, security, adding, joining")
    case 'ז' => LetterInfo("Zayin", "weapon, sword, cut, divide, nourish",
        "mattock, cutting tool", "cutting, dividing, weapon, food")
    case 'ח' => LetterInfo("Chet", "wall, fence, outside, separate, half",
        "tent wall, fence", "separation, protection, boundary, outside")
    case 'ט' => LetterInfo("Tet", "serpent, surround, mud, good",
        "coiled serpent, basket", "surrounding, containing, good, mud")
    case 'י' => LetterInfo("Yod", "hand, arm, work, throw, worship, praise",
        "closed hand, arm", "work, deed, worship, power")
    case 'כ' => LetterInfo("Kaf", "palm, bend, open, allow, tame, subdue",
        "open palm", "opening, allowing, bending, covering")
    case 'ך' => LetterInfo("Kaf-final", "palm, bend, open, allow, tame, subdue",
        "open palm", "opening, allowing, bending, covering")
    case 'ל' => LetterInfo("Lamed", "staff, rod, authority, teach, yoke, toward",
        "shepherd staff, cattle prod", "authority, teaching, leading, control")
    case 'מ' => LetterInfo("Mem", "water, mighty, blood, people, nations",
        "waves of water", "chaos, mighty, mass, people")
    case 'ם' => LetterInfo("Mem-final", "water, mighty, blood, people, nations",
        "waves of water", "chaos, mighty, mass, people")
    case 'נ' => LetterInfo("Nun", "fish, life, activity, heir, continue",
        "swimming fish", "life, activity, movement, heir")
    case 'ן' => LetterInfo("Nun-final", "fish, life, activity, heir, continue",
        "swimming fish", "life, activity, movement, heir")
    case 'ס' => LetterInfo("Samech", "thorn, grab, hate, protect, support",
        "thorn, prop", "support, protection, grabbing, hatred")
    case 'ע' => LetterInfo("Ayin", "eye, see, know, experience, fountain",
        "eye", "seeing, knowing, understanding, experience")
    case 'פ' => LetterInfo("Pe", "mouth, speak, blow, scatter, edge",
        "mouth", "speaking, communication, blowing, edge")
    case 'ף' => LetterInfo("Pe-final", "mouth, speak, blow, scatter, edge",
        "mouth", "speaking, communication, blowing, edge")
    case 'צ' => LetterInfo("Tsade", "hunt, catch, desire, need, righteous",
        "fish hook, man on side", "hunting, desire, righteousness, need")
    case 'ץ' => LetterInfo("Tsade-final", "hunt, catch, desire, need, righteous",
        "fish hook, man on side", "hunting, desire, righteousness, need")
    case 'ק' => LetterInfo("Qof", "back of head, behind, time, condense",
        "back of head, horizon", "time, behind, gathering, condensing")
    case 'ר' => LetterInfo("Resh", "head, first, top, beginning, person",
        "head of man", "head, chief, beginning, person, top")
    case 'ש' => LetterInfo("Shin", "teeth, sharp, press, eat, destroy",
        "two front teeth", "sharpness, eating, destroying, pressing")
    case _ => LetterInfo("Tav", "mark, sign, covenant, cross, desire",
        "crossed sticks, mark", "sign, covenant, mark, desire, cross")
  }

  /** HEBREW_LETTER_MEANINGS: the 27 letter forms, each with its entry. */
  const LetterMeanings: map<char, LetterInfo> := map c: char | 'א' <= c <= 'ת' :: LetterInfoOf(c)

  /** The table knows exactly the 27 letter forms U+05D0..U+05EA. */
  lemma LetterMeaningsDomain(c: char)
    ensures c in LetterMeanings <==> IsHebrewLetter(c)
  {
  }

  /** A final form's entry repeats its base letter's meaning, pictograph and
      concept, under the base letter's name with "-final" appended. */
  predicate SharesWithBase(f: char, b: char)
    requires IsHebrewLetter(f) && IsHebrewLetter(b)
  {
    var fi, bi := LetterInfoOf(f), LetterInfoOf(b);
    fi.meaning == bi.meaning && fi.pictograph == bi.pictograph && fi.concept == bi.concept
    && fi.name == bi.name + "-final"
  }

  lemma FinalKafShares() ensures SharesWithBase('ך', 'כ') {}
  lemma FinalMemShares() ensures SharesWithBase('ם', 'מ') {}
  lemma FinalNunShares() ensures SharesWithBase('ן', 'נ') {}
  lemma FinalPeShares() ensures SharesWithBase('ף', 'פ') {}
  lemma FinalTsadeShares() ensures SharesWithBase('ץ', 'צ') {}

  /** Every final form shares its entry with the letter it is the final form
      of. */
  lemma FinalFormsShareMeaning(f: char)
    requires f in FinalForms
    ensures f in LetterMeanings && BaseForm(f) in LetterMeanings
    ensures LetterMeanings[f] == LetterInfoOf(f) && LetterMeanings[BaseForm(f)] == LetterInfoOf(BaseForm(f))
    ensures SharesWithBase(f, BaseForm(f))
  {
    match f
    case 'ך' => FinalKafShares();
    case 'ם' => FinalMemShares();
    case 'ן' => FinalNunShares();
    case 'ף' => FinalPeShares();
    case 'ץ' => FinalTsadeShares();
  }

  predicate HasHebrew(s: string) {
    exists i :: 0 <= i < |s| && IsHebrewLetter(s[i])
  }

  lemma {:induction false} HebrewFilterNonEmpty(s: string)
    ensures Filter(s, IsHebrewLetter) != [] <==> HasHebrew(s)
    decreases |s|
  {
    if s != [] {
      HebrewFilterNonEmpty(s[1..]);
      if HasHebrew(s[1..]) {
        var i :| 0 <= i < |s[1..]| && IsHebrewLetter(s[1..][i]);
        assert IsHebrewLetter(s[i + 1]);
      }
      if HasHebrew(s) && !IsHebrewLetter(s[0]) {
        var i :| 0 <= i < |s| && IsHebrewLetter(s[i]);
        assert s[1..][i - 1] == s[i];
      }
    }
  }

  /** Deleting points and accents does not touch the letters. */
  lemma {:induction false} HebrewLettersIgnoreMarks(s: string)
    ensures Filter(RemoveNikud(s), IsHebrewLetter) == Filter(s, IsHebrewLetter)
    decreases |s|
  {
    if s != [] {
      var head: string := if IsNikudOrPunctuation(s[0]) then [] else [s[0]];
      assert RemoveNikud(s) == head + RemoveNikud(s[1..]);
      FilterAppend(head, RemoveNikud(s[1..]), IsHebrewLetter);
      HebrewLettersIgnoreMarks(s[1..]);
      assert [s[0]][1..] == [];
    }
  }

  /** `clean_hebrew_word`: the Hebrew letters of the nikud-free text (the
      matches of `[א-ת]+` joined), or, when there are none, that text
      stripped. */
  function CleanHebrewWord(s: string): (r: string)
  {
    if s == [] then []
    else
      var clean := RemoveNikud(s);
      var letters := Filter(clean, IsHebrewLetter);
      if letters != [] then letters else Strip(clean)
  }

  /** A word with a Hebrew letter is cleaned to exactly its Hebrew letters in
      order; a word without one to its stripped nikud-free text, which then
      holds no Hebrew letter either. */
  lemma CleanHebrewWordFacts(s: string)
    ensures HasHebrew(s) ==> CleanHebrewWord(s) == Filter(s, IsHebrewLetter) && CleanHebrewWord(s) != []
    ensures !HasHebrew(s) ==> CleanHebrewWord(s) == Strip(RemoveNikud(s)) && !HasHebrew(CleanHebrewWord(s))
  {
    var clean := RemoveNikud(s);
    HebrewLettersIgnoreMarks(s);
    HebrewFilterNonEmpty(s);
    HebrewFilterNonEmpty(clean);
    if !HasHebrew(s) {
      StripKeepsNoHebrew(clean);
    }
  }

  /** Stripping text without Hebrew letters leaves text without them. */
  lemma StripKeepsNoHebrew(t: string)
    requires !HasHebrew(t)
    ensures !HasHebrew(Strip(t))
  {
    var r := Strip(t);
    forall i | 0 <= i < |r|
      ensures !IsHebrewLetter(r[i])
    {
      StripChar(t, i);
    }
  }

  /** Stripping text without marks leaves text without marks. */
  lemma StripKeepsNoMarks(clean: string)
    requires forall i :: 0 <= i < |clean| ==> KeptByRemoveNikud(clean[i])
    ensures RemoveNikud(Strip(clean)) == Strip(clean)
  {
    var r := Strip(clean);
    forall i | 0 <= i < |r|
      ensures !InMarkBlock(r[i])
    {
      StripChar(clean, i);
    }
    RemoveNikudOfClean(r);
  }

  /** Cleaning a cleaned word changes nothing. */
  lemma CleanHebrewWordIdempotent(s: string)
    ensures CleanHebrewWord(CleanHebrewWord(s)) == CleanHebrewWord(s)
  {
    CleanHebrewWordFacts(s);
    if HasHebrew(s) {
      CleanLettersAgain(CleanHebrewWord(s));
    } else {
      CleanForeignAgain(s);
    }
  }

  lemma CleanLettersAgain(r: string)
    requires r != [] && forall i :: 0 <= i < |r| ==> IsHebrewLetter(r[i])
    ensures CleanHebrewWord(r) == r
  {
    RemoveNikudOfClean(r);
    FilterKeepsAll(r, IsHebrewLetter);
  }

  lemma CleanForeignAgain(s: string)
    requires !HasHebrew(s)
    ensures CleanHebrewWord(CleanHebrewWord(s)) == CleanHebrewWord(s)
  {
    CleanHebrewWordFacts(s);
    StripKeepsNoMarks(RemoveNikud(s));
    CleanStrippedForeign(CleanHebrewWord(s));
  }

  lemma CleanStrippedForeign(r: string)
    requires Stripped(r) && !HasHebrew(r) && RemoveNikud(r) == r
    ensures CleanHebrewWord(r) == r
  {
    HebrewFilterNonEmpty(r);
    StripOfStripped(r);
  }

  /** One entry of `letter_meanings`. */
  datatype LetterMeaning = LetterMeaning(letter: char, name: string, meaning: string, pictograph: string)

  /** The record `analyze_hebrew_root` returns. */
  datatype RootAnalysis = RootAnalysis(
    rootLetters: string,
    letterMeanings: seq<LetterMeaning>,
    pictographicAnalysis: string,
    originalConcept: string,
    concepts: seq<string>)

  predicate AllKnown(s: string) {
    forall i :: 0 <= i < |s| ==> s[i] in LetterMeanings
  }

  function MeaningEntry(c: char): LetterMeaning
    requires c in LetterMeanings
  {
    var info := LetterMeanings[c];
    LetterMeaning(c, info.name, info.meaning, info.pictograph)
  }

  /** The first loop of `analyze_hebrew_root`: a meaning entry for each letter
      the table knows, unknown characters skipped. */
  function MeaningsOf(s: string): (r: seq<LetterMeaning>)
    ensures |r| <= |s|
    ensures r == [] <==> forall i :: 0 <= i < |s| ==> s[i] !in LetterMeanings
    ensures AllKnown(s) ==> |r| == |s| && forall i :: 0 <= i < |s| ==> r[i] == MeaningEntry(s[i])
    decreases |s|
  {
    if s == [] then []
    else
      var rest := MeaningsOf(s[1..]);
      assert forall i :: 1 <= i < |s| ==> s[1..][i - 1] == s[i];
      (if s[0] in LetterMeanings then [MeaningEntry(s[0])] else []) + rest
  }

  function ConceptOf(c: char): string
    requires c in LetterMeanings
  {
    LetterMeanings[c].concept
  }

  /** The concepts collected by the same loop. */
  function ConceptsOf(s: string): (r: seq<string>)
    ensures |r| <= |s|
    ensures AllKnown(s) ==> |r| == |s| && forall i :: 0 <= i < |s| ==> r[i] == ConceptOf(s[i])
    decreases |s|
  {
    if s == [] then []
    else
      var rest := ConceptsOf(s[1..]);
      assert forall i :: 1 <= i < |s| ==> s[1..][i - 1] == s[i];
      (if s[0] in LetterMeanings then [ConceptOf(s[0])] else []) + rest
  }

  /** `f"{hebrew_to_paleo(letter)} ({pictograph})"` */
  function PaleoSegment(c: char): string
    requires c in LetterMeanings
  {
    HebrewToPaleo([c]) + " (" + LetterMeanings[c].pictograph + ")"
  }

  /** The second loop, which looks every letter up without a membership test. */
  function PaleoSegments(s: string): (r: seq<string>)
    requires AllKnown(s)
    ensures |r| == |s|
  {
    seq(|s|, i requires 0 <= i < |s| => PaleoSegment(s[i]))
  }

  /** The concept sentence, chosen by the number of letters; the code indexes
      the first `min(n, 4)` concepts (three when it lists them). */
  function OriginalConcept(n: nat, concepts: seq<string>): (r: string)
    requires 1 <= n && (if n <= 4 then n else 3) <= |concepts|
  {
    if n == 1 then "The " + concepts[0]
    else if n == 2 then "The " + concepts[0] + " connected to " + concepts[1]
    else if n == 3 then "The " + concepts[0] + " that " + concepts[1] + " through " + concepts[2]
    else if n == 4 then
      "The " + concepts[0] + " with " + concepts[1] + " that " + concepts[2] + " and " + concepts[3]
    else "Complex formation involving " + Join(", ", concepts[..3]) + " and more"
  }

  /** When the first loop found a letter, every character of the cleaned word
      is a letter the table knows: the second loop's lookup cannot miss. */
  lemma CleanWordAllKnown(word: string)
    requires MeaningsOf(CleanHebrewWord(word)) != []
    ensures AllKnown(CleanHebrewWord(word))
  {
    var clean := CleanHebrewWord(word);
    var i :| 0 <= i < |clean| && clean[i] in LetterMeanings;
    LetterMeaningsDomain(clean[i]);
    CleanHebrewWordFacts(word);
    forall j | 0 <= j < |clean|
      ensures clean[j] in LetterMeanings
    {
      LetterMeaningsDomain(clean[j]);
    }
  }

  /** `analyze_hebrew_root` */
  function AnalyzeHebrewRoot(word: string): (r: Option<RootAnalysis>)
  {
    if word == [] then None
    else
      var clean := CleanHebrewWord(word);
      if clean == [] then None
      else
        var meanings := MeaningsOf(clean);
        var concepts := ConceptsOf(clean);
        if meanings == [] then None
        else
          CleanWordAllKnown(word);
          Some(RootAnalysis(clean, meanings, Join(" + ", PaleoSegments(clean)),
                            OriginalConcept(|clean|, concepts), concepts))
  }

  /** The Paleo spelling of a word of letters has one glyph per letter: the
      glyph of that letter alone. */
  lemma {:induction false} PaleoOfLetters(s: string)
    requires forall i :: 0 <= i < |s| ==> IsHebrewLetter(s[i])
    ensures |HebrewToPaleo(s)| == |s|
    ensures forall i :: 0 <= i < |s| ==> [HebrewToPaleo(s)[i]] == HebrewToPaleo([s[i]])
    decreases |s|
  {
    if s != [] {
      var head, tail := HebrewToPaleo([s[0]]), HebrewToPaleo(s[1..]);
      assert s == [s[0]] + s[1..];
      HebrewToPaleoAppend([s[0]], s[1..]);
      LetterToGlyph(s[0]);
      PaleoOfLetters(s[1..]);
      forall i | 1 <= i < |s|
        ensures [HebrewToPaleo(s)[i]] == HebrewToPaleo([s[i]])
      {
        assert HebrewToPaleo(s)[i] == tail[i - 1];
        assert s[1..][i - 1] == s[i];
      }
    }
  }

  lemma LettersKnown(s: string)
    requires forall i :: 0 <= i < |s| ==> IsHebrewLetter(s[i])
    ensures AllKnown(s)
  {
    forall i | 0 <= i < |s|
      ensures s[i] in LetterMeanings
    {
      LetterMeaningsDomain(s[i]);
    }
  }

  lemma ForeignUnknown(s: string)
    requires !HasHebrew(s)
    ensures forall i :: 0 <= i < |s| ==> s[i] !in LetterMeanings
  {
    forall i | 0 <= i < |s|
      ensures s[i] !in LetterMeanings
    {
      LetterMeaningsDomain(s[i]);
    }
  }

  /** A word has an analysis exactly when it holds a Hebrew letter. */
  lemma AnalysisExistsIffHebrew(word: string)
    ensures AnalyzeHebrewRoot(word).None? <==> !HasHebrew(word)
  {
    CleanHebrewWordFacts(word);
    var clean := CleanHebrewWord(word);
    if HasHebrew(word) {
      LettersKnown(clean);
    } else {
      ForeignUnknown(clean);
    }
  }

  /** The analysis is of the word's Hebrew letters in order, with one meaning
      entry and one concept per letter, each taken from the table. */
  lemma AnalysisOfLetters(word: string)
    requires HasHebrew(word)
    ensures AnalyzeHebrewRoot(word).Some?
    ensures var a := AnalyzeHebrewRoot(word).value;
      && a.rootLetters == Filter(word, IsHebrewLetter)
      && |a.letterMeanings| == |a.rootLetters| && |a.concepts| == |a.rootLetters|
      && AllKnown(a.rootLetters)
      && forall i :: 0 <= i < |a.rootLetters| ==>
           && a.letterMeanings[i] == MeaningEntry(a.rootLetters[i])
           && a.concepts[i] == LetterMeanings[a.rootLetters[i]].concept
  {
    AnalysisExistsIffHebrew(word);
    CleanHebrewWordFacts(word);
    CleanWordAllKnown(word);
  }

  /** The analysis sees only the Hebrew letters of its input: points,
      accents, punctuation and foreign characters make no difference. */
  lemma AnalysisIgnoresNonLetters(word: string)
    ensures AnalyzeHebrewRoot(word) == AnalyzeHebrewRoot(Filter(word, IsHebrewLetter))
  {
    var f := Filter(word, IsHebrewLetter);
    AnalysisExistsIffHebrew(word);
    AnalysisExistsIffHebrew(f);
    HebrewFilterNonEmpty(word);
    if HasHebrew(word) {
      assert IsHebrewLetter(f[0]);
      CleanHebrewWordFacts(word);
      CleanHebrewWordFacts(f);
      FilterKeepsAll(f, IsHebrewLetter);
      assert CleanHebrewWord(f) == CleanHebrewWord(word);
    } else {
      HebrewFilterNonEmpty(f);
    }
  }

  /** The pictographic analysis joins one segment per root letter, and the
      segments begin with the word's Paleo spelling, glyph by glyph. */
  lemma PictographicSpelling(word: string)
    requires HasHebrew(word)
    ensures AnalyzeHebrewRoot(word).Some?
    ensures var a := AnalyzeHebrewRoot(word).value;
      && AllKnown(a.rootLetters)
      && a.pictographicAnalysis == Join(" + ", PaleoSegments(a.rootLetters))
      && |HebrewToPaleo(a.rootLetters)| == |a.rootLetters|
      && forall i :: 0 <= i < |a.rootLetters| ==>
           PaleoSegments(a.rootLetters)[i]
             == [HebrewToPaleo(a.rootLetters)[i]] + " (" + LetterMeanings[a.rootLetters[i]].pictograph + ")"
  {
    AnalysisOfLetters(word);
    var a := AnalyzeHebrewRoot(word).value;
    forall i | 0 <= i < |a.rootLetters|
      ensures IsHebrewLetter(a.rootLetters[i])
    {
      LetterMeaningsDomain(a.rootLetters[i]);
    }
    PaleoOfLetters(a.rootLetters);
    forall i | 0 <= i < |a.rootLetters|
      ensures PaleoSegments(a.rootLetters)[i]
             == [HebrewToPaleo(a.rootLetters)[i]] + " (" + LetterMeanings[a.rootLetters[i]].pictograph + ")"
    {
    }
  }

  lemma OccursBetween(a: string, b: string, c: string)
    ensures Occurs(a + b + c, b)
  {
    assert (a + b + c)[|a|..|a| + |b|] == b;
    assert OccursAt(a + b + c, b, |a|);
  }

  /** The concept sentence names every concept of a word of up to four
      letters, and the first three of a longer one. */
  lemma ConceptSentenceMentions(n: nat, concepts: seq<string>, i: nat)
    requires 1 <= n && (if n <= 4 then n else 3) <= |concepts|
    requires i < (if n <= 4 then n else 3)
    ensures Occurs(OriginalConcept(n, concepts), concepts[i])
  {
    if n <= 2 {
      ShortConceptMentions(n, concepts, i);
    } else if n == 3 {
      ThreeConceptMentions(concepts, i);
    } else if n == 4 {
      FourConceptMentions(concepts, i);
    } else {
      LongConceptMentions(n, concepts, i);
    }
  }

  lemma ShortConceptMentions(n: nat, concepts: seq<string>, i: nat)
    requires 1 <= n <= 2 && n <= |concepts| && i < n
    ensures Occurs(OriginalConcept(n, concepts), concepts[i])
  {
    var r := OriginalConcept(n, concepts);
    if n == 1 {
      OccursBetween("The ", concepts[0], "");
      assert r == "The " + concepts[0] + "";
    } else if i == 0 {
      OccursBetween("The ", concepts[0], " connected to " + concepts[1]);
      assert r == "The " + concepts[0] + (" connected to " + concepts[1]);
    } else {
      OccursBetween("The " + concepts[0] + " connected to ", concepts[1], "");
      assert r == "The " + concepts[0] + " connected to " + concepts[1] + "";
    }
  }

  lemma ThreeConceptMentions(concepts: seq<string>, i: nat)
    requires 3 <= |concepts| && i < 3
    ensures Occurs(OriginalConcept(3, concepts), concepts[i])
  {
    var c0, c1, c2 := concepts[0], concepts[1], concepts[2];
    var r := OriginalConcept(3, concepts);
    assert r == "The " + c0 + " that " + c1 + " through " + c2;
    if i == 0 {
      OccursBetween("The ", c0, " that " + c1 + " through " + c2);
      assert r == "The " + c0 + (" that " + c1 + " through " + c2);
    } else if i == 1 {
      OccursBetween("The " + c0 + " that ", c1, " through " + c2);
      assert r == "The " + c0 + " that " + c1 + (" through " + c2);
    } else {
      OccursBetween("The " + c0 + " that " + c1 + " through ", c2, "");
      assert r == "The " + c0 + " that " + c1 + " through " + c2 + "";
    }
  }

  lemma FourConceptMentions(concepts: seq<string>, i: nat)
    requires 4 <= |concepts| && i < 4
    ensures Occurs(OriginalConcept(4, concepts), concepts[i])
  {
    var c0, c1, c2, c3 := concepts[0], concepts[1], concepts[2], concepts[3];
    var r := OriginalConcept(4, concepts);
    assert r == "The " + c0 + " with " + c1 + " that " + c2 + " and " + c3;
    if i == 0 {
      OccursBetween("The ", c0, " with " + c1 + " that " + c2 + " and " + c3);
      assert r == "The " + c0 + (" with " + c1 + " that " + c2 + " and " + c3);
    } else if i == 1 {
      OccursBetween("The " + c0 + " with ", c1, " that " + c2 + " and " + c3);
      assert r == "The " + c0 + " with " + c1 + (" that " + c2 + " and " + c3);
    } else if i == 2 {
      OccursBetween("The " + c0 + " with " + c1 + " that ", c2, " and " + c3);
      assert r == "The " + c0 + " with " + c1 + " that " + c2 + (" and " + c3);
    } else {
      OccursBetween("The " + c0 + " with " + c1 + " that " + c2 + " and ", c3, "");
      assert r == "The " + c0 + " with " + c1 + " that " + c2 + " and " + c3 + "";
    }
  }

  lemma JoinOfThree(ws: seq<string>)
    requires |ws| == 3
    ensures Join(", ", ws) == ws[0] + ", " + ws[1] + ", " + ws[2]
  {
    assert ws[1..][1..] == [ws[2]];
    assert Join(", ", ws[1..]) == ws[1] + ", " + ws[2];
  }

  lemma LongConceptMentions(n: nat, concepts: seq<string>, i: nat)
    requires 5 <= n && 3 <= |concepts| && i < 3
    ensures Occurs(OriginalConcept(n, concepts), concepts[i])
  {
    JoinOfThree(concepts[..3]);
    ListMentions("Complex formation involving ", concepts[0], concepts[1], concepts[2], " and more", i);
  }

  /** Each item of a comma-separated list of three occurs in any text built
      around the list. */
  lemma ListMentions(head: string, c0: string, c1: string, c2: string, tail: string, i: nat)
    requires i < 3
    ensures Occurs(head + (c0 + ", " + c1 + ", " + c2) + tail, [c0, c1, c2][i])
  {
    var r := head + (c0 + ", " + c1 + ", " + c2) + tail;
    if i == 0 {
      OccursBetween(head, c0, ", " + c1 + ", " + c2 + tail);
      assert r == head + c0 + (", " + c1 + ", " + c2 + tail);
    } else if i == 1 {
      OccursBetween(head + c0 + ", ", c1, ", " + c2 + tail);
      assert r == head + c0 + ", " + c1 + (", " + c2 + tail);
    } else {
      OccursBetween(head + c0 + ", " + c1 + ", ", c2, tail);
      assert r == head + c0 + ", " + c1 + ", " + c2 + tail;
    }
  }

  /** `formation_patterns` has 41 entries. */
  const FormationCount: nat := 41

  /** The keys of `formation_patterns`, in the dict's insertion order. */
  function FormationKey(k: nat): string
    requires k < FormationCount
  {
    match k
    case 0 => "father"
    case 1 => "mother"
    case 2 => "son"
    case 3 => "daughter"
    case 4 => "brother"
    case 5 => "sister"
    case 6 => "god"
    case 7 => "lord"
    case 8 => "holy"
    case 9 => "spirit"
    case 10 => "heaven"
    case 11 => "earth"
    case 12 => "water"
    case 13 => "fire"
    case 14 => "light"
    case 15 => "darkness"
    case 16 => "man"
    case 17 => "woman"
    case 18 => "people"
    case 19 => "nation"
    case 20 => "create"
    case 21 => "make"
    case 22 => "speak"
    case 23 => "see"
    case 24 => "hear"
    case 25 => "walk"
    case 26 => "come"
    case 27 => "go"
    case 28 => "peace"
    case 29 => "love"
    case 30 => "wisdom"
    case 31 => "knowledge"
    case 32 => "understanding"
    case 33 => "strength"
    case 34 => "righteousness"
    case 35 => "house"
    case 36 => "city"
    case 37 => "mountain"
    case 38 => "river"
    case 39 => "tree"
    case _ => "stone"
  }

  function FormationKeys(): (r: seq<string>)
    ensures |r| == FormationCount
    ensures forall k :: 0 <= k < FormationCount ==> r[k] == FormationKey(k)
  {
    seq(FormationCount, k requires 0 <= k < FormationCount => FormationKey(k))
  }

  /** The sentences of `formation_patterns`, key by key; only the one for
      "father" depends on the word. */
  function FormationSentence(k: nat, letters: string): string
    requires k < FormationCount
  {
    if k == 0 then FatherSentence(letters) else FixedSentence(k)
  }

  /** The "father" sentence names the word's first letter, if any. */
  function FatherSentence(letters: string): string {
    "The strong leader (" + (if |letters| > 0 then [letters[0]] else "") + ") who provides shelter and protection"
  }

  function FixedSentence(k: nat): string
    requires 0 < k < FormationCount
  {
    match k
    case 1 => "The source of life and nurturing that surrounds and protects"
    case 2 => "The continuation and building upon the foundation"
    case 3 => "The opening and entrance to new family connections"
    case 4 => "The joining together in strength and unity"
    case 5 => "The connection and binding of family relationships"
    case 6 => "The mighty authority who reveals power and control"
    case 7 => "The supreme authority with power over all"
    case 8 => "Set apart and separated for divine purpose"
    case 9 => "The breath and life-force that moves and reveals"
    case 10 => "The dwelling place of divine authority above"
    case 11 => "The foundation and substance of physical existence"
    case 12 => "The mighty flowing force of life and chaos"
    case 13 => "The consuming and purifying force of destruction and light"
    case 14 => "The revealing power that illuminates and makes known"
    case 15 => "The concealing and unknown realm without revelation"
    case 16 => "The strong one who moves through life's challenges"
    case 17 => "The source of life and the opening to continuation"
    case 18 => "The gathering of many in unity and purpose"
    case 19 => "The mighty mass of people joined together"
    case 20 => "To bring forth the first strength from within"
    case 21 => "To shape and form through work and power"
    case 22 => "To release breath and communication from within"
    case 23 => "To experience and understand through perception"
    case 24 => "To gather and receive communication"
    case 25 => "To move along the path of life"
    case 26 => "To move toward a destination or purpose"
    case 27 => "To move away from present position"
    case 28 => "Authority that controls chaos and brings security"
    case 29 => "The binding and connecting force that joins"
    case 30 => "The boundary that controls chaos and reveals truth"
    case 31 => "The gathering and seeing of understanding"
    case 32 => "The deep seeing beneath the surface"
    case 33 => "The mighty power that leads and protects"
    case 34 => "The pursuit and catching of what is right"
    case 35 => "The place of dwelling and family activity"
    case 36 => "The gathering place surrounded by protection"
    case 37 => "The high place of strength and stability"
    case 38 => "The flowing mighty waters that give life"
    case 39 => "The living thing that connects earth and heaven"
    case _ => "The solid foundation and enduring strength"
  }

  /** The first key at or after `i` that occurs in `s`: the loop over
      `formation_patterns.items()` testing `key in meaning_lower`. */
  function FirstKeyFrom(keys: seq<string>, s: string, i: nat): (r: Option<nat>)
    ensures r.Some? ==> i <= r.value < |keys| && Occurs(s, keys[r.value])
    ensures r.Some? ==> forall j :: i <= j < r.value ==> !Occurs(s, keys[j])
    ensures r.None? ==> forall j :: i <= j < |keys| ==> !Occurs(s, keys[j])
    decreases |keys| - i
  {
    if i >= |keys| then None
    else if Occurs(s, keys[i]) then Some(i)
    else FirstKeyFrom(keys, s, i + 1)
  }

  /** `generate_formation_explanation`. Its Hebrew word and Strong's number
      parameters are never read and are left out. */
  function GenerateFormationExplanation(english: string, root: Option<RootAnalysis>): (r: string)
    ensures root.None? || english == [] ==> r == "Formation analysis for " + english
    ensures root.Some? && english != [] ==> |english| + 3 <= |r| && r[..|english| + 3] == Title(english) + " = "
  {
    if root.None? || english == [] then "Formation analysis for " + english
    else
      var a := root.value;
      var sentence :=
        match FirstKeyFrom(FormationKeys(), Lower(english), 0)
        case Some(k) => FormationSentence(k, a.rootLetters)
        case None =>
          if |a.concepts| >= 2 then "The " + a.concepts[0] + " that involves " + a.concepts[1]
          else if |a.concepts| == 1 then "Related to " + a.concepts[0]
          else "Word formed from Hebrew root " + a.rootLetters;
      Title(english) + " = " + sentence
  }

  /** The first key, in table order, found in the lower-cased meaning decides
      the sentence. */
  lemma FormationKeywordWins(english: string, a: RootAnalysis, k: nat)
    requires english != [] && k < |FormationKeys()|
    requires Occurs(Lower(english), FormationKeys()[k])
    requires forall j :: 0 <= j < k ==> !Occurs(Lower(english), FormationKeys()[j])
    ensures GenerateFormationExplanation(english, Some(a))
      == Title(english) + " = " + FormationSentence(k, a.rootLetters)
  {
    FirstKeyFound(FormationKeys(), Lower(english), 0, k);
  }

  lemma {:induction false} FirstKeyFound(keys: seq<string>, s: string, i: nat, k: nat)
    requires i <= k < |keys| && Occurs(s, keys[k])
    requires forall j :: i <= j < k ==> !Occurs(s, keys[j])
    ensures FirstKeyFrom(keys, s, i) == Some(k)
    decreases k - i
  {
    if i < k {
      FirstKeyFound(keys, s, i + 1, k);
    }
  }

  /** With no key in the meaning, the sentence is built from the first one
      or two concepts, or from the root letters when there are none. */
  lemma FormationWithoutKeyword(english: string, a: RootAnalysis)
    requires english != []
    requires forall j :: 0 <= j < |FormationKeys()| ==> !Occurs(Lower(english), FormationKeys()[j])
    ensures |a.concepts| >= 2 ==> (GenerateFormationExplanation(english, Some(a))
      == Title(english) + " = " + ("The " + a.concepts[0] + " that involves " + a.concepts[1]))
    ensures |a.concepts| == 1 ==> (GenerateFormationExplanation(english, Some(a))
      == Title(english) + " = " + ("Related to " + a.concepts[0]))
    ensures a.concepts == [] ==> (GenerateFormationExplanation(english, Some(a))
      == Title(english) + " = " + ("Word formed from Hebrew root " + a.rootLetters))
  {
  }

  /** A key containing an earlier key can never be the first match. */
  lemma ShadowedKeyNeverFirst(keys: seq<string>, s: string, i: nat, j: nat)
    requires i < j < |keys| && Occurs(keys[j], keys[i])
    ensures FirstKeyFrom(keys, s, 0) != Some(j)
  {
    var m := FirstKeyFrom(keys, s, 0);
    if m == Some(j) {
      OccursTransitive(s, keys[j], keys[i]);
      assert false;
    }
  }

  /** "woman" contains the earlier key "man", so its sentence is never
      produced: a meaning mentioning a woman is explained as "man". */
  lemma WomanNeverMatches(s: string)
    ensures FormationKeys()[16] == "man" && FormationKeys()[17] == "woman"
    ensures FirstKeyFrom(FormationKeys(), s, 0) != Some(17)
  {
    var woman := FormationKeys()[17];
    assert woman[2..5] == "man";
    assert OccursAt(woman, FormationKeys()[16], 2);
    ShadowedKeyNeverFirst(FormationKeys(), s, 16, 17);
  }

  /** The explanation of an analysed word depends on the meaning only up to
      case. */
  lemma FormationIgnoresCase(english: string, root: Option<RootAnalysis>)
    requires root.Some?
    ensures GenerateFormationExplanation(Lower(english), root) == GenerateFormationExplanation(english, root)
  {
    LowerIdempotent(english);
    TitleOfLower(english);
  }

  /** "father" for the word אב: the father sentence, naming the first letter. */
  lemma FatherExample(english: string, a: RootAnalysis)
    requires english == "father" && a.rootLetters == "אב"
    ensures GenerateFormationExplanation(english, Some(a))
      == "Father" + " = " + ("The strong leader (" + "א" + ") who provides shelter and protection")
  {
    FatherCase(english);
    assert OccursAt(Lower(english), FormationKeys()[0], 0);
    FormationKeywordWins(english, a, 0);
    FatherOfAleph(a.rootLetters);
  }

  lemma FatherCase(english: string)
    requires english == "father"
    ensures Lower(english) == english && Title(english) == "Father"
    ensures FormationKey(0) == english
  {
  }

  lemma FatherOfAleph(letters: string)
    requires letters == "אב"
    ensures FatherSentence(letters) == "The strong leader (" + "א" + ") who provides shelter and protection"
  {
    assert [letters[0]] == "א";
  }
}
