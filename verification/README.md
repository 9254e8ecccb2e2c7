# Paleo-Hebrew Bible text layer in Dafny

This project models the pure text-transformation layer of a Bible-study application. The application stores the Hebrew Bible with:
- its consonantal text;
- its rendering in the Paleo-Hebrew script (the Phoenician block, U+10900–U+10915);
- an "ancient pronunciation" transliteration;
- a letter-by-letter pictographic analysis of word roots.

The model covers:

- `HebrewConverter` (`utils/hebrew_converter.py`):
  - `remove_nikud` as an exact deletion of the block U+0591–U+05C7;
  - `hebrew_to_paleo` and its lossy inverse `paleo_to_hebrew`;
  - the modern pronunciation guide.
- `Transliterator` and `BibleImporter` (`utils/bible_importer.py`):
  - the ordered `VOWEL_PATTERNS` replacement pass followed by the word-by-word rendering with a positional vowel rule;
  - the word-for-word literal translation;
  - the verse-record builder;
  - the flattening of a Sefaria response into verses.
- `ReplacePass`: the ordered "if pattern in text: text = text.replace(...)" pass. It is shared by the transliterator and the speech pipeline, with the consequences of table order: a key containing an earlier key never fires.
- `RootAnalysis` (`create_comprehensive_dictionary.py`):
  - the 27-entry letter-meaning table;
  - `clean_hebrew_word` and `analyze_hebrew_root`;
  - the first-match keyword search of `generate_formation_explanation`.
- `AncientTts` (`utils/ancient_hebrew_tts.py`): the speech pipeline over lookup tables given as parameters:
  - a Paleo-or-Hebrew branch;
  - a greedy two-character scan;
  - a single-pass double-space clean-up;
  - the vowel-pattern pass and the final rewrites.
- `NewTestament` (`import_new_testament.py`):
  - tag and asterisk cleaning;
  - Greek transliteration;
  - Sefaria book names;
  - chapter counts.
- `Strongs` (`import_complete_strongs_v2.py`):
  - the part-of-speech keyword classifier;
  - the defaulting and truncation of imported fields.
- `BibleBooks` (`data/bible_books.py`): the 39-book canon table, the chapter total and the three section summaries, with their invariants.
- `VerseView` (`models.py`): the punctuation cleaning of `Verse.to_dict`.
- `BulkImporter` (`utils/bible_bulk_importer.py`):
  - the `ImportProgress` record as an immutable state machine;
  - the remaining and resume book lists;
  - `_process_sefaria_response`.
- `PyStr` and `PyJson`: the Python string operations and the JSON values these functions use. PyStr covers `strip`, `split`, `join`, `replace`, `in`, `lower`, `title` and `dict.get` over characters. PyJson covers `get`, `len`, indexing and truthiness.

Clocks are parameters (`now`) wherever the code stamps a record. Files, the database, the network and threads are outside the model.

## Model

| member | source | states |
|---|---|---|
| PyStr.Strip | utils/bible_importer.py:229 | `str.strip()` yields a contiguous piece of the input that neither starts nor ends with whitespace |
| PyStr.LStrip | utils/ancient_hebrew_tts.py:161 | only whitespace is cut from the front, and the result does not start with whitespace |
| PyStr.RStrip | utils/ancient_hebrew_tts.py:161 | only whitespace is cut from the back, and the result does not end with whitespace |
| PyStr.StripChar | utils/bible_importer.py:229 | every kept character is the input's character at the same offset past the cut |
| PyStr.StripOfStripped | utils/bible_importer.py:229 | stripping already-stripped text changes nothing |
| PyStr.StripOfAllSpace | utils/bible_importer.py:229 | text made only of whitespace strips to "" |
| PyStr.Split | utils/bible_importer.py:105 | `split()` returns non-empty words without whitespace |
| PyStr.SplitEmpty | utils/bible_importer.py:105 | "" splits into no words |
| PyStr.SplitOfWord | utils/bible_importer.py:105 | a word without whitespace splits into itself |
| PyStr.SplitWordsOccur | utils/bible_importer.py:105 | every word returned by `split()` is a substring of the input |
| PyStr.Join | utils/bible_importer.py:116 | `sep.join` of a single word is that word |
| PyStr.JoinWordsStripped | utils/bible_importer.py:116 | joining non-empty space-free words with " " gives stripped text without a double space, beginning with the first word's first character and ending with the last word's last character |
| PyStr.JoinPlainSpaces | utils/bible_importer.py:116 | the separator is then the only whitespace in the result |
| PyStr.SplitJoin | utils/bible_importer.py:105-116 | `split()` undoes `' '.join` on non-empty words without whitespace |
| PyStr.ReplaceAbsent | utils/bible_importer.py:101-102 | `replace` of a pattern that does not occur is the identity, which is why the `in` guard before it changes nothing |
| PyStr.ReplaceBySelf | utils/ancient_hebrew_tts.py:216 | replacing a non-empty pattern by itself is the identity |
| PyStr.OccursTransitive | import_complete_strongs_v2.py:201-216 | substring containment is transitive |
| PyStr.OccursInSuffix | utils/bible_importer.py:101 | an occurrence in a suffix is an occurrence in the whole |
| PyStr.Lower | import_complete_strongs_v2.py:199 | `lower()` keeps the length and lower-cases each character in place |
| PyStr.LowerIdempotent | create_comprehensive_dictionary.py:268 | lower-casing twice is lower-casing once |
| PyStr.Title | create_comprehensive_dictionary.py:331 | `title()` upper-cases a cased character exactly when it follows an uncased one, and lower-cases it otherwise |
| PyStr.TitleOfLower | create_comprehensive_dictionary.py:331 | title case does not depend on the input's case |
| PyStr.Filter | utils/hebrew_converter.py:109-122 | a filtering loop keeps only characters satisfying the test and never lengthens the text |
| PyStr.FilterAppend | utils/hebrew_converter.py:109-122 | filtering works character by character over a concatenation |
| PyStr.FilterKeepsAll | utils/hebrew_converter.py:109-122 | text all of whose characters pass is unchanged |
| PyStr.SoundOr | utils/hebrew_converter.py:77 | `table.get(c, c)` returns the character itself when it is not a key |
| PyStr.CharMapAppend | import_new_testament.py:36-38 | a per-character `get(c, c)` loop distributes over concatenation |
| PyStr.CharMapUnmapped | import_new_testament.py:36-38 | text with no key of the table comes through unchanged |
| PyJson.Lookup | utils/bible_importer.py:205 | a member is found exactly when some pair carries the key, and the value found is stored under it |
| PyJson.Get | utils/bible_importer.py:205-206 | `data.get(key, default)` fails exactly on non-dicts and gives the default when the key is absent |
| PyJson.Len | utils/bible_importer.py:209 | `len` is defined exactly for strings, lists and dicts |
| PyJson.Index | utils/bible_bulk_importer.py:212 | integer indexing succeeds exactly within a string or list, and reads the list's element |
| PyJson.Iter | utils/bible_importer.py:208 | iteration is defined for the same values as `len` and yields `len` items; on a list it yields its elements |
| PyJson.IndexBelowLen | utils/bible_importer.py:208-213 | every index below `len` reads the element iteration yields at that place |
| ReplacePass.PatternFrom | utils/bible_importer.py:109-110 | `table[w]` is found exactly when some entry's key is `w`, and it is that entry's value |
| ReplacePass.ApplyNoPattern | utils/bible_importer.py:100-102 | a pattern pass over text holding none of the patterns leaves it unchanged |
| ReplacePass.ForeignTextUnchanged | utils/bible_importer.py:100-102 | text without Hebrew letters passes a table of Hebrew patterns with Latin replacements unchanged |
| ReplacePass.SparseTextUnchanged | utils/bible_importer.py:100-102 | text in which no two Hebrew letters are adjacent also passes unchanged, since every pattern has at least two letters |
| ReplacePass.ApplyFirst | utils/bible_importer.py:100-102 | the first entry is applied first, on the original text |
| ReplacePass.ApplyConcat | utils/bible_importer.py:100-102 | applying a table in two parts is applying the parts one after the other |
| ReplacePass.SeparatedSuffix | utils/bible_importer.py:48-89 | any tail of a table whose keys are Hebrew and whose values are Latin keeps that property |
| ReplacePass.PrefixKept | utils/bible_importer.py:102 | a Hebrew prefix of a replacement's output was already a prefix of its input |
| ReplacePass.AfterReplacement | utils/bible_importer.py:102 | no Hebrew pattern straddles a Latin replacement |
| ReplacePass.AfterCopiedChar | utils/bible_importer.py:102 | a character copied by `replace` starts a pattern only if it started one before |
| ReplacePass.NoOccursSuffix | utils/bible_importer.py:101 | a pattern absent from a text is absent from each suffix of it |
| ReplacePass.ReplaceKillsPattern | utils/bible_importer.py:102 | after `replace(p, r)` with a Latin `r`, `p` no longer occurs |
| ReplacePass.ReplaceKeepsAbsent | utils/bible_importer.py:102 | a Latin replacement cannot create a Hebrew pattern that was absent |
| ReplacePass.PatternsGoneAfter | utils/bible_importer.py:100-102 | after the first n entries have run, none of their patterns occurs |
| ReplacePass.ShadowedEntryNeverFires | utils/bible_importer.py:100-102 | an entry whose key contains an earlier key can be deleted from the table without changing any result |
| HebrewConverter.GlyphBack | utils/hebrew_converter.py:7-36 | every non-final letter's glyph maps back to that letter |
| HebrewConverter.ReverseTableUndoesGlyphs | utils/hebrew_converter.py:39 | the reversed table sends each non-final letter's glyph back to the letter |
| HebrewConverter.ReverseTableComesFromGlyphs | utils/hebrew_converter.py:39 | the reversed table's keys are exactly the 22 glyphs and the space, each sent to a non-final letter with that glyph |
| HebrewConverter.LetterBack | utils/hebrew_converter.py:39 | every glyph and the space come from a non-final key of the forward table |
| HebrewConverter.RemoveNikud | utils/hebrew_converter.py:81-122 | `remove_nikud` deletes exactly the code points U+0591..U+05C7 and keeps every other character in order, which shows that the five ranges and four single marks tile that block |
| HebrewConverter.RemoveNikudIdempotent | utils/hebrew_converter.py:109-122 | it never lengthens its input, maps "" to "" and is idempotent |
| HebrewConverter.RemoveNikudAppend | utils/hebrew_converter.py:109-122 | it works character by character |
| HebrewConverter.RemoveNikudOfClean | utils/hebrew_converter.py:109-122 | text without points, accents or marks is unchanged |
| HebrewConverter.GlyphIsPaleo | utils/hebrew_converter.py:7-36 | every value of HEBREW_TO_PALEO is a Paleo glyph or the space |
| HebrewConverter.PaleoOf | utils/hebrew_converter.py:56-62 | one character yields at most one output character, always a glyph or a space |
| HebrewConverter.HebrewToPaleo | utils/hebrew_converter.py:41-63 | the output holds only the 22 Paleo glyphs and the space, and is never longer than the input |
| HebrewConverter.HebrewToPaleoAppend | utils/hebrew_converter.py:56-62 | the conversion works character by character |
| HebrewConverter.LetterToGlyph | utils/hebrew_converter.py:7-58 | each of the 27 letter forms becomes its table glyph, and each final form becomes its base letter's glyph |
| HebrewConverter.FinalGlyph | utils/hebrew_converter.py:18-30 | ך/כ, ם/מ, ן/נ, ף/פ and ץ/צ share a glyph |
| HebrewConverter.WhitespaceToSpace | utils/hebrew_converter.py:59-60 | any whitespace character becomes exactly one space |
| HebrewConverter.OtherCharsDropped | utils/hebrew_converter.py:61 | digits, Latin letters, punctuation and nikud produce nothing |
| HebrewConverter.PaleoToHebrew | utils/hebrew_converter.py:65-79 | `paleo_to_hebrew` keeps the length of its input |
| HebrewConverter.PaleoToHebrewAppend | utils/hebrew_converter.py:76-77 | it works character by character |
| HebrewConverter.PaleoToHebrewPassThrough | utils/hebrew_converter.py:77 | a character outside the reversed table comes back unchanged |
| HebrewConverter.RoundTrip | utils/hebrew_converter.py:39-79 | text made of non-final letters and spaces survives Hebrew → Paleo → Hebrew |
| HebrewConverter.RoundTripChar | utils/hebrew_converter.py:39-58 | each non-final letter and the space round-trip on their own |
| HebrewConverter.FinalFormRoundTrip | utils/hebrew_converter.py:39 | a final form returns as its base letter, so the round trip is lossy |
| HebrewConverter.KingRoundTrip | utils/hebrew_converter.py:39 | מלך returns as מלכ |
| HebrewConverter.PronunciationGuide | utils/hebrew_converter.py:124-168 | the guide carries no leading or trailing whitespace, and no non-final Hebrew letter and no point or accent survives in it: each is transliterated or dropped |
| HebrewConverter.GuideSoundLatin | utils/hebrew_converter.py:136-160 | every entry of the guide table is lower-case Latin letters and spaces |
| HebrewConverter.GuideRawClean | utils/hebrew_converter.py:165-166 | the per-character lookup over pointless text emits no non-final letter and no mark |
| HebrewConverter.GuideRawAppend | utils/hebrew_converter.py:162-166 | the guide before stripping works character by character over a concatenation |
| HebrewConverter.GuideRawChar | utils/hebrew_converter.py:162-166 | one character gives nothing if it is a point or accent, its table sound if it is a key, and itself otherwise |
| HebrewConverter.GuideRawAt | utils/hebrew_converter.py:165-166 | a character anywhere in a word contributes its own guide between the guides of the two parts |
| HebrewConverter.KeptChar | utils/hebrew_converter.py:166 | a character that is neither a mark nor a key is kept unchanged (`get(char, char)`) |
| HebrewConverter.KeyChar | utils/hebrew_converter.py:166 | a key gives its table value |
| HebrewConverter.SilentChar | utils/hebrew_converter.py:137-152 | aleph and ayin give "" |
| HebrewConverter.SilentLetters | utils/hebrew_converter.py:136-166 | aleph and ayin contribute nothing wherever they stand in a word, and a leading one leaves the stripped guide unchanged |
| HebrewConverter.FinalFormsUntransliterated | utils/hebrew_converter.py:136-166 | final forms are missing from the table and pass through as Hebrew wherever they stand in a word; a lone final form is its own guide |
| HebrewConverter.SingleGuide | utils/hebrew_converter.py:168 | a non-space character the lookup keeps is its own stripped guide |
| HebrewConverter.VavIsV | utils/hebrew_converter.py:136-166 | vav reads "v" wherever it stands in a word, and the word "ו" reads "v" |
| HebrewConverter.VavChar | utils/hebrew_converter.py:142 | the lookup sends vav to "v" |
| Transliterator.VowelPatterns | utils/bible_importer.py:48-89 | the table has its 39 entries in dict order |
| Transliterator.GoodEntryAt | utils/bible_importer.py:48-89 | each entry maps a Hebrew word of at least two letters to a non-empty string of lower-case Latin letters and hyphens |
| Transliterator.VowelPatternsSeparated | utils/bible_importer.py:48-89 | every pattern is Hebrew with at least two letters, and every pronunciation is Latin without whitespace |
| Transliterator.ContextualVowel | utils/bible_importer.py:144-161 | the vowel is "a" or "e": "a" at position 0, otherwise "e" before the last letter, otherwise "e" before י/ל/נ/ר, otherwise "a" |
| Transliterator.Sound | utils/bible_importer.py:128 | a character outside ANCIENT_PRONUNCIATION sounds as itself |
| Transliterator.TransliterateEmpty | utils/bible_importer.py:120-121 | the empty word transliterates to "" |
| Transliterator.AncientTableShape | utils/bible_importer.py:17-45 | the keys are the 27 letter forms and the sounds are lower-case Latin |
| Transliterator.SilentOnlyAleph | utils/bible_importer.py:17-45 | aleph is the only character with an empty sound, and no other non-whitespace character sounds with whitespace |
| Transliterator.PiecesFromFacts | utils/bible_importer.py:126-140 | the rendering of a word's tail has no whitespace, and is empty exactly when the tail is all alephs |
| Transliterator.TransliterateWordFacts | utils/bible_importer.py:118-142 | a space-free word renders without whitespace, and renders as "" exactly when it is made of alephs |
| Transliterator.ForeignWordCopied | utils/bible_importer.py:128-136 | characters outside the table are copied and never take a vowel |
| Transliterator.ForeignWordUnchanged | utils/bible_importer.py:118-142 | a word without table characters renders as itself |
| Transliterator.LastPieceIsSound | utils/bible_importer.py:134 | no vowel follows the last character |
| Transliterator.TwoLetterWord | utils/bible_importer.py:150-153 | in a two-letter word the position-0 rule shadows the "before the last letter" rule, giving "a" |
| Transliterator.RenderWords | utils/bible_importer.py:108-114 | one rendering per word, in order |
| Transliterator.CreatePaleoTransliteration | utils/bible_importer.py:91-116 | as written: its only whitespace is the plain space |
| Transliterator.WordLookupNeverHits | utils/bible_importer.py:100-110 | after the pattern pass no word is a key of VOWEL_PATTERNS, so the per-word lookup never fires |
| Transliterator.NonEmpty | utils/bible_importer.py:108-116 | dropping empty renderings keeps only non-empty words |
| Transliterator.CreatePaleoTransliterationFixed | utils/bible_importer.py:105-116 | corrected: words joined by single spaces, with no leading or trailing whitespace and the plain space as the only whitespace |
| Transliterator.FixedSplitsIntoWords | utils/bible_importer.py:105-116 | splitting the corrected result gives back exactly the non-empty word renderings, in order |
| Transliterator.FixedAgreesWithoutSilentWords | utils/bible_importer.py:105-116 | the corrected and as-written versions agree whenever no word is made only of alephs |
| Transliterator.NoPatternFor | utils/bible_importer.py:109 | a word shorter than two letters, or one not starting with a Hebrew letter, is no key |
| Transliterator.LatinWordRendered | utils/bible_importer.py:108-114 | a word without Hebrew letters renders as itself |
| Transliterator.TrailingSpaceCounterexample | utils/bible_importer.py:105-116 | "ב א" transliterates to "b " with a trailing space; the corrected version gives "b" |
| Transliterator.BetAlephWords | utils/bible_importer.py:105-114 | "ב א" splits into its two letters, which render as "b" and "" |
| Transliterator.BereshitExample | utils/bible_importer.py:48-116 | בראשית transliterates to "ba-ra-sheet" |
| Transliterator.BereshitConsonantal | utils/bible_importer.py:48-102 | the first pattern turns בראשית into Latin text that no later pattern matches |
| Transliterator.LatinTextKept | utils/bible_importer.py:105-116 | when the pattern pass leaves one Latin word, that word is the result |
| Transliterator.ShadowedPatternsNeverFire | utils/bible_importer.py:48-102 | ואת, והארץ, תהום, ויהי and מעל (each containing an earlier key) can be dropped from the table without changing any result |
| BibleImporter.CommonWords | utils/bible_importer.py:264-288 | the literal-translation table has its 23 entries in dict order |
| BibleImporter.CommonWordsShape | utils/bible_importer.py:264-288 | every gloss is a non-empty string of letters, hyphens, slashes and brackets |
| BibleImporter.Glosses | utils/bible_importer.py:293-297 | one gloss per word, in order |
| BibleImporter.GlossShape | utils/bible_importer.py:294-297 | a space-free word has a non-empty, space-free gloss |
| BibleImporter.LiteralTranslationWords | utils/bible_importer.py:259-299 | splitting the translation again gives exactly the glosses of the input words, so the word count is kept; a known word becomes its entry and an unknown one `[word]` |
| BibleImporter.CreateVerseData | utils/bible_importer.py:225-257 | the corrected record (transliteration by `CreatePaleoTransliterationFixed`): chapter and verse are kept; the Hebrew and English are the stripped inputs; the consonantal text is the Hebrew without marks; the Paleo text is the Hebrew's conversion (the same as the consonantal text's); the transliteration is stripped, has no double space and splits back into the rendered words; the guide is that of the stripped Hebrew; the literal translation has exactly one gloss per consonantal word; Strong's numbers, morphology and notes are "" |
| BibleImporter.CreateVerseDataAsWritten | utils/bible_importer.py:225-257 | the record as the program builds it, with the as-written transliteration at line 238; it differs from the corrected record only in that field, and equals it when no word is made of alephs alone |
| BibleImporter.VerseRecordTrailingSpace | utils/bible_importer.py:238 | for the verse "ב א" the program stores the transliteration "b " where the corrected record stores "b" |
| BibleImporter.VerseDataEnglish | utils/bible_importer.py:252 | the English is the stripped input, and "" when none is given |
| BibleImporter.IndexOr | utils/bible_importer.py:209 | `x[i] if i < len(x) else default` on lists, failing where `len` would raise |
| BibleImporter.VersesFrom | utils/bible_importer.py:212-218 | verse `k` of a chapter carries its number, verse number `v + k + 1`, the Hebrew string at index `v + k` and the English string read there (or "" past the English's end); a walk that does not fail holds every remaining verse |
| BibleImporter.ChaptersFrom | utils/bible_importer.py:208-218 | the verses of later chapters have larger chapter numbers and positive verse numbers; a walk that does not fail has one verse per item of every chapter list; content is stated by ChaptersFromPlaces and ChaptersFromCovers |
| BibleImporter.ChaptersFromPlaces | utils/bible_importer.py:208-218 | every verse found is the Hebrew string at its chapter and verse place, with the English the loop reads for that place |
| BibleImporter.ChaptersFromSplit | utils/bible_importer.py:208-218 | a chapter list whose English is read contributes its verses first, then the later chapters' unless its own walk failed |
| BibleImporter.PlaceHere | utils/bible_importer.py:211-213 | every verse of the current chapter is the string at its place with the English read there |
| BibleImporter.ChaptersFromStep | utils/bible_importer.py:208-218 | in a walk that does not fail, the English chapter is read, the chapter's verses come first and the rest of the walk does not fail |
| BibleImporter.CoverHere | utils/bible_importer.py:211-218 | in a walk that does not fail, every item of the current chapter is a string and is found with its place and English |
| BibleImporter.CoverLater | utils/bible_importer.py:208-218 | what the rest of a walk that does not fail finds, the walk finds |
| BibleImporter.VerseFound | utils/bible_importer.py:212-218 | in a chapter walk that does not fail, item `v` is a string and is found as verse `v + 1` with the English at `v` |
| BibleImporter.ChaptersFromCovers | utils/bible_importer.py:208-218 | a walk that does not fail misses no item of any chapter list: each is a string, found with its place and its English |
| BibleImporter.SefariaVersesFromPlaces | utils/bible_importer.py:200-223 | with "he" a list of chapters, every verse found is the string at its place with the English read there |
| BibleImporter.SefariaVerses | utils/bible_importer.py:200-223 | chapter and verse numbers start at 1 |
| BibleImporter.ProcessSefariaData | utils/bible_importer.py:200-223 | one record per verse found, with its chapter and verse numbers, built by `_create_verse_data` from that verse's Hebrew and English |
| BibleImporter.SefariaVersesOrdered | utils/bible_importer.py:208-218 | verses come out in strictly increasing (chapter, verse) order |
| BibleImporter.NoHebrewNoVerses | utils/bible_importer.py:205-208 | a response that is no object, or has no "he", gives no verses |
| BibleImporter.WellFormedResponseComplete | utils/bible_importer.py:200-223 | a response whose Hebrew and English are lists of string chapters loses no verse, even with shorter English: one record per Hebrew verse; `he[c][v]` is recorded as chapter `c + 1`, verse `v + 1` with `en[c][v]` or ""; every verse found is a Hebrew string at its place with that place's English |
| BibleImporter.ResponseLists | utils/bible_importer.py:205-208 | the verses found in a response with "he" and "text" lists are the walk over those lists |
| BibleImporter.EnglishAtMatrix | utils/bible_importer.py:209-213 | over English chapters of strings, the English read is the string at the same place, or "" past the end |
| BibleImporter.WellFormedWalkCovers | utils/bible_importer.py:208-218 | over string chapters every Hebrew verse is found with the English at the same place or "" |
| BibleImporter.WellFormedWalkPlaces | utils/bible_importer.py:208-218 | over English string chapters every verse found is the Hebrew string at its place with the English at that place or "" |
| BibleImporter.RecordsCover | utils/bible_importer.py:212-218 | records built verse by verse hold a record for every verse found |
| BibleImporter.WellFormedRecordCount | utils/bible_importer.py:200-223 | a well-formed response gives one record per Hebrew verse |
| BibleImporter.WellFormedRecordsCover | utils/bible_importer.py:200-223 | a well-formed response gives the record of every Hebrew verse with its English or "" |
| BibleImporter.WellFormedVersesAtPlaces | utils/bible_importer.py:200-223 | in a response with an English list of string chapters every verse found is a Hebrew string at its place with that place's English |
| BibleImporter.MissingEnglishIsEmpty | utils/bible_importer.py:206-213 | with no "text" member every verse's English is "" |
| BibleImporter.MissingEnglishVerses | utils/bible_importer.py:206-213 | the same, for the raw verses |
| RootAnalysis.LetterMeaningsDomain | create_comprehensive_dictionary.py:15-178 | the table knows exactly the 27 letter forms U+05D0..U+05EA |
| RootAnalysis.FinalFormsShareMeaning | create_comprehensive_dictionary.py:15-178 | each final form has its base letter's meaning, pictograph and concept |
| RootAnalysis.HebrewFilterNonEmpty | create_comprehensive_dictionary.py:189-192 | the letters found are non-empty exactly when the word holds a Hebrew letter |
| RootAnalysis.HebrewLettersIgnoreMarks | create_comprehensive_dictionary.py:186-190 | removing nikud does not change the Hebrew letters |
| RootAnalysis.CleanHebrewWordFacts | create_comprehensive_dictionary.py:180-192 | a word with Hebrew letters cleans to exactly those letters in order; otherwise it cleans to its stripped, nikud-free text, which has none |
| RootAnalysis.StripKeepsNoHebrew | create_comprehensive_dictionary.py:192 | stripping cannot introduce a Hebrew letter |
| RootAnalysis.StripKeepsNoMarks | create_comprehensive_dictionary.py:192 | stripping cannot introduce a mark |
| RootAnalysis.CleanHebrewWordIdempotent | create_comprehensive_dictionary.py:180-192 | cleaning is idempotent |
| RootAnalysis.CleanLettersAgain | create_comprehensive_dictionary.py:189-192 | a word of letters cleans to itself |
| RootAnalysis.CleanForeignAgain | create_comprehensive_dictionary.py:186-192 | idempotence for words without letters |
| RootAnalysis.CleanStrippedForeign | create_comprehensive_dictionary.py:192 | stripped, mark-free text without letters cleans to itself |
| RootAnalysis.MeaningsOf | create_comprehensive_dictionary.py:213-223 | one meaning entry per known letter; none exactly when no letter is known; all of them when every letter is known |
| RootAnalysis.ConceptsOf | create_comprehensive_dictionary.py:213-222 | one concept per known letter, in order |
| RootAnalysis.PaleoSegments | create_comprehensive_dictionary.py:230-234 | one segment per letter |
| RootAnalysis.CleanWordAllKnown | create_comprehensive_dictionary.py:225-233 | once a letter was found, every character of the cleaned word is in the table, so the unguarded second lookup cannot fail |
| RootAnalysis.PaleoOfLetters | create_comprehensive_dictionary.py:232 | converting a word of letters gives one glyph per letter, the glyph of that letter alone |
| RootAnalysis.LettersKnown | create_comprehensive_dictionary.py:214 | Hebrew letters are all in the table |
| RootAnalysis.ForeignUnknown | create_comprehensive_dictionary.py:214 | text without Hebrew letters has no table letters |
| RootAnalysis.AnalysisExistsIffHebrew | create_comprehensive_dictionary.py:194-226 | `analyze_hebrew_root` returns `None` exactly when the word holds no Hebrew letter |
| RootAnalysis.AnalysisOfLetters | create_comprehensive_dictionary.py:199-257 | a word holding a Hebrew letter has an analysis, made of the word's letters in order, with one meaning and one concept per letter, each from the table |
| RootAnalysis.AnalysisIgnoresNonLetters | create_comprehensive_dictionary.py:194-257 | points, accents, punctuation and foreign characters make no difference to the analysis |
| RootAnalysis.PictographicSpelling | create_comprehensive_dictionary.py:230-236 | the analysis of a word with a Hebrew letter joins one "glyph (pictograph)" segment per letter with " + ", glyph by glyph |
| RootAnalysis.OccursBetween | create_comprehensive_dictionary.py:239-249 | text placed between two strings occurs in the result |
| RootAnalysis.ConceptSentenceMentions | create_comprehensive_dictionary.py:239-249 | the concept sentence names every concept of a word of up to four letters, and the first three of a longer one |
| RootAnalysis.ShortConceptMentions | create_comprehensive_dictionary.py:239-242 | the one- and two-letter templates name their concepts |
| RootAnalysis.ThreeConceptMentions | create_comprehensive_dictionary.py:243-245 | the three-letter template names all three |
| RootAnalysis.FourConceptMentions | create_comprehensive_dictionary.py:246-247 | the four-letter template names all four |
| RootAnalysis.JoinOfThree | create_comprehensive_dictionary.py:249 | `', '.join` of three concepts separates them with ", " |
| RootAnalysis.LongConceptMentions | create_comprehensive_dictionary.py:248-249 | the "Complex formation" sentence names the first three concepts |
| RootAnalysis.ListMentions | create_comprehensive_dictionary.py:249 | each item of a three-item list occurs in any text around it |
| RootAnalysis.FormationKeys | create_comprehensive_dictionary.py:271-326 | the formation keys in dict order |
| RootAnalysis.FirstKeyFrom | create_comprehensive_dictionary.py:329-331 | the loop finds the first key in table order that occurs in the meaning, or reports that none does |
| RootAnalysis.GenerateFormationExplanation | create_comprehensive_dictionary.py:259-339 | no analysis or no meaning gives "Formation analysis for …"; otherwise the result starts with the title-cased meaning and " = " |
| RootAnalysis.FormationKeywordWins | create_comprehensive_dictionary.py:329-331 | the first key in table order occurring in the lower-cased meaning decides the sentence |
| RootAnalysis.FirstKeyFound | create_comprehensive_dictionary.py:329-330 | a key is the first match exactly when it occurs and no earlier key does |
| RootAnalysis.FormationWithoutKeyword | create_comprehensive_dictionary.py:334-339 | with no key present, two or more concepts give "The c0 that involves c1", one gives "Related to c0", none gives "Word formed from Hebrew root …" |
| RootAnalysis.ShadowedKeyNeverFirst | create_comprehensive_dictionary.py:329-331 | a key containing an earlier key is never the first match |
| RootAnalysis.WomanNeverMatches | create_comprehensive_dictionary.py:271-331 | "woman" follows "man" and is never matched |
| RootAnalysis.FormationIgnoresCase | create_comprehensive_dictionary.py:268-331 | the explanation depends on the meaning only up to case |
| RootAnalysis.FatherExample | create_comprehensive_dictionary.py:271-331 | "father" for אב gives the father sentence naming א |
| RootAnalysis.FatherCase | create_comprehensive_dictionary.py:268-331 | "father" is its own lower case, its title case is "Father", and it is the first key |
| RootAnalysis.FatherOfAleph | create_comprehensive_dictionary.py:271-331 | the father sentence for אב names its first letter |
| AncientTts.Cleanup | utils/ancient_hebrew_tts.py:160-161 | the clean-up result is stripped |
| AncientTts.HebrewToAncientPronunciation | utils/ancient_hebrew_tts.py:123-163 | the result is stripped and "" gives "" |
| AncientTts.ScanWithoutRules | utils/ancient_hebrew_tts.py:144-157 | where no two-character rule applies, the scan is the per-character lookup |
| AncientTts.HebrewUnmappedPassesThrough | utils/ancient_hebrew_tts.py:155-156 | Hebrew-branch text with no table character or pair passes through |
| AncientTts.GreedyPairWins | utils/ancient_hebrew_tts.py:147-152 | a rule on the first two characters is consumed before the second and third are tried |
| AncientTts.SingleLookup | utils/ancient_hebrew_tts.py:154-157 | a character starting no rule is looked up alone, unmapped ones kept |
| AncientTts.SpaceSelectsPaleo | utils/ancient_hebrew_tts.py:79-141 | any text holding a space takes the Paleo per-character branch |
| AncientTts.PaleoBranchPerCharacter | utils/ancient_hebrew_tts.py:138-141 | the Paleo branch works character by character |
| AncientTts.ThreeSpacesLeaveTwo | utils/ancient_hebrew_tts.py:160 | the single `replace` pass turns three spaces into two, not one |
| AncientTts.ReplaceCopies | utils/ancient_hebrew_tts.py:160 | `replace` copies a character that does not start the pattern |
| AncientTts.ReplaceMatches | utils/ancient_hebrew_tts.py:160 | `replace` substitutes a pattern found at the front |
| AncientTts.AddAncientVowels | utils/ancient_hebrew_tts.py:165-194 | text containing no pattern is returned unchanged |
| AncientTts.ApplyNoPatternCond | utils/ancient_hebrew_tts.py:189-192 | the same, for any table |
| AncientTts.VowelPatternsInOrder | utils/ancient_hebrew_tts.py:190-192 | the first pattern is tried first, on the unchanged text |
| AncientTts.CreateTtsText | utils/ancient_hebrew_tts.py:196-219 | without vowels the pronunciation is only rewritten, and no "kh" survives |
| AncientTts.TsRewriteIsNoOp | utils/ancient_hebrew_tts.py:215-217 | the "ts" rewrite is the identity, so the rewrites are "kh"→"ch" then "ah"→"a" |
| AncientTts.NoVowelsSkipsPatterns | utils/ancient_hebrew_tts.py:211-217 | with `include_vowels` false only the rewrites follow the pronunciation |
| AncientTts.NoKhAfterRewrites | utils/ancient_hebrew_tts.py:215-217 | no "kh" remains after the rewrites |
| AncientTts.KhReplaced | utils/ancient_hebrew_tts.py:215 | after "kh"→"ch" no "kh" is left |
| AncientTts.AhKeepsNoKh | utils/ancient_hebrew_tts.py:217 | "ah"→"a" cannot bring a "k" next to an "h" |
| AncientTts.ReplaceHead | utils/ancient_hebrew_tts.py:217 | an output of `replace` starting with `c` comes from text starting with `c` |
| AncientTts.PrependNoPair | utils/ancient_hebrew_tts.py:217 | a character put in front creates a pair only by matching its first half |
| AncientTts.NoOccursShort | utils/ancient_hebrew_tts.py:215 | a pattern longer than the text does not occur in it |
| AncientTts.GetWordPronunciation | utils/ancient_hebrew_tts.py:237-252 | a sample word gets its sample pronunciation; any other word gets the vowelled TTS text, which has no "kh" |
| NewTestament.FirstGtFrom | import_new_testament.py:17 | the tag's end is the first '>' from the given place, or the end of the text |
| NewTestament.TagAtHead | import_new_testament.py:17 | a '<' starts a tag exactly when a non-empty run without '>' follows it and a '>' closes it |
| NewTestament.TagDropped | import_new_testament.py:17 | a tag `<t>` before other text is removed |
| NewTestament.GtFreeKept | import_new_testament.py:17 | text without '>' is unchanged by tag removal |
| NewTestament.TagFreeKept | import_new_testament.py:17 | text without a tag is unchanged by tag removal |
| NewTestament.TagFreeSlice | import_new_testament.py:17-19 | a piece of tag-free text is tag-free |
| NewTestament.StripTagsKeepsHeadGt | import_new_testament.py:17 | a leading '>' survives tag removal |
| NewTestament.StripTagsTagFree | import_new_testament.py:17 | after tag removal no tag is left |
| NewTestament.FilterGtFree | import_new_testament.py:18 | removing characters cannot create a '>' |
| NewTestament.TagFreeFilter | import_new_testament.py:18 | removing '*' from tag-free text cannot create a tag |
| NewTestament.StripKeepsClean | import_new_testament.py:19 | stripping keeps text tag-free and without '*' |
| NewTestament.CleanText | import_new_testament.py:13-19 | `clean_text` returns "" for "", and otherwise text with no tag and no '*' and no leading or trailing whitespace |
| NewTestament.CleanTextIdempotent | import_new_testament.py:13-19 | cleaning twice is cleaning once |
| NewTestament.PlainTextOnlyStripped | import_new_testament.py:17-19 | text without '<' and '*' is only stripped |
| NewTestament.WrappedWordUnwrapped | import_new_testament.py:17-19 | `<tag>word` cleans to the word |
| NewTestament.LatinShape | import_new_testament.py:27-34 | each image is one or two ASCII letters |
| NewTestament.GreekToTransliteration | import_new_testament.py:21-24 | "" gives "" |
| NewTestament.CharMapGreekShape | import_new_testament.py:36-38 | the output is between one and two times as long as the input, and holds no mapped Greek letter |
| NewTestament.TransliterationShape | import_new_testament.py:21-40 | the output is at least as long as the input and at most twice as long, with no mapped Greek letter left |
| NewTestament.NonGreekUnchanged | import_new_testament.py:38 | unmapped characters (accented letters, punctuation, spaces) pass through |
| NewTestament.TransliterationIdempotent | import_new_testament.py:21-40 | transliterating twice is transliterating once |
| NewTestament.TransliterationAppend | import_new_testament.py:37-38 | it works character by character |
| NewTestament.MergedLetters | import_new_testament.py:28-30 | σ and ς both give "s", η and ε give "e", ω and ο give "o" |
| NewTestament.FirstBookFrom | import_new_testament.py:131-160 | the lookup finds the first book with the name, or none exactly when no book has it |
| NewTestament.SefariaNtName | import_new_testament.py:129-160 | an unknown name is returned unchanged; a known one gets its table spelling |
| NewTestament.SpellingIsRoman | import_new_testament.py:131-159 | each table spelling is the book name with a leading 1/2/3 written as I/II/III |
| NewTestament.SefariaNameRule | import_new_testament.py:129-160 | known names get the Roman-numeral form and unknown names are returned unchanged |
| NewTestament.FirstCorinthians | import_new_testament.py:138 | "1 Corinthians" → "I Corinthians" |
| NewTestament.BookChapters | import_new_testament.py:115-127 | a known book's count is its table value; an unknown book counts 1, the default `import_nt_book_content` applies at line 167 |
| NewTestament.ExpectedChapters | import_new_testament.py:167-170 | the table count, capped by `max_chapters` when that is given and non-zero |
| NewTestament.ChapterNumbers | import_new_testament.py:177 | chapters 1..n are processed in order |
| NewTestament.ChapterCountsPositive | import_new_testament.py:115-127 | every book has at least one chapter |
| NewTestament.ChaptersWithinBook | import_new_testament.py:162-177 | at least one chapter is processed unless the cap is negative (then none), and no chapter beyond the book's count |
| Strongs.PartOfSpeech | import_complete_strongs_v2.py:194-220 | the result is one of the ten labels, and "" gives "unknown" |
| Strongs.VerbInAdverb | import_complete_strongs_v2.py:201-207 | "verb" occurs in "adverb" |
| Strongs.NounInPronoun | import_complete_strongs_v2.py:203-215 | "noun" occurs in "pronoun" |
| Strongs.AdverbUnreachable | import_complete_strongs_v2.py:201-208 | "adverb" is never returned |
| Strongs.PronounUnreachable | import_complete_strongs_v2.py:203-216 | "pronoun" is never returned |
| Strongs.VerbBeatsNoun | import_complete_strongs_v2.py:199-202 | text mentioning "verb" or "root" is a verb whatever else it mentions |
| Strongs.CaseInsensitive | import_complete_strongs_v2.py:199 | only the lower-cased text matters |
| Strongs.GetOr | import_complete_strongs_v2.py:103-108 | `d.get(key, default)` gives the default for a missing key |
| Strongs.Take | import_complete_strongs_v2.py:103-107 | `s[:n]` is the prefix of length min(len(s), n) |
| Strongs.ImportEntry | import_complete_strongs_v2.py:102-109 | fields are cut to 100/100/100/200/1000 characters; word and short definition are prefixes of their sources; the part of speech is classified from the derivation |
| Strongs.Fallbacks | import_complete_strongs_v2.py:103-107 | a present key gives its value cut to the field width (lemma 100, xlit 100, translit 100 when xlit is missing, pron 100, strongs_def 200, kjv_def 1000); a missing key gives the fallback: "" for lemma and strongs_def, the cut transliteration for pron, the cut short definition for kjv_def |
| Strongs.XlitPreferred | import_complete_strongs_v2.py:104 | "xlit" wins over "translit" |
| Strongs.ShortFieldsKept | import_complete_strongs_v2.py:103-107 | fields within their width are stored as given |
| Strongs.LongLemmaCut | import_complete_strongs_v2.py:103 | an over-long lemma keeps exactly its first 100 characters |
| BibleBooks.Books | data/bible_books.py:6-408 | the canon lists 39 books |
| BibleBooks.Position | data/bible_books.py:6-408 | the book at list position k has order k+1 and lies in Torah for k < 5, Nevi'im for k < 26, Ketuvim otherwise |
| BibleBooks.OrdersAreCanonical | data/bible_books.py:6-408 | the orders are exactly 1..39, strictly increasing in list order |
| BibleBooks.NameNew | data/bible_books.py:6-408 | no book repeats the name of an earlier one |
| BibleBooks.NamesDistinct | data/bible_books.py:6-408 | the 39 names are pairwise distinct |
| BibleBooks.PaleoSpelling | utils/hebrew_converter.py:56-58 | a word whose letters each have the given glyph converts to those glyphs |
| BibleBooks.PaleoNameIsConverted | data/bible_books.py:6-408 | each `paleo_name` is the Paleo conversion of the book's `hebrew_name` |
| BibleBooks.TotalIs929 | data/bible_books.py:411 | TOTAL_CHAPTERS is 929 |
| BibleBooks.SectionPaleoNames | data/bible_books.py:421-439 | each section's Paleo name is the conversion of its Hebrew name |
| BibleBooks.CountClosedForm | data/bible_books.py:6-408 | the books of a section form one contiguous run of the list |
| BibleBooks.SectionCountsAgree | data/bible_books.py:421-439 | the `books` counts 5, 21 and 13 are the numbers of books tagged with each section, and they sum to 39, the split the header comment of the file announces |
| VerseView.DeleteChar | models.py:75 | deleting a character leaves none of it and never lengthens |
| VerseView.ReplaceDeletes | models.py:75 | `replace(c, '')` deletes exactly the character `c` |
| VerseView.DeleteCharAppend | models.py:75 | deletion works piecewise |
| VerseView.StripMarksDeletes | models.py:73-75 | the four passes are four deletions |
| VerseView.DeleteMarksAppend | models.py:73-75 | the deletions work piecewise |
| VerseView.StripMarksIsFilter | models.py:73-75 | the passes keep exactly the non-mark characters, in order |
| VerseView.CleanPaleoText | models.py:69-75 | `None` stays `None`; a string loses exactly its ־ ׃ ׀ ׆ marks |
| VerseView.CleanPaleoFacts | models.py:69-75 | no mark survives, nothing grows, and cleaning is idempotent |
| VerseView.UnmarkedTextKept | models.py:74-75 | unmarked text is unchanged |
| VerseView.MaqafJoinedWords | models.py:73-75 | a maqaf between two words disappears |
| VerseView.ToDict | models.py:68-91 | the Paleo text of the view is the cleaned Paleo text |
| VerseView.ToDictCopiesOtherFields | models.py:77-91 | every other column is copied verbatim, and a verse without marks is returned as it is |
| BulkImporter.Fresh | utils/bible_bulk_importer.py:49-58 | a new record is not started, has nothing completed or in progress, counts 39 books and 0 verses, and has no errors |
| BulkImporter.StartImport | utils/bible_bulk_importer.py:69-74 | the status becomes in progress with the start time set; the book lists, totals and errors are kept |
| BulkImporter.CompleteBook | utils/bible_bulk_importer.py:76-86 | the book is listed as completed, no longer in progress, and its verses are added; no other book's entries change |
| BulkImporter.StartBook | utils/bible_bulk_importer.py:88-95 | the book is entered with 0 verses; other entries are kept |
| BulkImporter.AddError | utils/bible_bulk_importer.py:97-104 | one error is appended, holding the given fields and a "timestamp" that overrides a field of that name |
| BulkImporter.CompleteImport | utils/bible_bulk_importer.py:106-111 | the status becomes completed and the completion time is set |
| BulkImporter.CompleteBookNoDuplicates | utils/bible_bulk_importer.py:79-80 | a completed book is added at most once, so the list stays free of repeats |
| BulkImporter.TransitionsKeepNoDuplicates | utils/bible_bulk_importer.py:69-111 | no transition introduces a repeated completed book |
| BulkImporter.RepeatedCompletionCountsTwice | utils/bible_bulk_importer.py:79-85 | completing a book twice lists it once but counts its verses twice |
| BulkImporter.StartThenComplete | utils/bible_bulk_importer.py:82-91 | a started and then completed book is no longer in progress |
| BulkImporter.AllBookNames | utils/bible_bulk_importer.py:116 | the set of the 39 canon names |
| BulkImporter.RemainingBooks | utils/bible_bulk_importer.py:113-117 | the remaining books are canon books |
| BulkImporter.RemainingPartitionsBooks | utils/bible_bulk_importer.py:113-117 | remaining and completed books are disjoint and together cover the canon |
| BulkImporter.CompleteBookShrinksRemaining | utils/bible_bulk_importer.py:113-117 | completing a book (`complete_book`) removes exactly that book from the remaining ones |
| BulkImporter.KeepRemaining | utils/bible_bulk_importer.py:329 | the comprehension keeps exactly the books whose names are remaining |
| BulkImporter.KeepRemainingOrdered | utils/bible_bulk_importer.py:329 | the comprehension keeps the books' relative order |
| BulkImporter.ResumeBooksAreRemaining | utils/bible_bulk_importer.py:326-329 | the books to resume are exactly the canon books not yet completed, in canonical order |
| BulkImporter.FreshResumesEverything | utils/bible_bulk_importer.py:326-329 | on a fresh record, where nothing is completed, the whole canon is resumed, in order |
| BulkImporter.VerseEnglish | utils/bible_bulk_importer.py:221-223 | an English chapter that is not a list gives "" |
| BulkImporter.ChapterVerses | utils/bible_bulk_importer.py:220-230 | one verse per Hebrew item, numbered from 1, with the English at the same place or "" |
| BulkImporter.ChapterEnglish | utils/bible_bulk_importer.py:217 | on a list, the chapter's English or `[]` past the end |
| BulkImporter.ChaptersWalk | utils/bible_bulk_importer.py:216-230 | later chapters give higher chapter numbers and positive verse numbers; a walk that does not fail has one verse per item of every chapter list; an English list never makes it fail |
| BulkImporter.ListChapter | utils/bible_bulk_importer.py:217 | the English chapter for index `c`: `en[c]`, or `[]` past the end |
| BulkImporter.WalkVersesFromPlaces | utils/bible_bulk_importer.py:216-230 | every verse returned is the item at its chapter and verse place, with the English read for that place |
| BulkImporter.WalkStep | utils/bible_bulk_importer.py:216-230 | one chapter's verses come before the later chapters' |
| BulkImporter.ChapterVerseIn | utils/bible_bulk_importer.py:220-230 | item `v` of a chapter is returned as verse `v + 1` with the English at `v` |
| BulkImporter.WalkCoversEveryVerse | utils/bible_bulk_importer.py:216-230 | with an English list, every item of every chapter list is returned with its chapter and verse number and the English at its place, or "" |
| BulkImporter.ProcessSefariaResponse | utils/bible_bulk_importer.py:203-235 | chapter and verse numbers start at 1; the content is stated by FlatListIsOneChapter and ChaptersAreFlattened |
| BulkImporter.ChaptersAreFlattened | utils/bible_bulk_importer.py:203-230 | a "he" list of chapters with a "text" list is flattened: every item of every chapter list comes back with its chapter and verse number and its English, nothing else does, and the count is the number of items |
| BulkImporter.EmptyHebrewGivesNothing | utils/bible_bulk_importer.py:207-235 | an empty "he" list raises on its first element internally, and nothing is returned |
| BulkImporter.FlatListIsOneChapter | utils/bible_bulk_importer.py:211-230 | a flat list of strings is chapter 1, verse k+1 being its k-th string with the English at the same place or "" |
| BulkImporter.WalkWithoutEnglish | utils/bible_bulk_importer.py:217-223 | with only empty English chapters the walk never fails and every English is "" |
| BulkImporter.MissingEnglishIsEmpty | utils/bible_bulk_importer.py:209-223 | a response without "text" gives "" as every verse's English |
| BulkImporter.WalkInReadingOrder | utils/bible_bulk_importer.py:216-230 | the walk lists verses in (chapter, verse) order |
| BulkImporter.ResponseInReadingOrder | utils/bible_bulk_importer.py:203-235 | `_process_sefaria_response` lists verses in reading order |
| RootAnalysis.CleanHebrewWord | create_comprehensive_dictionary.py:180-192 | no ensures of its own; its contract is in CleanHebrewWordFacts and CleanHebrewWordIdempotent |
| RootAnalysis.AnalyzeHebrewRoot | create_comprehensive_dictionary.py:194-257 | no ensures of its own; its contract is in AnalysisExistsIffHebrew, AnalysisOfLetters, PictographicSpelling and AnalysisIgnoresNonLetters |
| Transliterator.TransliterateWord | utils/bible_importer.py:118-142 | no ensures of its own; its contract is in TransliterateWordFacts, ForeignWordUnchanged, LastPieceIsSound and TwoLetterWord |
| Transliterator.RenderWord | utils/bible_importer.py:108-114 | no ensures of its own; its contract is in RenderWords and WordLookupNeverHits |
| BibleImporter.LiteralTranslation | utils/bible_importer.py:259-299 | no ensures of its own; its contract is in LiteralTranslationWords |
| NewTestament.StripTags | import_new_testament.py:17 | no ensures of its own; its contract is in StripTagsTagFree, TagDropped and TagFreeKept |
| PyStr.ReplaceAll | utils/bible_importer.py:102 | no ensures of its own; its contract is in ReplaceAbsent, ReplaceBySelf, VerseView.ReplaceDeletes and ReplacePass.ReplaceKillsPattern |
| PyStr.Occurs | utils/bible_importer.py:101 | the `in` test on strings, a predicate; its properties are in OccursTransitive and OccursInSuffix |
| AncientTts.Scan | utils/ancient_hebrew_tts.py:144-157 | no ensures of its own; its contract is in ScanWithoutRules, GreedyPairWins and SingleLookup |
| AncientTts.TtsRewrites | utils/ancient_hebrew_tts.py:215-217 | no ensures of its own; its contract is in NoKhAfterRewrites and TsRewriteIsNoOp |
| BulkImporter.ResumeBooks | utils/bible_bulk_importer.py:326-329 | no ensures of its own; its contract is in ResumeBooksAreRemaining and FreshResumesEverything |
| VerseView.StripMarks | models.py:73-75 | no ensures of its own; its contract is in StripMarksIsFilter |
| BibleBooks.TotalChapters | data/bible_books.py:411 | no ensures of its own; its value is stated by TotalIs929 |

## Left out

- Database, HTTP and file I/O: SQLAlchemy models and queries, Flask routes, Sefaria requests, rate limiting and JSON progress files. The model works on the values these read and write.
- Threads and locks (`ImportProgress._lock`, the background runner): every transition is modelled as one atomic step.
- Clocks: `datetime.now()` is a `now` parameter of each transition.
- `get_status` and its float `progress_percentage`: floating point is not modelled.
- `BulkImporter.RemainingBooks`: returns the set that `get_remaining_books` turns into a list. Python gives that list no defined order, so no order is modelled.
- `BulkImporter.AddError`: error fields are modelled as string values. Python allows any JSON value there.
- `BulkImporter.Progress`: a progress file read back from disk, which may hold any JSON, is not modelled. Only the record built by `_load_progress`'s default and the transitions is.
- `_get_books_to_import_ordered`, `_import_single_book` and `_import_verses_to_db`: sorting and database writes around the import.
- `AncientTts.Tables`: the tables of `utils/ancient_hebrew_tts.py` are parameters, because their keys are stored as mis-decoded UTF-8 (mojibake) in the file. Only the space key of the Paleo table is assumed where a lemma needs it.
- `PyStr.Lower`, `PyStr.Title`: case mapping and casedness cover ASCII letters only, and every other character counts as uncased and is left unchanged. Python's Unicode rules differ on non-ASCII letters. So `RootAnalysis.GenerateFormationExplanation` title-cases a meaning such as "naïve" differently: the model gives "NaïVe", where Python gives "Naïve", because ï is cased for Python and the v after it stays lower-case. Likewise `Strongs.PartOfSpeech` could classify a description differently when it holds a non-ASCII letter that Python lower-cases to an ASCII one, such as the Kelvin sign.
- `PyJson.Json`: null, booleans, integers, strings, lists and objects each have a constructor. JSON numbers with a fraction or exponent (Python floats) are not modelled, since no modelled code reads a number. An object with repeated keys is not modelled either, because `json.loads` keeps one member per key.
- `BibleImporter.CreateVerseData`, `BibleImporter.ProcessSefariaData`: build records with the corrected transliteration `Transliterator.CreatePaleoTransliterationFixed` (see Findings). `BibleImporter.CreateVerseDataAsWritten` is the record as the program builds it.
- `RootAnalysis.GenerateFormationExplanation`: the `hebrew_word` and `strong_number` parameters are never read by the code and are not modelled.
- `NewTestament.CleanText`, `NewTestament.GreekToTransliteration`: inputs are strings. `None`, like "", gives "" in the code, but `None` is not modelled.
- `NewTestament.ExpectedChapters`: `max_chapters` is an optional integer. Other truthy values Python would accept are not modelled.
- `import_nt_book_content`: only its chapter-count computation is modelled. The per-chapter fetching and inserting is I/O.
- `Strongs.ImportEntry`: dictionary values are strings. The skip of entries already in the database is a query, and `import_greek_entries` is not part of this model.
- `analyze_word_meaning` (utils/hebrew_converter.py) queries the database and is not part of this model.
- The `print` of TOTAL_CHAPTERS and the empty CHRISTIAN_ORDER_MAPPING in data/bible_books.py: output and an empty table.

## Findings

| source | as written | input that shows it | evidently intended | confidence | as-written member | corrected member |
|---|---|---|---|---|---|---|
| utils/bible_importer.py:105-116 | every rendered word is joined with `' '`, including the empty rendering of a word made only of alephs | "ב א" gives "b " (a trailing space); an aleph-only word in the middle gives two spaces | words joined by single spaces, with no separator for a word that renders as nothing | not executed | Transliterator.TrailingSpaceCounterexample | Transliterator.CreatePaleoTransliterationFixed |
