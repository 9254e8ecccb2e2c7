/** The Hebrew Strong's import (`import_complete_strongs_v2.py`): the
    keyword classifier for the part of speech and the way each imported
    field is defaulted and cut to its column width. */
module Strongs {
  import opened PyStr

  /** The ten labels `extract_part_of_speech` can return. */
  predicate IsLabel(r: string) {
    || r == "verb" || r == "noun" || r == "adjective" || r == "adverb"
    || r == "preposition" || r == "conjunction" || r == "interjection"
    || r == "pronoun" || r == "particle" || r == "unknown"
  }

  /** `extract_part_of_speech`: empty text is "unknown"; otherwise the
      lower-cased text is searched for the keywords branch by branch and the
      first branch with a hit decides. */
  function PartOfSpeech(derivation: string): (r: string)
    ensures IsLabel(r)
    ensures derivation == [] ==> r == "unknown"
  {
    if derivation == [] then "unknown"
    else
      var d := Lower(derivation);
      if Occurs(d, "verb") || Occurs(d, "root") then "verb"
      else if Occurs(d, "noun") || Occurs(d, "name") then "noun"
      else if Occurs(d, "adjective") then "adjective"
      else if Occurs(d, "adverb") then "adverb"
      else if Occurs(d, "preposition") then "preposition"
      else if Occurs(d, "conjunction") then "conjunction"
      else if Occurs(d, "interjection") then "interjection"
      else if Occurs(d, "pronoun") then "pronoun"
      else if Occurs(d, "particle") then "particle"
      else "unknown"
  }

  /** "verb" sits inside "adverb" at offset 2. */
  lemma VerbInAdverb()
    ensures Occurs("adverb", "verb")
  {
    assert OccursAt("adverb", "verb", 2);
  }

  /** "noun" sits inside "pronoun" at offset 3. */
  lemma NounInPronoun()
    ensures Occurs("pronoun", "noun")
  {
    assert OccursAt("pronoun", "noun", 3);
  }

  /** The "adverb" branch never fires: any text containing "adverb" already
      contains "verb", which an earlier branch tests. */
  lemma AdverbUnreachable(derivation: string)
    ensures PartOfSpeech(derivation) != "adverb"
  {
    if derivation != [] {
      var d := Lower(derivation);
      if Occurs(d, "adverb") {
        VerbInAdverb();
        OccursTransitive(d, "adverb", "verb");
      }
    }
  }

  /** The "pronoun" branch never fires: "pronoun" contains "noun". */
  lemma PronounUnreachable(derivation: string)
    ensures PartOfSpeech(derivation) != "pronoun"
  {
    if derivation != [] {
      var d := Lower(derivation);
      if Occurs(d, "pronoun") {
        NounInPronoun();
        OccursTransitive(d, "pronoun", "noun");
      }
    }
  }

  /** A verb keyword wins over a noun keyword in the same text. */
  lemma VerbBeatsNoun(derivation: string)
    requires Occurs(Lower(derivation), "verb") || Occurs(Lower(derivation), "root")
    ensures PartOfSpeech(derivation) == "verb"
  {
  }

  /** Only the case-folded text matters. */
  lemma CaseInsensitive(a: string, b: string)
    requires Lower(a) == Lower(b)
    ensures PartOfSpeech(a) == PartOfSpeech(b)
  {
    assert |a| == |Lower(a)| == |b|;
  }

  // ---------------------------------------------------------------------
  // The fields of one Hebrew entry
  // ---------------------------------------------------------------------

  /** One `StrongsHebrew` row as `import_hebrew_entries` builds it. */
  datatype Entry = Entry(
    strongNumber: string,
    hebrewWord: string,
    transliteration: string,
    pronunciation: string,
    shortDefinition: string,
    longDefinition: string,
    partOfSpeech: string)

  /** `d.get(key, default)` on the entry's string fields. */
  function GetOr(d: map<string, string>, key: string, default: string): (r: string)
    ensures key !in d ==> r == default
  {
    if key in d then d[key] else default
  }

  /** The slice `s[:n]`. */
  function Take(s: string, n: nat): (r: string)
    ensures |r| == if |s| <= n then |s| else n
    ensures r == s[..|r|]
  {
    if |s| <= n then s else s[..n]
  }

  /** The row built from one dictionary entry. */
  function ImportEntry(number: string, data: map<string, string>): (e: Entry)
    ensures e.strongNumber == number
    ensures |e.hebrewWord| <= 100 && |e.transliteration| <= 100 && |e.pronunciation| <= 100
    ensures |e.shortDefinition| <= 200 && |e.longDefinition| <= 1000
    ensures e.hebrewWord <= GetOr(data, "lemma", "")
    ensures e.shortDefinition <= GetOr(data, "strongs_def", "")
    ensures e.partOfSpeech == PartOfSpeech(GetOr(data, "derivation", ""))
  {
    var word := Take(GetOr(data, "lemma", ""), 100);
    var transliteration := Take(GetOr(data, "xlit", GetOr(data, "translit", "")), 100);
    var pronunciation := Take(GetOr(data, "pron", transliteration), 100);
    var shortDef := Take(GetOr(data, "strongs_def", ""), 200);
    var longDef := Take(GetOr(data, "kjv_def", shortDef), 1000);
    var derivation := GetOr(data, "derivation", "");
    Entry(number, word, transliteration, pronunciation, shortDef, longDef,
          PartOfSpeech(derivation))
  }

  /** Each field is the stored value cut to its width when the key is
      present. Otherwise the fallbacks apply: "" for the lemma and the short
      definition; "translit" (else "") for the transliteration; the already cut
      transliteration for the pronunciation; and the already cut short
      definition for the long definition. */
  lemma Fallbacks(number: string, data: map<string, string>)
    ensures "lemma" in data ==> ImportEntry(number, data).hebrewWord == Take(data["lemma"], 100)
    ensures "lemma" !in data ==> ImportEntry(number, data).hebrewWord == ""
    ensures "xlit" in data ==> ImportEntry(number, data).transliteration == Take(data["xlit"], 100)
    ensures "xlit" !in data && "translit" in data ==>
              ImportEntry(number, data).transliteration == Take(data["translit"], 100)
    ensures "pron" in data ==> ImportEntry(number, data).pronunciation == Take(data["pron"], 100)
    ensures "pron" !in data ==> ImportEntry(number, data).pronunciation == ImportEntry(number, data).transliteration
    ensures "strongs_def" in data ==> ImportEntry(number, data).shortDefinition == Take(data["strongs_def"], 200)
    ensures "strongs_def" !in data ==> ImportEntry(number, data).shortDefinition == ""
    ensures "kjv_def" in data ==> ImportEntry(number, data).longDefinition == Take(data["kjv_def"], 1000)
    ensures "kjv_def" !in data ==> ImportEntry(number, data).longDefinition == ImportEntry(number, data).shortDefinition
    ensures "xlit" !in data && "translit" !in data && "pron" !in data ==>
              ImportEntry(number, data).pronunciation == ""
  {
  }

  /** "xlit" is preferred to "translit"; the latter is read only when the
      former is missing. */
  lemma XlitPreferred(number: string, data: map<string, string>)
    requires "xlit" in data && |data["xlit"]| <= 100
    ensures ImportEntry(number, data).transliteration == data["xlit"]
  {
  }

  /** Fields within their widths are stored as given. */
  lemma ShortFieldsKept(number: string, data: map<string, string>)
    requires "lemma" in data && |data["lemma"]| <= 100
    requires "strongs_def" in data && |data["strongs_def"]| <= 200
    requires "kjv_def" in data && |data["kjv_def"]| <= 1000
    ensures ImportEntry(number, data).hebrewWord == data["lemma"]
    ensures ImportEntry(number, data).shortDefinition == data["strongs_def"]
    ensures ImportEntry(number, data).longDefinition == data["kjv_def"]
  {
  }

  /** An over-long field keeps exactly its first characters up to the width. */
  lemma LongLemmaCut(number: string, data: map<string, string>)
    requires "lemma" in data && |data["lemma"]| > 100
    ensures ImportEntry(number, data).hebrewWord == data["lemma"][..100]
  {
  }
}
