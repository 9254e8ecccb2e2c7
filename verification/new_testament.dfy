/** The text side of the New Testament importer (`import_new_testament.py`):
    tag and asterisk removal, the letter-by-letter Greek transliteration, the
    book-name table for the Sefaria API and the number of chapters fetched
    per book. */
module NewTestament {
  import opened PyStr

  // ---------------------------------------------------------------------
  // clean_text: re.sub(r'<[^>]+>', '', text), then drop '*', then strip()
  // ---------------------------------------------------------------------

  /** No '>' at or after position `k`. */
  predicate GtFree(s: string, k: nat) {
    forall j :: k <= j < |s| ==> s[j] != '>'
  }

  /** The position of the first '>' at or after `k`, or `|s|` if none. */
  function FirstGtFrom(s: string, k: nat): (r: nat)
    requires k <= |s|
    ensures k <= r <= |s|
    ensures r < |s| ==> s[r] == '>'
    ensures forall j :: k <= j < r ==> s[j] != '>'
    decreases |s| - k
  {
    if k == |s| || s[k] == '>' then k else FirstGtFrom(s, k + 1)
  }

  /** The pattern `<[^>]+>` matches at the start of `s`: a '<', at least
      one character other than '>', then a '>'. */
  predicate TagAt(s: string) {
    |s| >= 2 && s[0] == '<' && s[1] != '>' && FirstGtFrom(s, 1) < |s|
  }

  /** `re.sub(r'<[^>]+>', '', s)`: scanning left to right, each match is
      cut out up to and including the first '>' after it; a '<' with no
      match is kept. */
  function StripTags(s: string): string
    decreases |s|
  {
    if s == [] then []
    else if TagAt(s) then StripTags(s[FirstGtFrom(s, 1) + 1..])
    else [s[0]] + StripTags(s[1..])
  }

  /** The '<' at `i` starts no match: it is followed directly by '>' or no
      '>' comes after it at all. */
  predicate OpenIsHarmless(s: string, i: nat)
    requires i < |s|
  {
    (i + 1 < |s| && s[i + 1] == '>') || GtFree(s, i + 1)
  }

  /** Text in which `<[^>]+>` matches nowhere. */
  predicate TagFree(s: string) {
    forall i :: 0 <= i < |s| && s[i] == '<' ==> OpenIsHarmless(s, i)
  }

  predicate NotStar(c: char) {
    c != '*'
  }

  /** The match test at the head of the text, restated without the search. */
  lemma TagAtHead(s: string)
    requires s != [] && s[0] == '<'
    ensures TagAt(s) <==> !OpenIsHarmless(s, 0)
  {
    if |s| >= 2 {
      var g := FirstGtFrom(s, 1);
      assert g < |s| <==> !GtFree(s, 1);
    }
  }

  /** A match swallows '<', a nonempty run without '>', and the '>'. */
  lemma {:induction false} TagDropped(t: string, rest: string)
    requires t != [] && GtFree(t, 0)
    ensures StripTags("<" + t + ">" + rest) == StripTags(rest)
  {
    var s := "<" + t + ">" + rest;
    assert s[1] == t[0];
    assert s[|t| + 1] == '>';
    assert forall j :: 1 <= j < |t| + 1 ==> s[j] == t[j - 1];
    assert FirstGtFrom(s, 1) == |t| + 1;
    assert s[|t| + 2..] == rest;
  }

  /** Text without '>' has nothing to remove. */
  lemma {:induction false} GtFreeKept(s: string)
    requires GtFree(s, 0)
    ensures StripTags(s) == s
    decreases |s|
  {
    if s != [] {
      assert !TagAt(s) by {
        if |s| >= 2 {
          var g := FirstGtFrom(s, 1);
          assert g == |s|;
        }
      }
      GtFreeKept(s[1..]);
    }
  }

  /** Tag-free text is left unchanged. */
  lemma {:induction false} TagFreeKept(s: string)
    requires TagFree(s)
    ensures StripTags(s) == s
    decreases |s|
  {
    if s != [] {
      if s[0] == '<' {
        TagAtHead(s);
      }
      TagFreeSlice(s, 1, |s|);
      assert s[1..|s|] == s[1..];
      TagFreeKept(s[1..]);
    }
  }

  /** Any contiguous piece of tag-free text is tag-free. */
  lemma TagFreeSlice(s: string, a: nat, b: nat)
    requires TagFree(s) && a <= b <= |s|
    ensures TagFree(s[a..b])
  {
    var t := s[a..b];
    forall i | 0 <= i < |t| && t[i] == '<'
      ensures OpenIsHarmless(t, i)
    {
      assert s[a + i] == '<';
      assert OpenIsHarmless(s, a + i);
      if a + i + 1 < b && s[a + i + 1] == '>' {
        assert t[i + 1] == '>';
      } else if a + i + 1 < b {
        assert GtFree(s, a + i + 1);
        assert forall j :: i + 1 <= j < |t| ==> t[j] == s[a + j];
      }
    }
  }

  /** A result that begins with '>' comes from text that begins with '>'. */
  lemma StripTagsKeepsHeadGt(s: string)
    requires s != [] && s[0] == '>'
    ensures StripTags(s) != [] && StripTags(s)[0] == '>'
  {
  }

  /** No match survives the removal: the result is tag-free. */
  lemma {:induction false} StripTagsTagFree(s: string)
    ensures TagFree(StripTags(s))
    decreases |s|
  {
    if s == [] {
    } else if TagAt(s) {
      StripTagsTagFree(s[FirstGtFrom(s, 1) + 1..]);
    } else {
      var rest := StripTags(s[1..]);
      var out := [s[0]] + rest;
      StripTagsTagFree(s[1..]);
      assert StripTags(s) == out;
      forall i | 0 <= i < |out| && out[i] == '<'
        ensures OpenIsHarmless(out, i)
      {
        if i == 0 {
          TagAtHead(s);
          if |s| >= 2 && s[1] == '>' {
            StripTagsKeepsHeadGt(s[1..]);
            assert out[1] == '>';
          } else {
            assert GtFree(s[1..], 0);
            GtFreeKept(s[1..]);
            assert out == s;
          }
        } else {
          assert rest[i - 1] == '<';
          assert OpenIsHarmless(rest, i - 1);
          if i < |rest| && rest[i] == '>' {
            assert out[i + 1] == '>';
          } else {
            assert forall j :: i <= j < |rest| ==> out[j + 1] == rest[j];
          }
        }
      }
    }
  }

  /** Filtering keeps '>' out of text that has none. */
  lemma FilterGtFree(s: string, keep: char -> bool)
    requires GtFree(s, 0)
    ensures GtFree(Filter(s, keep), 0)
    decreases |s|
  {
    if s != [] {
      FilterGtFree(s[1..], keep);
    }
  }

  /** Removing characters other than '>' cannot create a match. */
  lemma {:induction false} TagFreeFilter(s: string, keep: char -> bool)
    requires TagFree(s) && keep('>')
    ensures TagFree(Filter(s, keep))
    decreases |s|
  {
    if s != [] {
      var tail := Filter(s[1..], keep);
      TagFreeSlice(s, 1, |s|);
      assert s[1..|s|] == s[1..];
      TagFreeFilter(s[1..], keep);
      if keep(s[0]) {
        var out := [s[0]] + tail;
        assert Filter(s, keep) == out;
        forall i | 0 <= i < |out| && out[i] == '<'
          ensures OpenIsHarmless(out, i)
        {
          if i == 0 {
            assert OpenIsHarmless(s, 0);
            if |s| >= 2 && s[1] == '>' {
              assert s[1..][0] == '>';
              assert tail != [] && tail[0] == '>';
              assert out[1] == '>';
            } else {
              assert GtFree(s[1..], 0);
              FilterGtFree(s[1..], keep);
              assert forall j :: 1 <= j < |out| ==> out[j] == tail[j - 1];
            }
          } else {
            assert tail[i - 1] == '<';
            assert OpenIsHarmless(tail, i - 1);
            if i < |tail| && tail[i] == '>' {
              assert out[i + 1] == '>';
            } else {
              assert forall j :: i <= j < |tail| ==> out[j + 1] == tail[j];
            }
          }
        }
      } else {
        assert Filter(s, keep) == tail;
      }
    }
  }

  /** `strip()` cuts out a contiguous piece, so it keeps text tag-free and
      free of any character the input lacks. */
  lemma StripKeepsClean(u: string)
    requires TagFree(u)
    requires forall i :: 0 <= i < |u| ==> NotStar(u[i])
    ensures TagFree(Strip(u))
    ensures forall i :: 0 <= i < |Strip(u)| ==> NotStar(Strip(u)[i])
  {
    var d := StripStart(u);
    TagFreeSlice(u, d, d + |Strip(u)|);
    forall i | 0 <= i < |Strip(u)|
      ensures NotStar(Strip(u)[i])
    {
      StripChar(u, i);
    }
  }

  /** `clean_text`: the result carries no markup match, no '*' and no
      surrounding whitespace; empty input gives "". */
  function CleanText(s: string): (r: string)
    ensures Stripped(r)
    ensures TagFree(r)
    ensures forall i :: 0 <= i < |r| ==> r[i] != '*'
    ensures s == [] ==> r == []
  {
    if s == [] then []
    else
      var u := Filter(StripTags(s), NotStar);
      StripTagsTagFree(s);
      TagFreeFilter(StripTags(s), NotStar);
      StripKeepsClean(u);
      Strip(u)
  }

  /** Cleaning twice is cleaning once. */
  lemma CleanTextIdempotent(s: string)
    ensures CleanText(CleanText(s)) == CleanText(s)
  {
    var y := CleanText(s);
    if y != [] {
      TagFreeKept(y);
      FilterKeepsAll(y, NotStar);
      StripOfStripped(y);
    }
  }

  /** Text without '<' or '*' is only stripped. */
  lemma PlainTextOnlyStripped(s: string)
    requires forall i :: 0 <= i < |s| ==> s[i] != '<' && s[i] != '*'
    ensures CleanText(s) == Strip(s)
  {
    if s != [] {
      TagFreeKept(s);
      FilterKeepsAll(s, NotStar);
    }
  }

  /** A tag wrapped around a word disappears with it. */
  lemma {:induction false} WrappedWordUnwrapped(tag: string, w: string)
    requires tag != [] && GtFree(tag, 0)
    requires w != [] && GtFree(w, 0)
    requires forall i :: 0 <= i < |w| ==> w[i] != '<' && w[i] != '*'
    requires Stripped(w)
    ensures CleanText("<" + tag + ">" + w) == w
  {
    TagDropped(tag, w);
    GtFreeKept(w);
    FilterKeepsAll(w, NotStar);
    StripOfStripped(w);
  }

  // ---------------------------------------------------------------------
  // greek_to_transliteration
  // ---------------------------------------------------------------------

  /** The keys of the transliteration table: the whole lower-case Greek
      block (final sigma included) and the upper-case block without its
      unassigned code point U+03A2. */
  predicate IsGreekKey(c: char) {
    ('α' <= c <= 'ω') || ('Α' <= c <= 'Ω' && c != '\U{03A2}')
  }

  /** The Latin spelling the table gives each Greek letter. */
  function GreekLatin(c: char): string
    requires IsGreekKey(c)
  {
    match c
    case 'α' => "a"
    case 'β' => "b"
    case 'γ' => "g"
    case 'δ' => "d"
    case 'ε' => "e"
    case 'ζ' => "z"
    case 'η' => "e"
    case 'θ' => "th"
    case 'ι' => "i"
    case 'κ' => "k"
    case 'λ' => "l"
    case 'μ' => "m"
    case 'ν' => "n"
    case 'ξ' => "x"
    case 'ο' => "o"
    case 'π' => "p"
    case 'ρ' => "r"
    case 'ς' => "s"
    case 'σ' => "s"
    case 'τ' => "t"
    case 'υ' => "u"
    case 'φ' => "ph"
    case 'χ' => "ch"
    case 'ψ' => "ps"
    case 'ω' => "o"
    case 'Α' => "A"
    case 'Β' => "B"
    case 'Γ' => "G"
    case 'Δ' => "D"
    case 'Ε' => "E"
    case 'Ζ' => "Z"
    case 'Η' => "E"
    case 'Θ' => "Th"
    case 'Ι' => "I"
    case 'Κ' => "K"
    case 'Λ' => "L"
    case 'Μ' => "M"
    case 'Ν' => "N"
    case 'Ξ' => "X"
    case 'Ο' => "O"
    case 'Π' => "P"
    case 'Ρ' => "R"
    case 'Σ' => "S"
    case 'Τ' => "T"
    case 'Υ' => "U"
    case 'Φ' => "Ph"
    case 'Χ' => "Ch"
    case 'Ψ' => "Ps"
    case _ => "O"  // Ω
  }

  /** `transliteration_map` */
  const TransliterationMap: map<char, string> := map c | IsGreekKey(c) :: GreekLatin(c)

  predicate IsAsciiLetter(c: char) {
    ('a' <= c <= 'z') || ('A' <= c <= 'Z')
  }

  /** Every table value is one or two ASCII letters. */
  lemma LatinShape(c: char)
    requires IsGreekKey(c)
    ensures 1 <= |GreekLatin(c)| <= 2
    ensures forall i :: 0 <= i < |GreekLatin(c)| ==> IsAsciiLetter(GreekLatin(c)[i])
  {
  }

  /** `greek_to_transliteration`: each character replaced by its table
      value, characters outside the table kept. */
  function GreekToTransliteration(s: string): (r: string)
    ensures s == [] ==> r == []
  {
    if s == [] then "" else CharMap(TransliterationMap, s)
  }

  /** Each input character becomes one or two output characters, none of
      which is a Greek letter of the table. */
  lemma {:induction false} CharMapGreekShape(s: string)
    ensures |s| <= |CharMap(TransliterationMap, s)| <= 2 * |s|
    ensures forall i :: 0 <= i < |CharMap(TransliterationMap, s)| ==>
              !IsGreekKey(CharMap(TransliterationMap, s)[i])
    decreases |s|
  {
    if s != [] {
      var head := SoundOr(TransliterationMap, s[0]);
      var tail := CharMap(TransliterationMap, s[1..]);
      CharMapGreekShape(s[1..]);
      if IsGreekKey(s[0]) {
        LatinShape(s[0]);
        assert head == GreekLatin(s[0]);
      } else {
        assert head == [s[0]];
      }
      assert CharMap(TransliterationMap, s) == head + tail;
    }
  }

  /** The transliteration lengthens text by at most a factor of two and
      leaves no Greek letter of the table behind. */
  lemma TransliterationShape(s: string)
    ensures |s| <= |GreekToTransliteration(s)| <= 2 * |s|
    ensures forall i :: 0 <= i < |GreekToTransliteration(s)| ==>
              !IsGreekKey(GreekToTransliteration(s)[i])
  {
    CharMapGreekShape(s);
  }

  /** Text without Greek letters comes through unchanged. */
  lemma NonGreekUnchanged(s: string)
    requires forall i :: 0 <= i < |s| ==> !IsGreekKey(s[i])
    ensures GreekToTransliteration(s) == s
  {
    if s != [] {
      CharMapUnmapped(TransliterationMap, s);
    }
  }

  /** Transliterating again changes nothing. */
  lemma TransliterationIdempotent(s: string)
    ensures GreekToTransliteration(GreekToTransliteration(s)) == GreekToTransliteration(s)
  {
    TransliterationShape(s);
    NonGreekUnchanged(GreekToTransliteration(s));
  }

  /** Words transliterate one after another. */
  lemma TransliterationAppend(a: string, b: string)
    ensures GreekToTransliteration(a + b) == GreekToTransliteration(a) + GreekToTransliteration(b)
  {
    if a == [] {
      assert a + b == b;
    } else if b == [] {
      assert a + b == a;
    } else {
      CharMapAppend(TransliterationMap, a, b);
    }
  }

  /** Both sigmas give "s"; eta and omega lose their length. */
  lemma MergedLetters()
    ensures GreekToTransliteration("σ") == GreekToTransliteration("ς") == "s"
    ensures GreekToTransliteration("η") == GreekToTransliteration("ε") == "e"
    ensures GreekToTransliteration("ω") == GreekToTransliteration("ο") == "o"
  {
    assert "σ" == ['σ'];
  }

  // ---------------------------------------------------------------------
  // The book tables
  // ---------------------------------------------------------------------

  const BookCount: nat := 27

  /** The 27 books in canonical order; `get_nt_chapter_counts` and
      `get_sefaria_nt_name` list the same names in this order (split in
      three to keep each lookup small). */
  function BookName(k: nat): string
    requires k < BookCount
  {
    if k < 9 then BookNameFrom0(k) else if k < 18 then BookNameFrom9(k) else BookNameFrom18(k)
  }

  function BookNameFrom0(k: nat): string
    requires 0 <= k < 9
  {
    match k
    case 0 => "Matthew"
    case 1 => "Mark"
    case 2 => "Luke"
    case 3 => "John"
    case 4 => "Acts"
    case 5 => "Romans"
    case 6 => "1 Corinthians"
    case 7 => "2 Corinthians"
    case _ => "Galatians"
  }

  function BookNameFrom9(k: nat): string
    requires 9 <= k < 18
  {
    match k
    case 9 => "Ephesians"
    case 10 => "Philippians"
    case 11 => "Colossians"
    case 12 => "1 Thessalonians"
    case 13 => "2 Thessalonians"
    case 14 => "1 Timothy"
    case 15 => "2 Timothy"
    case 16 => "Titus"
    case _ => "Philemon"
  }

  function BookNameFrom18(k: nat): string
    requires 18 <= k < 27
  {
    match k
    case 18 => "Hebrews"
    case 19 => "James"
    case 20 => "1 Peter"
    case 21 => "2 Peter"
    case 22 => "1 John"
    case 23 => "2 John"
    case 24 => "3 John"
    case 25 => "Jude"
    case _ => "Revelation"
  }

  /** The value `sefaria_names` gives each book. */
  function SefariaSpelling(k: nat): string
    requires k < BookCount
  {
    if k < 9 then SefariaSpellingFrom0(k) else if k < 18 then SefariaSpellingFrom9(k) else SefariaSpellingFrom18(k)
  }

  function SefariaSpellingFrom0(k: nat): string
    requires 0 <= k < 9
  {
    match k
    case 0 => "Matthew"
    case 1 => "Mark"
    case 2 => "Luke"
    case 3 => "John"
    case 4 => "Acts"
    case 5 => "Romans"
    case 6 => "I Corinthians"
    case 7 => "II Corinthians"
    case _ => "Galatians"
  }

  function SefariaSpellingFrom9(k: nat): string
    requires 9 <= k < 18
  {
    match k
    case 9 => "Ephesians"
    case 10 => "Philippians"
    case 11 => "Colossians"
    case 12 => "I Thessalonians"
    case 13 => "II Thessalonians"
    case 14 => "I Timothy"
    case 15 => "II Timothy"
    case 16 => "Titus"
    case _ => "Philemon"
  }

  function SefariaSpellingFrom18(k: nat): string
    requires 18 <= k < 27
  {
    match k
    case 18 => "Hebrews"
    case 19 => "James"
    case 20 => "I Peter"
    case 21 => "II Peter"
    case 22 => "I John"
    case 23 => "II John"
    case 24 => "III John"
    case 25 => "Jude"
    case _ => "Revelation"
  }

  /** The value `get_nt_chapter_counts` gives each book. */
  function ChapterCount(k: nat): nat
    requires k < BookCount
  {
    if k < 9 then ChapterCountFrom0(k) else if k < 18 then ChapterCountFrom9(k) else ChapterCountFrom18(k)
  }

  function ChapterCountFrom0(k: nat): nat
    requires 0 <= k < 9
  {
    match k
    case 0 => 28
    case 1 => 16
    case 2 => 24
    case 3 => 21
    case 4 => 28
    case 5 => 16
    case 6 => 16
    case 7 => 13
    case _ => 6
  }

  function ChapterCountFrom9(k: nat): nat
    requires 9 <= k < 18
  {
    match k
    case 9 => 6
    case 10 => 4
    case 11 => 4
    case 12 => 5
    case 13 => 3
    case 14 => 6
    case 15 => 4
    case 16 => 3
    case _ => 1
  }

  function ChapterCountFrom18(k: nat): nat
    requires 18 <= k < 27
  {
    match k
    case 18 => 13
    case 19 => 5
    case 20 => 5
    case 21 => 3
    case 22 => 5
    case 23 => 1
    case 24 => 1
    case 25 => 1
    case _ => 22
  }

  /** `get_sefaria_nt_name`: `sefaria_names.get(book_name, book_name)`. */
  function SefariaNtName(name: string): (r: string)
    ensures (forall k :: 0 <= k < BookCount ==> BookName(k) != name) ==> r == name
    ensures (exists k :: 0 <= k < BookCount && BookName(k) == name) ==>
              exists k :: 0 <= k < BookCount && BookName(k) == name && r == SefariaSpelling(k)
  {
    match FirstBookFrom(name, 0)
    case Some(k) => SefariaSpelling(k)
    case None => name
  }

  /** The first book index at or after `i` with this name. */
  function FirstBookFrom(name: string, i: nat): (r: Option<nat>)
    requires i <= BookCount
    ensures r.None? <==> forall k :: i <= k < BookCount ==> BookName(k) != name
    ensures r.Some? ==> i <= r.value < BookCount && BookName(r.value) == name
    ensures r.Some? ==> forall k :: i <= k < r.value ==> BookName(k) != name
    decreases BookCount - i
  {
    if i == BookCount then None
    else if BookName(i) == name then Some(i)
    else FirstBookFrom(name, i + 1)
  }

  /** The Roman numeral Sefaria writes for a leading book number. */
  function Numeral(d: char): string {
    if d == '1' then "I" else if d == '2' then "II" else "III"
  }

  /** The naming rule the Sefaria table follows: a leading "1 ", "2 " or
      "3 " becomes "I ", "II " or "III "; every other name is kept. */
  function RomanForm(name: string): string {
    if |name| >= 2 && name[1] == ' ' && '1' <= name[0] <= '3'
    then Numeral(name[0]) + name[1..]
    else name
  }

  lemma RomanSpelling0(k: nat)
    requires 0 <= k < 3
    ensures SefariaSpelling(k) == RomanForm(BookName(k))
  {
    if k == 0 {
      assert SefariaSpelling(0) == RomanForm(BookName(0));
    } else if k == 1 {
      assert SefariaSpelling(1) == RomanForm(BookName(1));
    } else {
      assert SefariaSpelling(2) == RomanForm(BookName(2));
    }
  }

  lemma RomanSpelling3(k: nat)
    requires 3 <= k < 6
    ensures SefariaSpelling(k) == RomanForm(BookName(k))
  {
    if k == 3 {
      assert SefariaSpelling(3) == RomanForm(BookName(3));
    } else if k == 4 {
      assert SefariaSpelling(4) == RomanForm(BookName(4));
    } else {
      assert SefariaSpelling(5) == RomanForm(BookName(5));
    }
  }

  lemma RomanSpelling6(k: nat)
    requires k == 6
    ensures SefariaSpelling(k) == RomanForm(BookName(k))
  {
    assert SefariaSpelling(6) == RomanForm(BookName(6));
  }

  lemma RomanSpelling7(k: nat)
    requires 7 <= k < 9
    ensures SefariaSpelling(k) == RomanForm(BookName(k))
  {
    if k == 7 {
      assert SefariaSpelling(7) == RomanForm(BookName(7));
    } else {
      assert SefariaSpelling(8) == RomanForm(BookName(8));
    }
  }

  lemma RomanSpelling9(k: nat)
    requires 9 <= k < 12
    ensures SefariaSpelling(k) == RomanForm(BookName(k))
  {
    if k == 9 {
      assert SefariaSpelling(9) == RomanForm(BookName(9));
    } else if k == 10 {
      assert SefariaSpelling(10) == RomanForm(BookName(10));
    } else {
      assert SefariaSpelling(11) == RomanForm(BookName(11));
    }
  }

  lemma RomanSpelling12(k: nat)
    requires k == 12
    ensures SefariaSpelling(k) == RomanForm(BookName(k))
  {
    assert SefariaSpelling(12) == RomanForm(BookName(12));
  }

  lemma RomanSpelling13(k: nat)
    requires k == 13
    ensures SefariaSpelling(k) == RomanForm(BookName(k))
  {
    assert SefariaSpelling(13) == RomanForm(BookName(13));
  }

  lemma RomanSpelling14(k: nat)
    requires k == 14
    ensures SefariaSpelling(k) == RomanForm(BookName(k))
  {
    assert SefariaSpelling(14) == RomanForm(BookName(14));
  }

  lemma RomanSpelling15(k: nat)
    requires 15 <= k < 17
    ensures SefariaSpelling(k) == RomanForm(BookName(k))
  {
    if k == 15 {
      assert SefariaSpelling(15) == RomanForm(BookName(15));
    } else {
      assert SefariaSpelling(16) == RomanForm(BookName(16));
    }
  }

  lemma RomanSpelling17(k: nat)
    requires 17 <= k < 20
    ensures SefariaSpelling(k) == RomanForm(BookName(k))
  {
    if k == 17 {
      assert SefariaSpelling(17) == RomanForm(BookName(17));
    } else if k == 18 {
      assert SefariaSpelling(18) == RomanForm(BookName(18));
    } else {
      assert SefariaSpelling(19) == RomanForm(BookName(19));
    }
  }

  lemma RomanSpelling20(k: nat)
    requires k == 20
    ensures SefariaSpelling(k) == RomanForm(BookName(k))
  {
    assert SefariaSpelling(20) == RomanForm(BookName(20));
  }

  lemma RomanSpelling21(k: nat)
    requires k == 21
    ensures SefariaSpelling(k) == RomanForm(BookName(k))
  {
    assert SefariaSpelling(21) == RomanForm(BookName(21));
  }

  lemma RomanSpelling22(k: nat)
    requires k == 22
    ensures SefariaSpelling(k) == RomanForm(BookName(k))
  {
    assert SefariaSpelling(22) == RomanForm(BookName(22));
  }

  lemma RomanSpelling23(k: nat)
    requires k == 23
    ensures SefariaSpelling(k) == RomanForm(BookName(k))
  {
    assert SefariaSpelling(23) == RomanForm(BookName(23));
  }

  lemma RomanSpelling24(k: nat)
    requires 24 <= k < BookCount
    ensures SefariaSpelling(k) == RomanForm(BookName(k))
  {
    if k == 24 {
      assert SefariaSpelling(24) == RomanForm(BookName(24));
    } else if k == 25 {
      assert SefariaSpelling(25) == RomanForm(BookName(25));
    } else {
      assert SefariaSpelling(26) == RomanForm(BookName(26));
    }
  }

  /** Every entry of the table follows the Roman-numeral rule. */
  lemma SpellingIsRoman(k: nat)
    requires k < BookCount
    ensures SefariaSpelling(k) == RomanForm(BookName(k))
  {
    if k < 3 {
      RomanSpelling0(k);
    } else if k < 6 {
      RomanSpelling3(k);
    } else if k < 7 {
      RomanSpelling6(k);
    } else if k < 9 {
      RomanSpelling7(k);
    } else if k < 12 {
      RomanSpelling9(k);
    } else if k < 13 {
      RomanSpelling12(k);
    } else if k < 14 {
      RomanSpelling13(k);
    } else if k < 15 {
      RomanSpelling14(k);
    } else if k < 17 {
      RomanSpelling15(k);
    } else if k < 20 {
      RomanSpelling17(k);
    } else if k < 21 {
      RomanSpelling20(k);
    } else if k < 22 {
      RomanSpelling21(k);
    } else if k < 23 {
      RomanSpelling22(k);
    } else if k < 24 {
      RomanSpelling23(k);
    } else {
      RomanSpelling24(k);
    }
  }

  /** A New Testament book name is looked up by the Roman-numeral rule;
      any other name is sent unchanged. */
  lemma SefariaNameRule(name: string)
    ensures (exists k :: 0 <= k < BookCount && BookName(k) == name) ==>
              SefariaNtName(name) == RomanForm(name)
    ensures (forall k :: 0 <= k < BookCount ==> BookName(k) != name) ==>
              SefariaNtName(name) == name
  {
    var found := FirstBookFrom(name, 0);
    if found.Some? {
      SpellingIsRoman(found.value);
    }
  }

  /** "1 Corinthians" is fetched as "I Corinthians". */
  lemma FirstCorinthians()
    ensures SefariaNtName("1 Corinthians") == "I Corinthians"
  {
    assert BookName(6) == "1 Corinthians";
    assert SefariaSpelling(6) == "I Corinthians";
  }

  // ---------------------------------------------------------------------
  // Chapters fetched per book
  // ---------------------------------------------------------------------

  /** `get_nt_chapter_counts().get(book_name, 1)` */
  function BookChapters(name: string): (r: nat)
    ensures (forall k :: 0 <= k < BookCount ==> BookName(k) != name) ==> r == 1
    ensures (exists k :: 0 <= k < BookCount && BookName(k) == name) ==>
              exists k :: 0 <= k < BookCount && BookName(k) == name && r == ChapterCount(k)
  {
    match FirstBookFrom(name, 0)
    case Some(k) => ChapterCount(k)
    case None => 1
  }

  /** The number of chapters `import_nt_book_content` walks: the table's
      count, cut down to `max_chapters` when that is given and nonzero.
      `None` is Python's `None`. */
  function ExpectedChapters(name: string, maxChapters: Option<int>): (r: int)
    ensures r <= BookChapters(name)
    ensures maxChapters.None? || maxChapters.value == 0 ==> r == BookChapters(name)
    ensures maxChapters.Some? && maxChapters.value != 0 ==>
              r <= maxChapters.value && (r == BookChapters(name) || r == maxChapters.value)
  {
    var expected := BookChapters(name);
    if maxChapters.Some? && maxChapters.value != 0 then
      (if maxChapters.value < expected then maxChapters.value else expected)
    else expected
  }

  /** `range(1, expected_chapters + 1)` */
  function ChapterNumbers(name: string, maxChapters: Option<int>): (cs: seq<int>)
    ensures |cs| == if ExpectedChapters(name, maxChapters) > 0 then ExpectedChapters(name, maxChapters) else 0
    ensures forall i :: 0 <= i < |cs| ==> cs[i] == i + 1
  {
    var n := ExpectedChapters(name, maxChapters);
    seq(if n > 0 then n else 0, i => i + 1)
  }

  /** Every book of the table has at least one chapter. */
  lemma ChapterCountsPositive(k: nat)
    requires k < BookCount
    ensures ChapterCount(k) >= 1
  {
  }

  /** Without a cap, or with a positive one, every chapter fetched lies
      within the book and at least chapter 1 is fetched; a negative cap
      fetches nothing. */
  lemma ChaptersWithinBook(name: string, maxChapters: Option<int>)
    ensures maxChapters.None? || maxChapters.value >= 0 ==>
              |ChapterNumbers(name, maxChapters)| >= 1
    ensures maxChapters.Some? && maxChapters.value < 0 ==>
              ChapterNumbers(name, maxChapters) == []
    ensures forall i :: 0 <= i < |ChapterNumbers(name, maxChapters)| ==>
              1 <= ChapterNumbers(name, maxChapters)[i] <= BookChapters(name)
  {
    var found := FirstBookFrom(name, 0);
    if found.Some? {
      ChapterCountsPositive(found.value);
    }
  }
}
