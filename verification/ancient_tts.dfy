/** The ancient-Hebrew text-to-speech pipeline (`utils/ancient_hebrew_tts.py`):
    a per-character Paleo rendering or a greedy two-character scan of Hebrew
    text, a single-pass whitespace clean-up, the ordered vowel-pattern pass,
    and the rewrites that make the result friendlier to a speech engine.

    The lookup tables are parameters: `Tables` carries them, and only the
    facts the code relies on (the space is a Paleo key) are assumed of them. */
module AncientTts {
  import opened PyStr
  import opened ReplacePass

  /** ANCIENT_HEBREW_SOUNDS, PALEO_TO_ANCIENT_SOUNDS, PRONUNCIATION_RULES, the
      `patterns` of `add_ancient_vowels` in dict order, and SAMPLE_WORDS. */
  datatype Tables = Tables(
    hebrewSounds: map<char, string>,
    paleoSounds: map<char, string>,
    rules: map<string, string>,
    vowelPatterns: Table,
    sampleWords: map<string, string>)

  /** `any(char in PALEO_TO_ANCIENT_SOUNDS for char in text)` */
  predicate IsPaleoText(t: Tables, text: string) {
    exists i :: 0 <= i < |text| && text[i] in t.paleoSounds
  }

  /** The Hebrew branch of `hebrew_to_ancient_pronunciation` from the current
      position on: a two-character key of PRONUNCIATION_RULES is consumed
      whole before any single-character lookup. */
  function Scan(t: Tables, s: string): string
    decreases |s|
  {
    if s == [] then ""
    else if |s| >= 2 && s[..2] in t.rules then t.rules[s[..2]] + Scan(t, s[2..])
    else SoundOr(t.hebrewSounds, s[0]) + Scan(t, s[1..])
  }

  /** The pronunciation before the clean-up. */
  function RawPronunciation(t: Tables, text: string): string {
    if IsPaleoText(t, text) then CharMap(t.paleoSounds, text) else Scan(t, text)
  }

  /** `result.replace('  ', ' ').strip()` */
  function Cleanup(s: string): (r: string)
    ensures Stripped(r)
  {
    Strip(ReplaceAll(s, "  ", " "))
  }

  /** `hebrew_to_ancient_pronunciation`: the result is stripped. */
  function HebrewToAncientPronunciation(t: Tables, text: string): (r: string)
    ensures Stripped(r)
    ensures text == [] ==> r == []
  {
    Cleanup(RawPronunciation(t, text))
  }

  /** The two characters of `s` at `i` and `i + 1`. */
  function PairAt(s: string, i: nat): string
    requires i + 2 <= |s|
  {
    s[i..i + 2]
  }

  /** No two-character window of `s` is a key of PRONUNCIATION_RULES. */
  predicate NoRulePair(t: Tables, s: string) {
    forall i :: 0 <= i < |s| - 1 ==> PairAt(s, i) !in t.rules
  }

  /** Where no rule applies, the greedy scan is the plain per-character
      lookup. */
  lemma {:induction false} ScanWithoutRules(t: Tables, s: string)
    requires NoRulePair(t, s)
    ensures Scan(t, s) == CharMap(t.hebrewSounds, s)
    decreases |s|
  {
    if s != [] {
      if |s| >= 2 {
        assert s[..2] == PairAt(s, 0);
      }
      assert NoRulePair(t, s[1..]) by {
        forall i | 0 <= i < |s[1..]| - 1
          ensures PairAt(s[1..], i) !in t.rules
        {
          assert PairAt(s[1..], i) == PairAt(s, i + 1);
        }
      }
      ScanWithoutRules(t, s[1..]);
    }
  }

  /** Hebrew text none of whose characters or character pairs is in a table
      is passed through unchanged. */
  lemma HebrewUnmappedPassesThrough(t: Tables, s: string)
    requires !IsPaleoText(t, s) && NoRulePair(t, s)
    requires forall i :: 0 <= i < |s| ==> s[i] !in t.hebrewSounds
    ensures RawPronunciation(t, s) == s
  {
    ScanWithoutRules(t, s);
    CharMapUnmapped(t.hebrewSounds, s);
  }

  /** The scan is greedy from the left: once the first two characters form a
      rule they are consumed, so a rule for the second and third characters
      is never tried. */
  lemma GreedyPairWins(t: Tables, a: char, b: char, c: char)
    requires [a, b] in t.rules
    ensures Scan(t, [a, b, c]) == t.rules[[a, b]] + SoundOr(t.hebrewSounds, c)
  {
    var s := [a, b, c];
    assert s[..2] == [a, b];
    assert s[2..] == [c];
    assert Scan(t, [c]) == SoundOr(t.hebrewSounds, c);
  }

  /** A character that starts no rule is looked up alone. */
  lemma SingleLookup(t: Tables, c: char, s: string)
    requires s == [] || [c, s[0]] !in t.rules
    ensures Scan(t, [c] + s) == SoundOr(t.hebrewSounds, c) + Scan(t, s)
  {
    var w := [c] + s;
    assert w[1..] == s;
    if s != [] {
      assert w[..2] == [c, s[0]];
    }
  }

  /** The space is a key of PALEO_TO_ANCIENT_SOUNDS, so any text holding a
      space takes the Paleo per-character branch, Hebrew letters and all. */
  lemma SpaceSelectsPaleo(t: Tables, text: string, i: nat)
    requires ' ' in t.paleoSounds
    requires i < |text| && text[i] == ' '
    ensures RawPronunciation(t, text) == CharMap(t.paleoSounds, text)
  {
  }

  /** The Paleo branch works character by character. */
  lemma PaleoBranchPerCharacter(t: Tables, a: string, b: string)
    requires IsPaleoText(t, a)
    ensures IsPaleoText(t, a + b)
    ensures RawPronunciation(t, a + b) == CharMap(t.paleoSounds, a) + CharMap(t.paleoSounds, b)
  {
    var i :| 0 <= i < |a| && a[i] in t.paleoSounds;
    assert (a + b)[i] == a[i];
    CharMapAppend(t.paleoSounds, a, b);
  }

  /** The clean-up is one `replace` pass: three spaces between two words
      become two, not one. */
  lemma ThreeSpacesLeaveTwo(x: char, y: char)
    requires !IsSpace(x) && !IsSpace(y)
    ensures Cleanup([x, ' ', ' ', ' ', y]) == [x, ' ', ' ', y]
  {
    var two: string := [' ', ' '];
    var r4 := ReplaceAll([y], two, " ");
    assert r4 == [y];
    ReplaceCopies([' ', y], two, " ", 1);
    assert [' ', y][1..] == [y];
    var r3 := ReplaceAll([' ', y], two, " ");
    assert r3 == [' ', y];
    ReplaceMatches([' ', ' ', ' ', y], two, " ");
    assert [' ', ' ', ' ', y][2..] == [' ', y];
    var r2 := ReplaceAll([' ', ' ', ' ', y], two, " ");
    assert r2 == [' ', ' ', y];
    ReplaceCopies([x, ' ', ' ', ' ', y], two, " ", 0);
    assert [x, ' ', ' ', ' ', y][1..] == [' ', ' ', ' ', y];
    assert ReplaceAll([x, ' ', ' ', ' ', y], two, " ") == [x, ' ', ' ', y];
    StripOfStripped([x, ' ', ' ', y]);
  }

  /** One step of `replace` where the pattern does not start the text: its
      `j`-th character differs. */
  lemma ReplaceCopies(s: string, p: string, r: string, j: nat)
    requires j < |p| <= |s| && s[j] != p[j]
    ensures ReplaceAll(s, p, r) == [s[0]] + ReplaceAll(s[1..], p, r)
  {
    assert s[..|p|][j] == s[j];
  }

  /** One step of `replace` where the pattern starts the text. */
  lemma ReplaceMatches(s: string, p: string, r: string)
    requires p != [] && |s| >= |p| && s[..|p|] == p
    ensures ReplaceAll(s, p, r) == r + ReplaceAll(s[|p|..], p, r)
  {
  }

  /** `add_ancient_vowels`: the patterns applied in order, each replacing all
      of its occurrences. */
  function AddAncientVowels(t: Tables, s: string): (r: string)
    ensures (forall k :: 0 <= k < |t.vowelPatterns| ==> !Occurs(s, t.vowelPatterns[k].0)) ==> r == s
  {
    ApplyNoPatternCond(t.vowelPatterns, s);
    Apply(t.vowelPatterns, s)
  }

  lemma ApplyNoPatternCond(tab: Table, s: string)
    ensures (forall k :: 0 <= k < |tab| ==> !Occurs(s, tab[k].0)) ==> Apply(tab, s) == s
  {
    if forall k :: 0 <= k < |tab| ==> !Occurs(s, tab[k].0) {
      ApplyNoPattern(tab, s);
    }
  }

  /** The first pattern is tried first, on the unchanged text. */
  lemma VowelPatternsInOrder(t: Tables, s: string)
    requires t.vowelPatterns != []
    ensures AddAncientVowels(t, s) == Apply(t.vowelPatterns[1..], Step(s, t.vowelPatterns[0]))
  {
    ApplyFirst(t.vowelPatterns, s);
  }

  /** The rewrites of `create_tts_text` after the optional vowel step. */
  function TtsRewrites(p: string): string {
    ReplaceAll(ReplaceAll(ReplaceAll(p, "kh", "ch"), "ts", "ts"), "ah", "a")
  }

  /** `create_tts_text`: the pronunciation, the vowel patterns when asked for,
      then the rewrites. No "kh" survives. */
  function CreateTtsText(t: Tables, text: string, includeVowels: bool): (r: string)
    ensures !includeVowels ==> r == TtsRewrites(HebrewToAncientPronunciation(t, text))
    ensures !Occurs(r, "kh")
  {
    var p := HebrewToAncientPronunciation(t, text);
    var q := if includeVowels then AddAncientVowels(t, p) else p;
    NoKhAfterRewrites(q);
    TtsRewrites(q)
  }

  /** The "ts" rewrite is the identity: the rewrites are "kh" to "ch", then
      "ah" to "a". */
  lemma TsRewriteIsNoOp(p: string)
    ensures TtsRewrites(p) == ReplaceAll(ReplaceAll(p, "kh", "ch"), "ah", "a")
  {
    ReplaceBySelf(ReplaceAll(p, "kh", "ch"), "ts");
  }

  /** Without vowels the text is the pronunciation, rewritten. */
  lemma NoVowelsSkipsPatterns(t: Tables, text: string)
    ensures CreateTtsText(t, text, false)
      == ReplaceAll(ReplaceAll(HebrewToAncientPronunciation(t, text), "kh", "ch"), "ah", "a")
  {
    TsRewriteIsNoOp(HebrewToAncientPronunciation(t, text));
  }

  lemma NoKhAfterRewrites(p: string)
    ensures !Occurs(TtsRewrites(p), "kh")
  {
    var a := ReplaceAll(p, "kh", "ch");
    KhReplaced(p);
    ReplaceBySelf(a, "ts");
    AhKeepsNoKh(a);
  }

  /** A replacement output starting with `c` comes from text starting with
      `c`, when the replacement itself starts otherwise. */
  lemma ReplaceHead(s: string, p: string, r: string, c: char)
    requires p != [] && r != [] && r[0] != c
    requires ReplaceAll(s, p, r) != [] && ReplaceAll(s, p, r)[0] == c
    ensures s != [] && s[0] == c
  {
  }

  lemma NoOccursShort(s: string, p: string)
    requires |s| < |p|
    ensures !Occurs(s, p)
  {
  }

  /** A character put in front of text without the pair `ab` creates the pair
      only if it is `a` and the text starts with `b`. */
  lemma PrependNoPair(c: char, rest: string, a: char, b: char)
    requires !Occurs(rest, [a, b])
    requires c == a ==> rest == [] || rest[0] != b
    ensures !Occurs([c] + rest, [a, b])
  {
    var out := [c] + rest;
    forall i | 0 <= i <= |out| - 2
      ensures !OccursAt(out, [a, b], i)
    {
      if i == 0 {
        assert out[0..2] == [c, rest[0]];
      } else {
        assert out[i..i + 2] == rest[i - 1..i - 1 + 2];
        assert !OccursAt(rest, [a, b], i - 1);
      }
    }
  }

  /** After "kh" becomes "ch" no "kh" is left. */
  lemma {:induction false} KhReplaced(s: string)
    ensures !Occurs(ReplaceAll(s, "kh", "ch"), "kh")
    decreases |s|
  {
    var out := ReplaceAll(s, "kh", "ch");
    if |s| < 2 {
      NoOccursShort(out, "kh");
    } else if s[..2] == "kh" {
      KhReplaced(s[2..]);
      var rest := ReplaceAll(s[2..], "kh", "ch");
      PrependNoPair('h', rest, 'k', 'h');
      PrependNoPair('c', ['h'] + rest, 'k', 'h');
      assert out == ['c'] + (['h'] + rest);
    } else {
      KhReplaced(s[1..]);
      var rest := ReplaceAll(s[1..], "kh", "ch");
      if rest != [] && rest[0] == 'h' {
        ReplaceHead(s[1..], "kh", "ch", 'h');
        assert s[..2] == [s[0], s[1]];
      }
      PrependNoPair(s[0], rest, 'k', 'h');
      assert out == [s[0]] + rest;
    }
  }

  /** Turning "ah" into "a" cannot bring a "k" next to an "h". */
  lemma {:induction false} AhKeepsNoKh(s: string)
    requires !Occurs(s, "kh")
    ensures !Occurs(ReplaceAll(s, "ah", "a"), "kh")
    decreases |s|
  {
    var out := ReplaceAll(s, "ah", "a");
    if |s| < 2 {
      NoOccursShort(out, "kh");
    } else if s[..2] == "ah" {
      NoOccursSuffix(s, "kh", 2);
      AhKeepsNoKh(s[2..]);
      var rest := ReplaceAll(s[2..], "ah", "a");
      PrependNoPair('a', rest, 'k', 'h');
      assert out == ['a'] + rest;
    } else {
      NoOccursSuffix(s, "kh", 1);
      AhKeepsNoKh(s[1..]);
      var rest := ReplaceAll(s[1..], "ah", "a");
      if rest != [] && rest[0] == 'h' {
        ReplaceHead(s[1..], "ah", "a", 'h');
        assert s[0..0 + 2] == [s[0], s[1]];
        assert !OccursAt(s, "kh", 0);
      }
      PrependNoPair(s[0], rest, 'k', 'h');
      assert out == [s[0]] + rest;
    }
  }

  /** `get_word_pronunciation`: the sample pronunciation exactly for the
      sample words, the vowelled TTS text for every other word. */
  function GetWordPronunciation(t: Tables, word: string): (r: string)
    ensures word in t.sampleWords ==> r == t.sampleWords[word]
    ensures word !in t.sampleWords ==> r == CreateTtsText(t, word, true) && !Occurs(r, "kh")
  {
    if word in t.sampleWords then t.sampleWords[word] else CreateTtsText(t, word, true)
  }
}
