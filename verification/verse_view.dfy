/** The serialised view of a verse (`Verse.to_dict` in `models.py`): every
    column is copied, except that the Paleo text loses the four ancient
    punctuation marks maqaf, sof pasuq, paseq and nun hafukha. */
module VerseView {
  import opened PyStr

  /** The marks `to_dict` removes, in the order it removes them. */
  predicate IsAncientMark(c: char) {
    c == '־' || c == '׃' || c == '׀' || c == '׆'
  }

  predicate NotAncientMark(c: char) {
    !IsAncientMark(c)
  }

  /** Every occurrence of one character deleted. */
  function DeleteChar(s: string, c: char): (r: string)
    ensures |r| <= |s|
    ensures forall i :: 0 <= i < |r| ==> r[i] != c
    decreases |s|
  {
    if s == [] then [] else (if s[0] == c then [] else [s[0]]) + DeleteChar(s[1..], c)
  }

  /** `s.replace(c, '')` for a one-character pattern deletes exactly that
      character. */
  lemma {:induction false} ReplaceDeletes(s: string, c: char)
    ensures ReplaceAll(s, [c], "") == DeleteChar(s, c)
    decreases |s|
  {
    if s != [] {
      ReplaceDeletes(s[1..], c);
      if s[..1] == [c] {
        assert s[0] == c;
      } else {
        assert s[0] != c;
      }
    }
  }

  lemma {:induction false} DeleteCharAppend(a: string, b: string, c: char)
    ensures DeleteChar(a + b, c) == DeleteChar(a, c) + DeleteChar(b, c)
    decreases |a|
  {
    if a == [] {
      assert a + b == b;
    } else {
      assert (a + b)[0] == a[0];
      assert (a + b)[1..] == a[1..] + b;
      DeleteCharAppend(a[1..], b, c);
    }
  }

  /** The four `replace` passes of `to_dict`, in order. */
  function StripMarks(s: string): string {
    var t1 := ReplaceAll(s, "־", "");
    var t2 := ReplaceAll(t1, "׃", "");
    var t3 := ReplaceAll(t2, "׀", "");
    ReplaceAll(t3, "׆", "")
  }

  /** The passes as deletions. */
  function DeleteMarks(s: string): string {
    DeleteChar(DeleteChar(DeleteChar(DeleteChar(s, '־'), '׃'), '׀'), '׆')
  }

  lemma StripMarksDeletes(s: string)
    ensures StripMarks(s) == DeleteMarks(s)
  {
    ReplaceDeletes(s, '־');
    ReplaceDeletes(DeleteChar(s, '־'), '׃');
    ReplaceDeletes(DeleteChar(DeleteChar(s, '־'), '׃'), '׀');
    ReplaceDeletes(DeleteChar(DeleteChar(DeleteChar(s, '־'), '׃'), '׀'), '׆');
  }

  lemma DeleteMarksAppend(a: string, b: string)
    ensures DeleteMarks(a + b) == DeleteMarks(a) + DeleteMarks(b)
  {
    var a1, b1 := DeleteChar(a, '־'), DeleteChar(b, '־');
    var a2, b2 := DeleteChar(a1, '׃'), DeleteChar(b1, '׃');
    var a3, b3 := DeleteChar(a2, '׀'), DeleteChar(b2, '׀');
    DeleteCharAppend(a, b, '־');
    DeleteCharAppend(a1, b1, '׃');
    DeleteCharAppend(a2, b2, '׀');
    DeleteCharAppend(a3, b3, '׆');
  }

  /** The four passes together keep exactly the characters that are not
      one of the marks, in their original order. */
  lemma {:induction false} StripMarksIsFilter(s: string)
    ensures StripMarks(s) == Filter(s, NotAncientMark)
    decreases |s|
  {
    StripMarksDeletes(s);
    if s != [] {
      assert s == [s[0]] + s[1..];
      DeleteMarksAppend([s[0]], s[1..]);
      StripMarksIsFilter(s[1..]);
      StripMarksDeletes(s[1..]);
    }
  }

  /** The Paleo text as `to_dict` returns it: `None` and "" are returned
      as they are. */
  function CleanPaleoText(p: Option<string>): (r: Option<string>)
    ensures p.None? ==> r.None?
    ensures p.Some? ==> r.Some? && r.value == Filter(p.value, NotAncientMark)
  {
    match p
    case None => None
    case Some(s) =>
      StripMarksIsFilter(s);
      if s == [] then p else Some(StripMarks(s))
  }

  /** No mark survives, nothing gets longer, and cleaning again changes
      nothing. */
  lemma CleanPaleoFacts(p: Option<string>)
    ensures CleanPaleoText(p).Some? ==>
              |CleanPaleoText(p).value| <= |p.value| &&
              forall i :: 0 <= i < |CleanPaleoText(p).value| ==> !IsAncientMark(CleanPaleoText(p).value[i])
    ensures CleanPaleoText(CleanPaleoText(p)) == CleanPaleoText(p)
  {
    if p.Some? {
      FilterKeepsAll(Filter(p.value, NotAncientMark), NotAncientMark);
    }
  }

  /** Text without the marks comes back unchanged. */
  lemma UnmarkedTextKept(s: string)
    requires forall i :: 0 <= i < |s| ==> !IsAncientMark(s[i])
    ensures CleanPaleoText(Some(s)) == Some(s)
  {
    FilterKeepsAll(s, NotAncientMark);
  }

  /** A maqaf between two words simply disappears. */
  lemma MaqafJoinedWords(a: string, b: string)
    requires forall i :: 0 <= i < |a| ==> !IsAncientMark(a[i])
    requires forall i :: 0 <= i < |b| ==> !IsAncientMark(b[i])
    ensures CleanPaleoText(Some(a + "־" + b)) == Some(a + b)
  {
    FilterAppend(a + "־", b, NotAncientMark);
    FilterAppend(a, "־", NotAncientMark);
    FilterKeepsAll(a, NotAncientMark);
    FilterKeepsAll(b, NotAncientMark);
    assert Filter("־", NotAncientMark) == [];
    assert a + [] == a;
    assert Filter(a + "־" + b, NotAncientMark) == a + b;
  }

  /** The columns of a `Verse` row. */
  datatype Verse = Verse(
    id: int,
    chapterId: int,
    verseNumber: int,
    hebrewText: string,
    hebrewConsonantal: string,
    paleoText: Option<string>,
    paleoTransliteration: string,
    modernTransliteration: string,
    englishTranslation: Option<string>,
    literalTranslation: Option<string>,
    strongNumbers: Option<string>,
    morphology: Option<string>,
    notes: Option<string>)

  /** `to_dict`; the dictionary has one entry per column, so it is modelled
      by a record of the same shape. */
  function ToDict(v: Verse): (d: Verse)
    ensures d.paleoText == CleanPaleoText(v.paleoText)
  {
    v.(paleoText := CleanPaleoText(v.paleoText))
  }

  /** Every column other than the Paleo text is copied verbatim, and a
      verse whose Paleo text has no marks is returned as it is. */
  lemma ToDictCopiesOtherFields(v: Verse)
    ensures ToDict(v).(paleoText := v.paleoText) == v
    ensures (v.paleoText.Some? ==> forall i :: 0 <= i < |v.paleoText.value| ==>
               !IsAncientMark(v.paleoText.value[i])) ==> ToDict(v) == v
  {
    if v.paleoText.Some? && forall i :: 0 <= i < |v.paleoText.value| ==> !IsAncientMark(v.paleoText.value[i]) {
      UnmarkedTextKept(v.paleoText.value);
    }
  }
}
