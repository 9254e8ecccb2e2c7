/** The bulk importer's bookkeeping (`utils/bible_bulk_importer.py`): the
    `ImportProgress` record and its transitions, the list of books still to
    import, and the flattening of a Sefaria response into verses. The
    current time, which every transition stamps into the record, is a
    parameter; writing the record to its JSON file is not modelled. */
module BulkImporter {
  import opened PyStr
  import opened PyJson
  import opened BibleBooks

  // ---------------------------------------------------------------------
  // ImportProgress
  // ---------------------------------------------------------------------

  /** The `status` field: "not_started", "in_progress" or "completed". */
  datatype Status = NotStarted | InProgress | Completed

  /** An entry of `books_in_progress`. */
  datatype BookProgress = BookProgress(startedAt: string, versesImported: int)

  /** `progress_data`. */
  datatype Progress = Progress(
    startedAt: Option<string>,
    lastUpdated: Option<string>,
    booksCompleted: seq<string>,
    booksInProgress: map<string, BookProgress>,
    totalBooks: int,
    totalVersesImported: int,
    errors: seq<map<string, string>>,
    status: Status,
    completedAt: Option<string>)

  /** No name is listed twice. */
  predicate NoDuplicates(names: seq<string>) {
    forall i, j :: 0 <= i < j < |names| ==> names[i] != names[j]
  }

  /** The record `_load_progress` starts from when there is no file. */
  function Fresh(): (p: Progress)
    ensures p.status == NotStarted && p.booksCompleted == [] && p.booksInProgress == map[]
    ensures p.totalBooks == |Books()| == 39 && p.totalVersesImported == 0 && p.errors == []
  {
    Progress(None, None, [], map[], BookCount, 0, [], NotStarted, None)
  }

  /** `_save_progress` stamps the record before writing it out. */
  function Saved(p: Progress, now: string): Progress {
    p.(lastUpdated := Some(now))
  }

  /** `start_import` */
  function StartImport(p: Progress, now: string): (q: Progress)
    ensures q.status == InProgress && q.startedAt == Some(now)
    ensures q.booksCompleted == p.booksCompleted && q.booksInProgress == p.booksInProgress
    ensures q.totalVersesImported == p.totalVersesImported && q.errors == p.errors
  {
    Saved(p.(startedAt := Some(now), status := InProgress), now)
  }

  /** `complete_book`: the name is appended unless already listed, dropped
      from the books in progress, and its verses are added to the total. */
  function CompleteBook(p: Progress, name: string, versesImported: int, now: string): (q: Progress)
    ensures name in q.booksCompleted && name !in q.booksInProgress
    ensures q.totalVersesImported == p.totalVersesImported + versesImported
    ensures forall b :: b in p.booksCompleted ==> b in q.booksCompleted
    ensures forall b :: b in q.booksCompleted ==> b in p.booksCompleted || b == name
    ensures forall b :: b != name && b in p.booksInProgress ==>
              b in q.booksInProgress && q.booksInProgress[b] == p.booksInProgress[b]
    ensures q.booksInProgress.Keys <= p.booksInProgress.Keys
    ensures q.status == p.status && q.errors == p.errors
  {
    var completed := if name in p.booksCompleted then p.booksCompleted else p.booksCompleted + [name];
    var inProgress := if name in p.booksInProgress then p.booksInProgress - {name} else p.booksInProgress;
    Saved(p.(booksCompleted := completed,
             booksInProgress := inProgress,
             totalVersesImported := p.totalVersesImported + versesImported), now)
  }

  /** `start_book`: the book is (re)entered with no verses imported yet. */
  function StartBook(p: Progress, name: string, now: string): (q: Progress)
    ensures name in q.booksInProgress && q.booksInProgress[name] == BookProgress(now, 0)
    ensures forall b :: b != name ==> (b in q.booksInProgress <==> b in p.booksInProgress)
    ensures forall b :: b != name && b in p.booksInProgress ==> q.booksInProgress[b] == p.booksInProgress[b]
    ensures q.booksCompleted == p.booksCompleted && q.status == p.status
    ensures q.totalVersesImported == p.totalVersesImported
  {
    Saved(p.(booksInProgress := p.booksInProgress[name := BookProgress(now, 0)]), now)
  }

  /** `add_error`: the error's fields plus a "timestamp" field, which wins
      over one of the same name in the error itself. */
  function AddError(p: Progress, info: map<string, string>, now: string): (q: Progress)
    ensures |q.errors| == |p.errors| + 1 && q.errors[..|p.errors|] == p.errors
    ensures "timestamp" in q.errors[|p.errors|] && q.errors[|p.errors|]["timestamp"] == now
    ensures q.errors[|p.errors|].Keys == info.Keys + {"timestamp"}
    ensures forall k :: k in info && k != "timestamp" ==> q.errors[|p.errors|][k] == info[k]
    ensures q.booksCompleted == p.booksCompleted && q.status == p.status
  {
    Saved(p.(errors := p.errors + [info["timestamp" := now]]), now)
  }

  /** `complete_import` */
  function CompleteImport(p: Progress, now: string): (q: Progress)
    ensures q.status == Completed && q.completedAt == Some(now)
    ensures q.booksCompleted == p.booksCompleted && q.totalVersesImported == p.totalVersesImported
  {
    Saved(p.(status := Completed, completedAt := Some(now)), now)
  }

  /** Completing a book keeps the completed list free of repeats. */
  lemma CompleteBookNoDuplicates(p: Progress, name: string, versesImported: int, now: string)
    requires NoDuplicates(p.booksCompleted)
    ensures NoDuplicates(CompleteBook(p, name, versesImported, now).booksCompleted)
    ensures name in p.booksCompleted ==>
              CompleteBook(p, name, versesImported, now).booksCompleted == p.booksCompleted
    ensures name !in p.booksCompleted ==>
              CompleteBook(p, name, versesImported, now).booksCompleted == p.booksCompleted + [name]
  {
  }

  /** The completed list never repeats a name, whatever the transition. */
  lemma TransitionsKeepNoDuplicates(p: Progress, name: string, n: int, info: map<string, string>, now: string)
    requires NoDuplicates(p.booksCompleted)
    ensures NoDuplicates(StartImport(p, now).booksCompleted)
    ensures NoDuplicates(CompleteBook(p, name, n, now).booksCompleted)
    ensures NoDuplicates(StartBook(p, name, now).booksCompleted)
    ensures NoDuplicates(AddError(p, info, now).booksCompleted)
    ensures NoDuplicates(CompleteImport(p, now).booksCompleted)
  {
    CompleteBookNoDuplicates(p, name, n, now);
  }

  /** Completing the same book twice lists it once but counts its verses
      twice. */
  lemma RepeatedCompletionCountsTwice(p: Progress, name: string, n: int, now1: string, now2: string)
    ensures var q := CompleteBook(CompleteBook(p, name, n, now1), name, n, now2);
            q.booksCompleted == CompleteBook(p, name, n, now1).booksCompleted &&
            q.totalVersesImported == p.totalVersesImported + 2 * n
  {
  }

  /** Starting a book and then completing it leaves nothing in progress for
      it. */
  lemma StartThenComplete(p: Progress, name: string, n: int, now1: string, now2: string)
    ensures var q := CompleteBook(StartBook(p, name, now1), name, n, now2);
            name !in q.booksInProgress && name in q.booksCompleted &&
            q.booksInProgress == p.booksInProgress - {name}
  {
  }

  // ---------------------------------------------------------------------
  // Books still to import
  // ---------------------------------------------------------------------

  /** `{book['name'] for book in HEBREW_BIBLE_BOOKS}` */
  function AllBookNames(): (names: set<string>)
    ensures forall k :: 0 <= k < BookCount ==> BookAt(k).name in names
    ensures forall n :: n in names ==> exists k :: 0 <= k < BookCount && BookAt(k).name == n
  {
    set k | 0 <= k < BookCount :: BookAt(k).name
  }

  /** `get_remaining_books`, as the set it is built from (Python's
      `list(set)` has no defined order). */
  function RemainingBooks(p: Progress): (r: set<string>)
    ensures r <= AllBookNames()
  {
    AllBookNames() - (set b | b in p.booksCompleted)
  }

  /** The remaining books and the completed ones do not overlap, and
      together they are every book of the canon. */
  lemma RemainingPartitionsBooks(p: Progress)
    ensures forall b :: b in RemainingBooks(p) ==> b !in p.booksCompleted
    ensures forall b :: b in AllBookNames() ==> b in RemainingBooks(p) || b in p.booksCompleted
  {
  }

  /** Completing a book removes exactly that book from the remaining ones. */
  lemma CompleteBookShrinksRemaining(p: Progress, name: string, n: int, now: string)
    ensures RemainingBooks(CompleteBook(p, name, n, now)) == RemainingBooks(p) - {name}
  {
    var q := CompleteBook(p, name, n, now);
    assert (set b | b in q.booksCompleted) == (set b | b in p.booksCompleted) + {name};
  }

  /** The books of `bs`, in order, whose names are in `remaining`. */
  function KeepRemaining(bs: seq<Book>, remaining: set<string>): (r: seq<Book>)
    ensures |r| <= |bs|
    ensures forall x :: x in r <==> x in bs && x.name in remaining
    decreases |bs|
  {
    if bs == [] then []
    else
      var rest := KeepRemaining(bs[1..], remaining);
      assert forall x :: x in bs[1..] ==> x in bs;
      assert forall x :: x in bs ==> x == bs[0] || x in bs[1..];
      if bs[0].name in remaining then [bs[0]] + rest else rest
  }

  /** `_get_books_to_import_resume` */
  function ResumeBooks(p: Progress): seq<Book> {
    KeepRemaining(Books(), RemainingBooks(p))
  }

  predicate StrictlyOrdered(bs: seq<Book>) {
    forall i, j :: 0 <= i < j < |bs| ==> bs[i].order < bs[j].order
  }

  /** The head of an ordered list comes before everything after it. */
  lemma OrderedHead(bs: seq<Book>)
    requires bs != [] && StrictlyOrdered(bs)
    ensures forall x :: x in bs[1..] ==> bs[0].order < x.order
  {
    forall x | x in bs[1..]
      ensures bs[0].order < x.order
    {
      var m :| 0 <= m < |bs[1..]| && bs[1..][m] == x;
      assert bs[m + 1] == x;
    }
  }

  lemma OrderedTail(bs: seq<Book>)
    requires bs != [] && StrictlyOrdered(bs)
    ensures StrictlyOrdered(bs[1..])
  {
    forall i, j | 0 <= i < j < |bs[1..]|
      ensures bs[1..][i].order < bs[1..][j].order
    {
      assert bs[1..][i] == bs[i + 1] && bs[1..][j] == bs[j + 1];
    }
  }

  lemma OrderedCons(h: Book, rest: seq<Book>)
    requires StrictlyOrdered(rest) && forall x :: x in rest ==> h.order < x.order
    ensures StrictlyOrdered([h] + rest)
  {
    var r := [h] + rest;
    forall i, j | 0 <= i < j < |r|
      ensures r[i].order < r[j].order
    {
      assert r[j] == rest[j - 1];
      if i > 0 {
        assert r[i] == rest[i - 1];
      }
    }
  }

  /** Keeping some of the books keeps them in their order. */
  lemma {:induction false} KeepRemainingOrdered(bs: seq<Book>, remaining: set<string>)
    requires StrictlyOrdered(bs)
    ensures StrictlyOrdered(KeepRemaining(bs, remaining))
    decreases |bs|
  {
    if bs != [] {
      OrderedTail(bs);
      KeepRemainingOrdered(bs[1..], remaining);
      if bs[0].name in remaining {
        OrderedHead(bs);
        OrderedCons(bs[0], KeepRemaining(bs[1..], remaining));
      }
    }
  }

  /** The books to resume with are exactly the canon books not completed,
      in canonical order. */
  lemma ResumeBooksAreRemaining(p: Progress)
    ensures forall b :: b in ResumeBooks(p) <==> b in Books() && b.name !in p.booksCompleted
    ensures StrictlyOrdered(ResumeBooks(p))
  {
    OrdersAreCanonical();
    forall b | b in Books()
      ensures b.name in AllBookNames()
    {
      var k :| 0 <= k < |Books()| && Books()[k] == b;
    }
    KeepRemainingOrdered(Books(), RemainingBooks(p));
  }

  /** Before anything is completed every book is resumed, in order. */
  lemma FreshResumesEverything()
    ensures ResumeBooks(Fresh()) == Books()
  {
    forall b | b in Books()
      ensures b.name in AllBookNames()
    {
      var k :| 0 <= k < |Books()| && Books()[k] == b;
    }
    KeepAll(Books(), RemainingBooks(Fresh()));
  }

  lemma {:induction false} KeepAll(bs: seq<Book>, remaining: set<string>)
    requires forall b :: b in bs ==> b.name in remaining
    ensures KeepRemaining(bs, remaining) == bs
    decreases |bs|
  {
    if bs != [] {
      assert bs[0] in bs;
      forall b | b in bs[1..]
        ensures b.name in remaining
      {
        assert b in bs;
      }
      KeepAll(bs[1..], remaining);
      assert KeepRemaining(bs, remaining) == [bs[0]] + KeepRemaining(bs[1..], remaining);
      assert [bs[0]] + bs[1..] == bs;
    }
  }

  // ---------------------------------------------------------------------
  // _process_sefaria_response
  // ---------------------------------------------------------------------

  /** One verse dictionary; the Hebrew and English values are whatever the
      response held at that place. */
  datatype ResponseVerse = ResponseVerse(chapter: nat, verse: nat, hebrew: Json, english: Json)

  /** Verses gathered so far, and whether an exception ended the walk. */
  datatype Walk = Walk(verses: seq<ResponseVerse>, failed: bool)

  /** `chapter_english[v] if isinstance(chapter_english, list) and
      v < len(chapter_english) else ""` */
  function VerseEnglish(chapterEnglish: Json, v: nat): (e: Json)
    ensures !chapterEnglish.JList? ==> e == JStr("")
  {
    if chapterEnglish.JList? && v < |chapterEnglish.items| then chapterEnglish.items[v] else JStr("")
  }

  /** The verses of one chapter list, numbered from `v + 1`. */
  function ChapterVerses(chapter: nat, hs: seq<Json>, chapterEnglish: Json, v: nat): (r: seq<ResponseVerse>)
    requires v <= |hs|
    ensures |r| == |hs| - v
    ensures forall k :: 0 <= k < |r| ==>
              r[k] == ResponseVerse(chapter, v + k + 1, hs[v + k], VerseEnglish(chapterEnglish, v + k))
    decreases |hs| - v
  {
    if v == |hs| then []
    else [ResponseVerse(chapter, v + 1, hs[v], VerseEnglish(chapterEnglish, v))]
         + ChapterVerses(chapter, hs, chapterEnglish, v + 1)
  }

  /** `english_text[c] if c < len(english_text) else []`; `None` when Python
      would raise (no `len`, or a dict indexed by an integer). */
  function ChapterEnglish(english: Json, c: nat): (r: Option<Json>)
    ensures english.JList? ==> r == Some(if c < |english.items| then english.items[c] else JList([]))
  {
    match Len(english)
    case None => None
    case Some(n) => if c < n then Index(english, c) else Some(JList([]))
  }

  /** The English chapter read for chapter index `c` of an English list:
      `en[c]`, or `[]` past its end. */
  function ListChapter(en: seq<Json>, c: nat): (ce: Json)
    ensures c < |en| ==> ce == en[c]
    ensures c >= |en| ==> ce == JList([])
  {
    if c < |en| then en[c] else JList([])
  }

  /** `rv` is the item at its place in a Hebrew chapter list, paired with the
      English the walk reads for that place. */
  predicate WalkedVerse(chs: seq<Json>, english: Json, rv: ResponseVerse) {
    1 <= rv.chapter <= |chs| && chs[rv.chapter - 1].JList? && 1 <= rv.verse <= |chs[rv.chapter - 1].items|
    && ChapterEnglish(english, rv.chapter - 1).Some?
    && rv.hebrew == chs[rv.chapter - 1].items[rv.verse - 1]
    && rv.english == VerseEnglish(ChapterEnglish(english, rv.chapter - 1).value, rv.verse - 1)
  }

  /** The chapter loop from chapter index `c` on; a chapter that is not a
      list contributes nothing. A walk that does not fail has one verse per
      item of every chapter list, and an English list never makes it fail. */
  function ChaptersWalk(chs: seq<Json>, english: Json, c: nat): (r: Walk)
    requires c <= |chs|
    ensures forall k :: 0 <= k < |r.verses| ==> r.verses[k].chapter > c && r.verses[k].verse >= 1
    ensures !r.failed ==> |r.verses| == NestedCount(chs, c)
    ensures english.JList? ==> !r.failed
    decreases |chs| - c
  {
    if c == |chs| then Walk([], false)
    else
      match ChapterEnglish(english, c)
      case None => Walk([], true)
      case Some(ce) =>
        var here := if chs[c].JList? then ChapterVerses(c + 1, chs[c].items, ce, 0) else [];
        var rest := ChaptersWalk(chs, english, c + 1);
        Walk(here + rest.verses, rest.failed)
  }

  /** Nothing but the chapters' items is returned: every verse of the walk
      is the item at its place, with the English read for that place. */
  lemma {:induction false} WalkVersesFromPlaces(chs: seq<Json>, english: Json, c: nat)
    requires c <= |chs|
    ensures forall k :: 0 <= k < |ChaptersWalk(chs, english, c).verses| ==>
              WalkedVerse(chs, english, ChaptersWalk(chs, english, c).verses[k])
    decreases |chs| - c
  {
    if c < |chs| {
      match ChapterEnglish(english, c)
      case None =>
      case Some(ce) =>
        WalkVersesFromPlaces(chs, english, c + 1);
        var here := if chs[c].JList? then ChapterVerses(c + 1, chs[c].items, ce, 0) else [];
        var rest := ChaptersWalk(chs, english, c + 1).verses;
        assert ChaptersWalk(chs, english, c).verses == here + rest;
        forall k | 0 <= k < |here + rest|
          ensures WalkedVerse(chs, english, (here + rest)[k])
        {
          if k < |here| {
            assert (here + rest)[k] == here[k];
          } else {
            assert (here + rest)[k] == rest[k - |here|];
          }
        }
    }
  }

  /** One step of the walk over an English list. */
  lemma WalkStep(chs: seq<Json>, en: seq<Json>, c: nat)
    requires c < |chs|
    ensures ChaptersWalk(chs, JList(en), c).verses ==
              (if chs[c].JList? then ChapterVerses(c + 1, chs[c].items, ListChapter(en, c), 0) else [])
                + ChaptersWalk(chs, JList(en), c + 1).verses
  {
    assert ChapterEnglish(JList(en), c) == Some(ListChapter(en, c));
  }

  /** Item `v` of a chapter is among its verses, whatever follows them. */
  lemma ChapterVerseIn(chapter: nat, hs: seq<Json>, ce: Json, v: nat, rest: seq<ResponseVerse>)
    requires v < |hs|
    ensures ResponseVerse(chapter, v + 1, hs[v], VerseEnglish(ce, v)) in ChapterVerses(chapter, hs, ce, 0) + rest
  {
    var here := ChapterVerses(chapter, hs, ce, 0);
    assert (here + rest)[v] == here[v];
  }

  /** Read with an English list, the walk misses no verse: every item of a
      Hebrew chapter list is returned with its chapter and verse number and
      the English at the same place, or "". */
  lemma {:induction false} WalkCoversEveryVerse(chs: seq<Json>, en: seq<Json>, c: nat)
    requires c <= |chs|
    ensures forall d: nat, v: nat :: c <= d < |chs| && chs[d].JList? && v < |chs[d].items| ==>
              ResponseVerse(d + 1, v + 1, chs[d].items[v], VerseEnglish(ListChapter(en, d), v))
                in ChaptersWalk(chs, JList(en), c).verses
    decreases |chs| - c
  {
    if c < |chs| {
      WalkCoversEveryVerse(chs, en, c + 1);
      WalkStep(chs, en, c);
      var rest := ChaptersWalk(chs, JList(en), c + 1).verses;
      forall d: nat, v: nat | c <= d < |chs| && chs[d].JList? && v < |chs[d].items|
        ensures ResponseVerse(d + 1, v + 1, chs[d].items[v], VerseEnglish(ListChapter(en, d), v))
                  in ChaptersWalk(chs, JList(en), c).verses
      {
        if d == c {
          ChapterVerseIn(c + 1, chs[c].items, ListChapter(en, c), v, rest);
        }
      }
    }
  }

  /** `_process_sefaria_response`. A response that is not a dict, a "he"
      value without a first element, or an English value that cannot be
      measured raises inside the `try`, and the verses collected until then
      are returned. A "he" list whose first element is a string is one
      chapter; the English is then wrapped too, or replaced by `[[]]` when
      falsy. */
  function ProcessSefariaResponse(data: Json): (vs: seq<ResponseVerse>)
    ensures forall k :: 0 <= k < |vs| ==> vs[k].chapter >= 1 && vs[k].verse >= 1
  {
    match Get(data, "he", JList([]))
    case None => []
    case Some(he) =>
      match Get(data, "text", JList([]))
      case None => []
      case Some(en) =>
        match Index(he, 0)
        case None => []
        case Some(first) =>
          if first.JStr? then
            var english := if Truthy(en) then JList([en]) else JList([JList([])]);
            ChaptersWalk([he], english, 0).verses
          else
            ChaptersWalk(he.items, en, 0).verses
  }

  /** A "he" list whose first element is not a string is a list of
      chapters, and with a "text" list the response is its flattening: every
      item of every chapter list comes back with its chapter and verse number
      and its English, nothing else does, and there are as many verses as the
      chapter lists hold items. */
  lemma ChaptersAreFlattened(data: Json, chs: seq<Json>, en: seq<Json>)
    requires Get(data, "he", JList([])) == Some(JList(chs))
    requires Get(data, "text", JList([])) == Some(JList(en))
    requires chs != [] && !chs[0].JStr?
    ensures |ProcessSefariaResponse(data)| == NestedCount(chs, 0)
    ensures forall d: nat, v: nat :: 0 <= d < |chs| && chs[d].JList? && v < |chs[d].items| ==>
              ResponseVerse(d + 1, v + 1, chs[d].items[v], VerseEnglish(ListChapter(en, d), v))
                in ProcessSefariaResponse(data)
    ensures forall k :: 0 <= k < |ProcessSefariaResponse(data)| ==>
              WalkedVerse(chs, JList(en), ProcessSefariaResponse(data)[k])
  {
    assert ProcessSefariaResponse(data) == ChaptersWalk(chs, JList(en), 0).verses;
    WalkCoversEveryVerse(chs, en, 0);
    WalkVersesFromPlaces(chs, JList(en), 0);
  }

  /** An empty "he" list raises on `hebrew_text[0]`; nothing is returned. */
  lemma EmptyHebrewGivesNothing(data: Json)
    requires Get(data, "he", JList([])) == Some(JList([]))
    ensures ProcessSefariaResponse(data) == []
  {
  }

  /** A flat list of strings is a single chapter: verse `k + 1` of chapter 1
      is its `k`-th string, with the English at the same place or "". */
  lemma FlatListIsOneChapter(data: Json, hs: seq<Json>, en: Json)
    requires Get(data, "he", JList([])) == Some(JList(hs))
    requires Get(data, "text", JList([])) == Some(en)
    requires hs != [] && hs[0].JStr?
    ensures |ProcessSefariaResponse(data)| == |hs|
    ensures forall k :: 0 <= k < |hs| ==>
              ProcessSefariaResponse(data)[k] ==
                ResponseVerse(1, k + 1, hs[k], VerseEnglish(if Truthy(en) then en else JList([]), k))
  {
    var english := if Truthy(en) then JList([en]) else JList([JList([])]);
    assert ChapterEnglish(english, 0) == Some(if Truthy(en) then en else JList([]));
    var here := ChapterVerses(1, hs, if Truthy(en) then en else JList([]), 0);
    assert ChaptersWalk([JList(hs)], english, 1) == Walk([], false);
    assert ChaptersWalk([JList(hs)], english, 0).verses == here + [];
  }

  /** English made only of empty chapter lists. */
  predicate NoEnglish(english: Json) {
    english.JList? && forall k :: 0 <= k < |english.items| ==> english.items[k] == JList([])
  }

  /** Without English, every verse of a list of chapters gets "". */
  lemma {:induction false} WalkWithoutEnglish(chs: seq<Json>, english: Json, c: nat)
    requires c <= |chs| && NoEnglish(english)
    ensures !ChaptersWalk(chs, english, c).failed
    ensures forall k :: 0 <= k < |ChaptersWalk(chs, english, c).verses| ==>
              ChaptersWalk(chs, english, c).verses[k].english == JStr("")
    decreases |chs| - c
  {
    if c < |chs| {
      WalkWithoutEnglish(chs, english, c + 1);
      assert ChapterEnglish(english, c) == Some(JList([]));
      var here := if chs[c].JList? then ChapterVerses(c + 1, chs[c].items, JList([]), 0) else [];
      var rest := ChaptersWalk(chs, english, c + 1);
      assert ChaptersWalk(chs, english, c).verses == here + rest.verses;
    }
  }

  /** A response with no "text" gives "" as the English of every verse. */
  lemma MissingEnglishIsEmpty(data: Json)
    requires data.JDict? && forall k :: 0 <= k < |data.members| ==> data.members[k].0 != "text"
    ensures forall k :: 0 <= k < |ProcessSefariaResponse(data)| ==>
              ProcessSefariaResponse(data)[k].english == JStr("")
  {
    assert Get(data, "text", JList([])) == Some(JList([]));
    match Get(data, "he", JList([]))
    case Some(he) =>
      match Index(he, 0)
      case None =>
      case Some(first) =>
        if first.JStr? {
          assert NoEnglish(JList([JList([])]));
          WalkWithoutEnglish([he], JList([JList([])]), 0);
        } else {
          WalkWithoutEnglish(he.items, JList([]), 0);
        }
  }

  /** Verses come out in (chapter, verse) order. */
  predicate InReadingOrder(vs: seq<ResponseVerse>) {
    forall i, j :: 0 <= i < j < |vs| ==>
      vs[i].chapter < vs[j].chapter || (vs[i].chapter == vs[j].chapter && vs[i].verse < vs[j].verse)
  }

  /** A chapter's verses followed by later chapters' verses stay in
      reading order. */
  lemma ConcatReadingOrder(here: seq<ResponseVerse>, rest: seq<ResponseVerse>, chapter: nat)
    requires InReadingOrder(here) && InReadingOrder(rest)
    requires forall k :: 0 <= k < |here| ==> here[k].chapter == chapter
    requires forall k :: 0 <= k < |rest| ==> rest[k].chapter > chapter
    ensures InReadingOrder(here + rest)
  {
    var all := here + rest;
    forall i, j | 0 <= i < j < |all|
      ensures all[i].chapter < all[j].chapter || (all[i].chapter == all[j].chapter && all[i].verse < all[j].verse)
    {
      if j >= |here| {
        assert all[j] == rest[j - |here|];
        if i >= |here| {
          assert all[i] == rest[i - |here|];
        }
      }
    }
  }

  lemma {:induction false} WalkInReadingOrder(chs: seq<Json>, english: Json, c: nat)
    requires c <= |chs|
    ensures InReadingOrder(ChaptersWalk(chs, english, c).verses)
    decreases |chs| - c
  {
    if c < |chs| {
      WalkInReadingOrder(chs, english, c + 1);
      match ChapterEnglish(english, c)
      case None =>
      case Some(ce) =>
        var here := if chs[c].JList? then ChapterVerses(c + 1, chs[c].items, ce, 0) else [];
        ConcatReadingOrder(here, ChaptersWalk(chs, english, c + 1).verses, c + 1);
    }
  }

  /** `_process_sefaria_response` lists verses in reading order. */
  lemma ResponseInReadingOrder(data: Json)
    ensures InReadingOrder(ProcessSefariaResponse(data))
  {
    match Get(data, "he", JList([]))
    case None =>
    case Some(he) =>
      match Get(data, "text", JList([]))
      case None =>
      case Some(en) =>
        match Index(he, 0)
        case None =>
        case Some(first) =>
          if first.JStr? {
            var english := if Truthy(en) then JList([en]) else JList([JList([])]);
            WalkInReadingOrder([he], english, 0);
          } else {
            WalkInReadingOrder(he.items, en, 0);
          }
  }
}
