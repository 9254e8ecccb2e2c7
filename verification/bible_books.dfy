/** The 39-book canon table of the Hebrew Bible (`data/bible_books.py`):
    the book records in canonical order, the chapter total and the summary
    of the three sections, with the invariants the table keeps. */
module BibleBooks {
  import opened PyStr
  import opened HebrewConverter

  /** The three sections of the Tanakh, spelled in the table as "Torah",
      "Nevi'im" and "Ketuvim". */
  datatype Testament = Torah | Neviim | Ketuvim

  function TestamentName(t: Testament): string {
    match t
    case Torah => "Torah"
    case Neviim => "Nevi'im"
    case Ketuvim => "Ketuvim"
  }

  /** One dictionary of HEBREW_BIBLE_BOOKS. */
  datatype Book = Book(
    name: string,
    hebrewName: string,
    paleoName: string,
    order: int,
    testament: Testament,
    abbreviation: string,
    hebrewAbbreviation: string,
    chapters: int)

  const BookCount: nat := 39

  /** The `k`-th record of HEBREW_BIBLE_BOOKS, counting from 0 (split in
      five to keep each lookup small). */
  function BookAt(k: nat): Book
    requires k < BookCount
  {
    if k < 8 then BooksFrom0(k) else if k < 16 then BooksFrom8(k) else if k < 24 then BooksFrom16(k) else if k < 32 then BooksFrom24(k) else BooksFrom32(k)
  }

  function BooksFrom0(k: nat): Book
    requires 0 <= k < 8
  {
    match k
    case 0 => Book("Genesis", "בראשית", "𐤁𐤓𐤀𐤔𐤉𐤕", 1, Torah,
                    "Gen", "בר", 50)
    case 1 => Book("Exodus", "שמות", "𐤔𐤌𐤅𐤕", 2, Torah,
                    "Exo", "שמ", 40)
    case 2 => Book("Leviticus", "ויקרא", "𐤅𐤉𐤒𐤓𐤀", 3, Torah,
                    "Lev", "ויק", 27)
    case 3 => Book("Numbers", "במדבר", "𐤁𐤌𐤃𐤁𐤓", 4, Torah,
                    "Num", "במד", 36)
    case 4 => Book("Deuteronomy", "דברים", "𐤃𐤁𐤓𐤉𐤌", 5, Torah,
                    "Deu", "דבר", 34)
    case 5 => Book("Joshua", "יהושע", "𐤉𐤄𐤅𐤔𐤏", 6, Neviim,
                    "Jos", "יהש", 24)
    case 6 => Book("Judges", "שופטים", "𐤔𐤅𐤐𐤈𐤉𐤌", 7, Neviim,
                    "Jdg", "שפט", 21)
    case _ => Book("Samuel I", "שמואל א", "𐤔𐤌𐤅𐤀𐤋 𐤀", 8, Neviim,
                    "1Sa", "שמא", 31)
  }

  function BooksFrom8(k: nat): Book
    requires 8 <= k < 16
  {
    match k
    case 8 => Book("Samuel II", "שמואל ב", "𐤔𐤌𐤅𐤀𐤋 𐤁", 9, Neviim,
                    "2Sa", "שמב", 24)
    case 9 => Book("Kings I", "מלכים א", "𐤌𐤋𐤊𐤉𐤌 𐤀", 10, Neviim,
                    "1Ki", "מלא", 22)
    case 10 => Book("Kings II", "מלכים ב", "𐤌𐤋𐤊𐤉𐤌 𐤁", 11, Neviim,
                    "2Ki", "מלב", 25)
    case 11 => Book("Isaiah", "ישעיהו", "𐤉𐤔𐤏𐤉𐤄𐤅", 12, Neviim,
                    "Isa", "יש", 66)
    case 12 => Book("Jeremiah", "ירמיהו", "𐤉𐤓𐤌𐤉𐤄𐤅", 13, Neviim,
                    "Jer", "יר", 52)
    case 13 => Book("Ezekiel", "יחזקאל", "𐤉𐤇𐤆𐤒𐤀𐤋", 14, Neviim,
                    "Eze", "יח", 48)
    case 14 => Book("Hosea", "הושע", "𐤄𐤅𐤔𐤏", 15, Neviim,
                    "Hos", "הו", 14)
    case _ => Book("Joel", "יואל", "𐤉𐤅𐤀𐤋", 16, Neviim,
                    "Joe", "יואל", 3)
  }

  function BooksFrom16(k: nat): Book
    requires 16 <= k < 24
  {
    match k
    case 16 => Book("Amos", "עמוס", "𐤏𐤌𐤅𐤎", 17, Neviim,
                    "Amo", "עמ", 9)
    case 17 => Book("Obadiah", "עובדיה", "𐤏𐤅𐤁𐤃𐤉𐤄", 18, Neviim,
                    "Oba", "עוב", 1)
    case 18 => Book("Jonah", "יונה", "𐤉𐤅𐤍𐤄", 19, Neviim,
                    "Jon", "יונה", 4)
    case 19 => Book("Micah", "מיכה", "𐤌𐤉𐤊𐤄", 20, Neviim,
                    "Mic", "מיכה", 7)
    case 20 => Book("Nahum", "נחום", "𐤍𐤇𐤅𐤌", 21, Neviim,
                    "Nah", "נח", 3)
    case 21 => Book("Habakkuk", "חבקוק", "𐤇𐤁𐤒𐤅𐤒", 22, Neviim,
                    "Hab", "חב", 3)
    case 22 => Book("Zephaniah", "צפניה", "𐤑𐤐𐤍𐤉𐤄", 23, Neviim,
                    "Zep", "צפ", 3)
    case _ => Book("Haggai", "חגי", "𐤇𐤂𐤉", 24, Neviim,
                    "Hag", "חג", 2)
  }

  function BooksFrom24(k: nat): Book
    requires 24 <= k < 32
  {
    match k
    case 24 => Book("Zechariah", "זכריה", "𐤆𐤊𐤓𐤉𐤄", 25, Neviim,
                    "Zec", "זכ", 14)
    case 25 => Book("Malachi", "מלאכי", "𐤌𐤋𐤀𐤊𐤉", 26, Neviim,
                    "Mal", "מלא", 4)
    case 26 => Book("Psalms", "תהלים", "𐤕𐤄𐤋𐤉𐤌", 27, Ketuvim,
                    "Psa", "תה", 150)
    case 27 => Book("Proverbs", "משלי", "𐤌𐤔𐤋𐤉", 28, Ketuvim,
                    "Pro", "משל", 31)
    case 28 => Book("Job", "איוב", "𐤀𐤉𐤅𐤁", 29, Ketuvim,
                    "Job", "איב", 42)
    case 29 => Book("Song of Songs", "שיר השירים", "𐤔𐤉𐤓 𐤄𐤔𐤉𐤓𐤉𐤌", 30, Ketuvim,
                    "Sng", "שיר", 8)
    case 30 => Book("Ruth", "רות", "𐤓𐤅𐤕", 31, Ketuvim,
                    "Rut", "רות", 4)
    case _ => Book("Lamentations", "איכה", "𐤀𐤉𐤊𐤄", 32, Ketuvim,
                    "Lam", "איכה", 5)
  }

  function BooksFrom32(k: nat): Book
    requires 32 <= k < BookCount
  {
    match k
    case 32 => Book("Ecclesiastes", "קהלת", "𐤒𐤄𐤋𐤕", 33, Ketuvim,
                    "Ecc", "קה", 12)
    case 33 => Book("Esther", "אסתר", "𐤀𐤎𐤕𐤓", 34, Ketuvim,
                    "Est", "אסת", 10)
    case 34 => Book("Daniel", "דניאל", "𐤃𐤍𐤉𐤀𐤋", 35, Ketuvim,
                    "Dan", "דני", 12)
    case 35 => Book("Ezra", "עזרא", "𐤏𐤆𐤓𐤀", 36, Ketuvim,
                    "Ezr", "עז", 10)
    case 36 => Book("Nehemiah", "נחמיה", "𐤍𐤇𐤌𐤉𐤄", 37, Ketuvim,
                    "Neh", "נח", 13)
    case 37 => Book("Chronicles I", "דברי הימים א", "𐤃𐤁𐤓𐤉 𐤄𐤉𐤌𐤉𐤌 𐤀", 38, Ketuvim,
                    "1Ch", "דהא", 29)
    case _ => Book("Chronicles II", "דברי הימים ב", "𐤃𐤁𐤓𐤉 𐤄𐤉𐤌𐤉𐤌 𐤁", 39, Ketuvim,
                    "2Ch", "דהב", 36)
  }

  /** HEBREW_BIBLE_BOOKS as a list. */
  function Books(): (bs: seq<Book>)
    ensures |bs| == BookCount
    ensures forall k :: 0 <= k < BookCount ==> bs[k] == BookAt(k)
  {
    seq(BookCount, k requires 0 <= k < BookCount => BookAt(k))
  }

  /** The section a position of the canon belongs to: five books of Torah,
      then twenty-one of Nevi'im, then thirteen of Ketuvim. */
  function SectionOfPosition(k: nat): Testament {
    if k < 5 then Torah else if k < 26 then Neviim else Ketuvim
  }

  // ---------------------------------------------------------------------
  // Order numbers and sections, chunk by chunk
  // ---------------------------------------------------------------------

  lemma PositionsFrom0(k: nat)
    requires 0 <= k < 8
    ensures BookAt(k).order == k + 1
    ensures BookAt(k).testament == SectionOfPosition(k)
  {
  }

  lemma PositionsFrom8(k: nat)
    requires 8 <= k < 16
    ensures BookAt(k).order == k + 1
    ensures BookAt(k).testament == SectionOfPosition(k)
  {
  }

  lemma PositionsFrom16(k: nat)
    requires 16 <= k < 24
    ensures BookAt(k).order == k + 1
    ensures BookAt(k).testament == SectionOfPosition(k)
  {
  }

  lemma PositionsFrom24(k: nat)
    requires 24 <= k < 32
    ensures BookAt(k).order == k + 1
    ensures BookAt(k).testament == SectionOfPosition(k)
  {
  }

  lemma PositionsFrom32(k: nat)
    requires 32 <= k < BookCount
    ensures BookAt(k).order == k + 1
    ensures BookAt(k).testament == SectionOfPosition(k)
  {
  }

  /** Each record's `order` is its 1-based position and its section is
      the one its position falls in. */
  lemma Position(k: nat)
    requires k < BookCount
    ensures BookAt(k).order == k + 1
    ensures BookAt(k).testament == SectionOfPosition(k)
  {
    if k < 8 {
      PositionsFrom0(k);
    } else if k < 16 {
      PositionsFrom8(k);
    } else if k < 24 {
      PositionsFrom16(k);
    } else if k < 32 {
      PositionsFrom24(k);
    } else {
      PositionsFrom32(k);
    }
  }

  /** The `order` fields are exactly 1..39, strictly increasing in list
      order. */
  lemma OrdersAreCanonical()
    ensures forall k :: 0 <= k < BookCount ==> Books()[k].order == k + 1
    ensures forall j, k :: 0 <= j < k < BookCount ==> Books()[j].order < Books()[k].order
  {
    forall k | 0 <= k < BookCount
      ensures Books()[k].order == k + 1
    {
      Position(k);
    }
  }

  // ---------------------------------------------------------------------
  // Distinct names
  // ---------------------------------------------------------------------

  lemma NameNew1()
    ensures forall j :: 0 <= j < 1 ==> BookAt(j).name != BookAt(1).name
  {
  }

  lemma NameNew2()
    ensures forall j :: 0 <= j < 2 ==> BookAt(j).name != BookAt(2).name
  {
  }

  lemma NameNew3()
    ensures forall j :: 0 <= j < 3 ==> BookAt(j).name != BookAt(3).name
  {
  }

  lemma NameNew4()
    ensures forall j :: 0 <= j < 4 ==> BookAt(j).name != BookAt(4).name
  {
  }

  lemma NameNew5()
    ensures forall j :: 0 <= j < 5 ==> BookAt(j).name != BookAt(5).name
  {
  }

  lemma NameNew6()
    ensures forall j :: 0 <= j < 6 ==> BookAt(j).name != BookAt(6).name
  {
  }

  lemma NameNew7()
    ensures forall j :: 0 <= j < 7 ==> BookAt(j).name != BookAt(7).name
  {
  }

  lemma NameNew8()
    ensures forall j :: 0 <= j < 8 ==> BookAt(j).name != BookAt(8).name
  {
  }

  lemma NameNew9()
    ensures forall j :: 0 <= j < 9 ==> BookAt(j).name != BookAt(9).name
  {
  }

  lemma NameNew10()
    ensures forall j :: 0 <= j < 10 ==> BookAt(j).name != BookAt(10).name
  {
  }

  lemma NameNew11()
    ensures forall j :: 0 <= j < 11 ==> BookAt(j).name != BookAt(11).name
  {
  }

  lemma NameNew12()
    ensures forall j :: 0 <= j < 12 ==> BookAt(j).name != BookAt(12).name
  {
  }

  lemma NameNew13()
    ensures forall j :: 0 <= j < 13 ==> BookAt(j).name != BookAt(13).name
  {
  }

  lemma NameNew14()
    ensures forall j :: 0 <= j < 14 ==> BookAt(j).name != BookAt(14).name
  {
  }

  lemma NameNew15()
    ensures forall j :: 0 <= j < 15 ==> BookAt(j).name != BookAt(15).name
  {
  }

  lemma NameNew16()
    ensures forall j :: 0 <= j < 16 ==> BookAt(j).name != BookAt(16).name
  {
  }

  lemma NameNew17()
    ensures forall j :: 0 <= j < 17 ==> BookAt(j).name != BookAt(17).name
  {
  }

  lemma NameNew18()
    ensures forall j :: 0 <= j < 18 ==> BookAt(j).name != BookAt(18).name
  {
  }

  lemma NameNew19()
    ensures forall j :: 0 <= j < 19 ==> BookAt(j).name != BookAt(19).name
  {
  }

  lemma NameNew20()
    ensures forall j :: 0 <= j < 20 ==> BookAt(j).name != BookAt(20).name
  {
  }

  lemma NameNew21()
    ensures forall j :: 0 <= j < 21 ==> BookAt(j).name != BookAt(21).name
  {
  }

  lemma NameNew22()
    ensures forall j :: 0 <= j < 22 ==> BookAt(j).name != BookAt(22).name
  {
  }

  lemma NameNew23()
    ensures forall j :: 0 <= j < 23 ==> BookAt(j).name != BookAt(23).name
  {
  }

  lemma NameNew24()
    ensures forall j :: 0 <= j < 24 ==> BookAt(j).name != BookAt(24).name
  {
  }

  lemma NameNew25()
    ensures forall j :: 0 <= j < 25 ==> BookAt(j).name != BookAt(25).name
  {
  }

  lemma NameNew26()
    ensures forall j :: 0 <= j < 26 ==> BookAt(j).name != BookAt(26).name
  {
  }

  lemma NameNew27()
    ensures forall j :: 0 <= j < 27 ==> BookAt(j).name != BookAt(27).name
  {
  }

  lemma NameNew28()
    ensures forall j :: 0 <= j < 28 ==> BookAt(j).name != BookAt(28).name
  {
  }

  lemma NameNew29()
    ensures forall j :: 0 <= j < 29 ==> BookAt(j).name != BookAt(29).name
  {
  }

  lemma NameNew30()
    ensures forall j :: 0 <= j < 30 ==> BookAt(j).name != BookAt(30).name
  {
  }

  lemma NameNew31()
    ensures forall j :: 0 <= j < 31 ==> BookAt(j).name != BookAt(31).name
  {
  }

  lemma NameNew32()
    ensures forall j :: 0 <= j < 32 ==> BookAt(j).name != BookAt(32).name
  {
  }

  lemma NameNew33()
    ensures forall j :: 0 <= j < 33 ==> BookAt(j).name != BookAt(33).name
  {
  }

  lemma NameNew34()
    ensures forall j :: 0 <= j < 34 ==> BookAt(j).name != BookAt(34).name
  {
  }

  lemma NameNew35()
    ensures forall j :: 0 <= j < 35 ==> BookAt(j).name != BookAt(35).name
  {
  }

  lemma NameNew36()
    ensures forall j :: 0 <= j < 36 ==> BookAt(j).name != BookAt(36).name
  {
  }

  lemma NameNew37()
    ensures forall j :: 0 <= j < 37 ==> BookAt(j).name != BookAt(37).name
  {
  }

  lemma NameNew38()
    ensures forall j :: 0 <= j < 38 ==> BookAt(j).name != BookAt(38).name
  {
  }

  /** No name appears earlier in the list than book `k`. */
  lemma NameNew(k: nat)
    requires k < BookCount
    ensures forall j :: 0 <= j < k ==> BookAt(j).name != BookAt(k).name
  {
    if k == 1 {
      NameNew1();
    } else if k == 2 {
      NameNew2();
    } else if k == 3 {
      NameNew3();
    } else if k == 4 {
      NameNew4();
    } else if k == 5 {
      NameNew5();
    } else if k == 6 {
      NameNew6();
    } else if k == 7 {
      NameNew7();
    } else if k == 8 {
      NameNew8();
    } else if k == 9 {
      NameNew9();
    } else if k == 10 {
      NameNew10();
    } else if k == 11 {
      NameNew11();
    } else if k == 12 {
      NameNew12();
    } else if k == 13 {
      NameNew13();
    } else if k == 14 {
      NameNew14();
    } else if k == 15 {
      NameNew15();
    } else if k == 16 {
      NameNew16();
    } else if k == 17 {
      NameNew17();
    } else if k == 18 {
      NameNew18();
    } else if k == 19 {
      NameNew19();
    } else if k == 20 {
      NameNew20();
    } else if k == 21 {
      NameNew21();
    } else if k == 22 {
      NameNew22();
    } else if k == 23 {
      NameNew23();
    } else if k == 24 {
      NameNew24();
    } else if k == 25 {
      NameNew25();
    } else if k == 26 {
      NameNew26();
    } else if k == 27 {
      NameNew27();
    } else if k == 28 {
      NameNew28();
    } else if k == 29 {
      NameNew29();
    } else if k == 30 {
      NameNew30();
    } else if k == 31 {
      NameNew31();
    } else if k == 32 {
      NameNew32();
    } else if k == 33 {
      NameNew33();
    } else if k == 34 {
      NameNew34();
    } else if k == 35 {
      NameNew35();
    } else if k == 36 {
      NameNew36();
    } else if k == 37 {
      NameNew37();
    } else if k == 38 {
      NameNew38();
    }
  }

  /** The 39 book names are distinct. */
  lemma NamesDistinct()
    ensures forall j, k :: 0 <= j < BookCount && 0 <= k < BookCount && j != k ==>
              Books()[j].name != Books()[k].name
  {
    forall j, k | 0 <= j < BookCount && 0 <= k < BookCount && j != k
      ensures Books()[j].name != Books()[k].name
    {
      if j < k {
        NameNew(k);
      } else {
        NameNew(j);
      }
    }
  }

  // ---------------------------------------------------------------------
  // Paleo names
  // ---------------------------------------------------------------------

  /** `g` is the glyph the conversion table gives character `c`. */
  predicate SpelledAs(c: char, g: char) {
    (IsHebrewLetter(c) || c == ' ') && GlyphOf(c) == g
  }

  /** A name is converted character by character. */
  lemma {:induction false} PaleoSpelling(h: string, p: string)
    requires |h| == |p|
    requires forall i :: 0 <= i < |h| ==> SpelledAs(h[i], p[i])
    ensures HebrewToPaleo(h) == p
    decreases |h|
  {
    if h != [] {
      assert h == [h[0]] + h[1..];
      HebrewToPaleoAppend([h[0]], h[1..]);
      if h[0] == ' ' {
        WhitespaceToSpace(' ');
      } else {
        LetterToGlyph(h[0]);
      }
      PaleoSpelling(h[1..], p[1..]);
    }
  }

  lemma PaleoName0(k: nat)
    requires k == 0
    ensures HebrewToPaleo(BookAt(k).hebrewName) == BookAt(k).paleoName
  {
    PaleoSpelling(BookAt(0).hebrewName, BookAt(0).paleoName);
  }

  lemma PaleoName1(k: nat)
    requires k == 1
    ensures HebrewToPaleo(BookAt(k).hebrewName) == BookAt(k).paleoName
  {
    PaleoSpelling(BookAt(1).hebrewName, BookAt(1).paleoName);
  }

  lemma PaleoName2(k: nat)
    requires k == 2
    ensures HebrewToPaleo(BookAt(k).hebrewName) == BookAt(k).paleoName
  {
    PaleoSpelling(BookAt(2).hebrewName, BookAt(2).paleoName);
  }

  lemma PaleoName3(k: nat)
    requires k == 3
    ensures HebrewToPaleo(BookAt(k).hebrewName) == BookAt(k).paleoName
  {
    PaleoSpelling(BookAt(3).hebrewName, BookAt(3).paleoName);
  }

  lemma PaleoName4(k: nat)
    requires k == 4
    ensures HebrewToPaleo(BookAt(k).hebrewName) == BookAt(k).paleoName
  {
    PaleoSpelling(BookAt(4).hebrewName, BookAt(4).paleoName);
  }

  lemma PaleoName5(k: nat)
    requires k == 5
    ensures HebrewToPaleo(BookAt(k).hebrewName) == BookAt(k).paleoName
  {
    PaleoSpelling(BookAt(5).hebrewName, BookAt(5).paleoName);
  }

  lemma PaleoName6(k: nat)
    requires k == 6
    ensures HebrewToPaleo(BookAt(k).hebrewName) == BookAt(k).paleoName
  {
    PaleoSpelling(BookAt(6).hebrewName, BookAt(6).paleoName);
  }

  lemma PaleoName7(k: nat)
    requires k == 7
    ensures HebrewToPaleo(BookAt(k).hebrewName) == BookAt(k).paleoName
  {
    PaleoSpelling(BookAt(7).hebrewName, BookAt(7).paleoName);
  }

  lemma PaleoName8(k: nat)
    requires k == 8
    ensures HebrewToPaleo(BookAt(k).hebrewName) == BookAt(k).paleoName
  {
    PaleoSpelling(BookAt(8).hebrewName, BookAt(8).paleoName);
  }

  lemma PaleoName9(k: nat)
    requires k == 9
    ensures HebrewToPaleo(BookAt(k).hebrewName) == BookAt(k).paleoName
  {
    PaleoSpelling(BookAt(9).hebrewName, BookAt(9).paleoName);
  }

  lemma PaleoName10(k: nat)
    requires k == 10
    ensures HebrewToPaleo(BookAt(k).hebrewName) == BookAt(k).paleoName
  {
    PaleoSpelling(BookAt(10).hebrewName, BookAt(10).paleoName);
  }

  lemma PaleoName11(k: nat)
    requires k == 11
    ensures HebrewToPaleo(BookAt(k).hebrewName) == BookAt(k).paleoName
  {
    PaleoSpelling(BookAt(11).hebrewName, BookAt(11).paleoName);
  }

  lemma PaleoName12(k: nat)
    requires k == 12
    ensures HebrewToPaleo(BookAt(k).hebrewName) == BookAt(k).paleoName
  {
    PaleoSpelling(BookAt(12).hebrewName, BookAt(12).paleoName);
  }

  lemma PaleoName13(k: nat)
    requires k == 13
    ensures HebrewToPaleo(BookAt(k).hebrewName) == BookAt(k).paleoName
  {
    PaleoSpelling(BookAt(13).hebrewName, BookAt(13).paleoName);
  }

  lemma PaleoName14(k: nat)
    requires k == 14
    ensures HebrewToPaleo(BookAt(k).hebrewName) == BookAt(k).paleoName
  {
    PaleoSpelling(BookAt(14).hebrewName, BookAt(14).paleoName);
  }

  lemma PaleoName15(k: nat)
    requires k == 15
    ensures HebrewToPaleo(BookAt(k).hebrewName) == BookAt(k).paleoName
  {
    PaleoSpelling(BookAt(15).hebrewName, BookAt(15).paleoName);
  }

  lemma PaleoName16(k: nat)
    requires k == 16
    ensures HebrewToPaleo(BookAt(k).hebrewName) == BookAt(k).paleoName
  {
    PaleoSpelling(BookAt(16).hebrewName, BookAt(16).paleoName);
  }

  lemma PaleoName17(k: nat)
    requires k == 17
    ensures HebrewToPaleo(BookAt(k).hebrewName) == BookAt(k).paleoName
  {
    PaleoSpelling(BookAt(17).hebrewName, BookAt(17).paleoName);
  }

  lemma PaleoName18(k: nat)
    requires k == 18
    ensures HebrewToPaleo(BookAt(k).hebrewName) == BookAt(k).paleoName
  {
    PaleoSpelling(BookAt(18).hebrewName, BookAt(18).paleoName);
  }

  lemma PaleoName19(k: nat)
    requires k == 19
    ensures HebrewToPaleo(BookAt(k).hebrewName) == BookAt(k).paleoName
  {
    PaleoSpelling(BookAt(19).hebrewName, BookAt(19).paleoName);
  }

  lemma PaleoName20(k: nat)
    requires k == 20
    ensures HebrewToPaleo(BookAt(k).hebrewName) == BookAt(k).paleoName
  {
    PaleoSpelling(BookAt(20).hebrewName, BookAt(20).paleoName);
  }

  lemma PaleoName21(k: nat)
    requires k == 21
    ensures HebrewToPaleo(BookAt(k).hebrewName) == BookAt(k).paleoName
  {
    PaleoSpelling(BookAt(21).hebrewName, BookAt(21).paleoName);
  }

  lemma PaleoName22(k: nat)
    requires k == 22
    ensures HebrewToPaleo(BookAt(k).hebrewName) == BookAt(k).paleoName
  {
    PaleoSpelling(BookAt(22).hebrewName, BookAt(22).paleoName);
  }

  lemma PaleoName23(k: nat)
    requires k == 23
    ensures HebrewToPaleo(BookAt(k).hebrewName) == BookAt(k).paleoName
  {
    PaleoSpelling(BookAt(23).hebrewName, BookAt(23).paleoName);
  }

  lemma PaleoName24(k: nat)
    requires k == 24
    ensures HebrewToPaleo(BookAt(k).hebrewName) == BookAt(k).paleoName
  {
    PaleoSpelling(BookAt(24).hebrewName, BookAt(24).paleoName);
  }

  lemma PaleoName25(k: nat)
    requires k == 25
    ensures HebrewToPaleo(BookAt(k).hebrewName) == BookAt(k).paleoName
  {
    PaleoSpelling(BookAt(25).hebrewName, BookAt(25).paleoName);
  }

  lemma PaleoName26(k: nat)
    requires k == 26
    ensures HebrewToPaleo(BookAt(k).hebrewName) == BookAt(k).paleoName
  {
    PaleoSpelling(BookAt(26).hebrewName, BookAt(26).paleoName);
  }

  lemma PaleoName27(k: nat)
    requires k == 27
    ensures HebrewToPaleo(BookAt(k).hebrewName) == BookAt(k).paleoName
  {
    PaleoSpelling(BookAt(27).hebrewName, BookAt(27).paleoName);
  }

  lemma PaleoName28(k: nat)
    requires k == 28
    ensures HebrewToPaleo(BookAt(k).hebrewName) == BookAt(k).paleoName
  {
    PaleoSpelling(BookAt(28).hebrewName, BookAt(28).paleoName);
  }

  lemma PaleoName29(k: nat)
    requires k == 29
    ensures HebrewToPaleo(BookAt(k).hebrewName) == BookAt(k).paleoName
  {
    PaleoSpelling(BookAt(29).hebrewName, BookAt(29).paleoName);
  }

  lemma PaleoName30(k: nat)
    requires k == 30
    ensures HebrewToPaleo(BookAt(k).hebrewName) == BookAt(k).paleoName
  {
    PaleoSpelling(BookAt(30).hebrewName, BookAt(30).paleoName);
  }

  lemma PaleoName31(k: nat)
    requires k == 31
    ensures HebrewToPaleo(BookAt(k).hebrewName) == BookAt(k).paleoName
  {
    PaleoSpelling(BookAt(31).hebrewName, BookAt(31).paleoName);
  }

  lemma PaleoName32(k: nat)
    requires k == 32
    ensures HebrewToPaleo(BookAt(k).hebrewName) == BookAt(k).paleoName
  {
    PaleoSpelling(BookAt(32).hebrewName, BookAt(32).paleoName);
  }

  lemma PaleoName33(k: nat)
    requires k == 33
    ensures HebrewToPaleo(BookAt(k).hebrewName) == BookAt(k).paleoName
  {
    PaleoSpelling(BookAt(33).hebrewName, BookAt(33).paleoName);
  }

  lemma PaleoName34(k: nat)
    requires k == 34
    ensures HebrewToPaleo(BookAt(k).hebrewName) == BookAt(k).paleoName
  {
    PaleoSpelling(BookAt(34).hebrewName, BookAt(34).paleoName);
  }

  lemma PaleoName35(k: nat)
    requires k == 35
    ensures HebrewToPaleo(BookAt(k).hebrewName) == BookAt(k).paleoName
  {
    PaleoSpelling(BookAt(35).hebrewName, BookAt(35).paleoName);
  }

  lemma PaleoName36(k: nat)
    requires k == 36
    ensures HebrewToPaleo(BookAt(k).hebrewName) == BookAt(k).paleoName
  {
    PaleoSpelling(BookAt(36).hebrewName, BookAt(36).paleoName);
  }

  lemma PaleoName37(k: nat)
    requires k == 37
    ensures HebrewToPaleo(BookAt(k).hebrewName) == BookAt(k).paleoName
  {
    PaleoSpelling(BookAt(37).hebrewName, BookAt(37).paleoName);
  }

  lemma PaleoName38(k: nat)
    requires k == 38
    ensures HebrewToPaleo(BookAt(k).hebrewName) == BookAt(k).paleoName
  {
    PaleoSpelling(BookAt(38).hebrewName, BookAt(38).paleoName);
  }

  lemma PaleoNamesFrom0(k: nat)
    requires 0 <= k < 8
    ensures HebrewToPaleo(BookAt(k).hebrewName) == BookAt(k).paleoName
  {
    if k == 0 {
      PaleoName0(k);
    } else if k == 1 {
      PaleoName1(k);
    } else if k == 2 {
      PaleoName2(k);
    } else if k == 3 {
      PaleoName3(k);
    } else if k == 4 {
      PaleoName4(k);
    } else if k == 5 {
      PaleoName5(k);
    } else if k == 6 {
      PaleoName6(k);
    } else {
      PaleoName7(k);
    }
  }

  lemma PaleoNamesFrom8(k: nat)
    requires 8 <= k < 16
    ensures HebrewToPaleo(BookAt(k).hebrewName) == BookAt(k).paleoName
  {
    if k == 8 {
      PaleoName8(k);
    } else if k == 9 {
      PaleoName9(k);
    } else if k == 10 {
      PaleoName10(k);
    } else if k == 11 {
      PaleoName11(k);
    } else if k == 12 {
      PaleoName12(k);
    } else if k == 13 {
      PaleoName13(k);
    } else if k == 14 {
      PaleoName14(k);
    } else {
      PaleoName15(k);
    }
  }

  lemma PaleoNamesFrom16(k: nat)
    requires 16 <= k < 24
    ensures HebrewToPaleo(BookAt(k).hebrewName) == BookAt(k).paleoName
  {
    if k == 16 {
      PaleoName16(k);
    } else if k == 17 {
      PaleoName17(k);
    } else if k == 18 {
      PaleoName18(k);
    } else if k == 19 {
      PaleoName19(k);
    } else if k == 20 {
      PaleoName20(k);
    } else if k == 21 {
      PaleoName21(k);
    } else if k == 22 {
      PaleoName22(k);
    } else {
      PaleoName23(k);
    }
  }

  lemma PaleoNamesFrom24(k: nat)
    requires 24 <= k < 32
    ensures HebrewToPaleo(BookAt(k).hebrewName) == BookAt(k).paleoName
  {
    if k == 24 {
      PaleoName24(k);
    } else if k == 25 {
      PaleoName25(k);
    } else if k == 26 {
      PaleoName26(k);
    } else if k == 27 {
      PaleoName27(k);
    } else if k == 28 {
      PaleoName28(k);
    } else if k == 29 {
      PaleoName29(k);
    } else if k == 30 {
      PaleoName30(k);
    } else {
      PaleoName31(k);
    }
  }

  lemma PaleoNamesFrom32(k: nat)
    requires 32 <= k < BookCount
    ensures HebrewToPaleo(BookAt(k).hebrewName) == BookAt(k).paleoName
  {
    if k == 32 {
      PaleoName32(k);
    } else if k == 33 {
      PaleoName33(k);
    } else if k == 34 {
      PaleoName34(k);
    } else if k == 35 {
      PaleoName35(k);
    } else if k == 36 {
      PaleoName36(k);
    } else if k == 37 {
      PaleoName37(k);
    } else {
      PaleoName38(k);
    }
  }

  /** Every `paleo_name` is the Paleo conversion of its `hebrew_name`. */
  lemma PaleoNameIsConverted(k: nat)
    requires k < BookCount
    ensures HebrewToPaleo(BookAt(k).hebrewName) == BookAt(k).paleoName
  {
    if k < 8 {
      PaleoNamesFrom0(k);
    } else if k < 16 {
      PaleoNamesFrom8(k);
    } else if k < 24 {
      PaleoNamesFrom16(k);
    } else if k < 32 {
      PaleoNamesFrom24(k);
    } else {
      PaleoNamesFrom32(k);
    }
  }

  // ---------------------------------------------------------------------
  // Chapters
  // ---------------------------------------------------------------------

  /** The chapters of the books from position `k` on. */
  function ChaptersFrom(k: nat): int
    requires k <= BookCount
    decreases BookCount - k
  {
    if k == BookCount then 0 else BookAt(k).chapters + ChaptersFrom(k + 1)
  }

  /** TOTAL_CHAPTERS */
  function TotalChapters(): int {
    ChaptersFrom(0)
  }

  lemma ChapterSum0()
    ensures ChaptersFrom(0) == 263 + ChaptersFrom(8)
  {
    assert BookAt(0).chapters == 50;
    assert BookAt(1).chapters == 40;
    assert BookAt(2).chapters == 27;
    assert BookAt(3).chapters == 36;
    assert BookAt(4).chapters == 34;
    assert BookAt(5).chapters == 24;
    assert BookAt(6).chapters == 21;
    assert BookAt(7).chapters == 31;
    assert ChaptersFrom(7) == 31 + ChaptersFrom(8);
    assert ChaptersFrom(6) == 52 + ChaptersFrom(8);
    assert ChaptersFrom(5) == 76 + ChaptersFrom(8);
    assert ChaptersFrom(4) == 110 + ChaptersFrom(8);
    assert ChaptersFrom(3) == 146 + ChaptersFrom(8);
    assert ChaptersFrom(2) == 173 + ChaptersFrom(8);
    assert ChaptersFrom(1) == 213 + ChaptersFrom(8);
    assert ChaptersFrom(0) == 263 + ChaptersFrom(8);
  }

  lemma ChapterSum8()
    ensures ChaptersFrom(8) == 254 + ChaptersFrom(16)
  {
    assert BookAt(8).chapters == 24;
    assert BookAt(9).chapters == 22;
    assert BookAt(10).chapters == 25;
    assert BookAt(11).chapters == 66;
    assert BookAt(12).chapters == 52;
    assert BookAt(13).chapters == 48;
    assert BookAt(14).chapters == 14;
    assert BookAt(15).chapters == 3;
    assert ChaptersFrom(15) == 3 + ChaptersFrom(16);
    assert ChaptersFrom(14) == 17 + ChaptersFrom(16);
    assert ChaptersFrom(13) == 65 + ChaptersFrom(16);
    assert ChaptersFrom(12) == 117 + ChaptersFrom(16);
    assert ChaptersFrom(11) == 183 + ChaptersFrom(16);
    assert ChaptersFrom(10) == 208 + ChaptersFrom(16);
    assert ChaptersFrom(9) == 230 + ChaptersFrom(16);
    assert ChaptersFrom(8) == 254 + ChaptersFrom(16);
  }

  lemma ChapterSum16()
    ensures ChaptersFrom(16) == 32 + ChaptersFrom(24)
  {
    assert BookAt(16).chapters == 9;
    assert BookAt(17).chapters == 1;
    assert BookAt(18).chapters == 4;
    assert BookAt(19).chapters == 7;
    assert BookAt(20).chapters == 3;
    assert BookAt(21).chapters == 3;
    assert BookAt(22).chapters == 3;
    assert BookAt(23).chapters == 2;
    assert ChaptersFrom(23) == 2 + ChaptersFrom(24);
    assert ChaptersFrom(22) == 5 + ChaptersFrom(24);
    assert ChaptersFrom(21) == 8 + ChaptersFrom(24);
    assert ChaptersFrom(20) == 11 + ChaptersFrom(24);
    assert ChaptersFrom(19) == 18 + ChaptersFrom(24);
    assert ChaptersFrom(18) == 22 + ChaptersFrom(24);
    assert ChaptersFrom(17) == 23 + ChaptersFrom(24);
    assert ChaptersFrom(16) == 32 + ChaptersFrom(24);
  }

  lemma ChapterSum24()
    ensures ChaptersFrom(24) == 258 + ChaptersFrom(32)
  {
    assert BookAt(24).chapters == 14;
    assert BookAt(25).chapters == 4;
    assert BookAt(26).chapters == 150;
    assert BookAt(27).chapters == 31;
    assert BookAt(28).chapters == 42;
    assert BookAt(29).chapters == 8;
    assert BookAt(30).chapters == 4;
    assert BookAt(31).chapters == 5;
    assert ChaptersFrom(31) == 5 + ChaptersFrom(32);
    assert ChaptersFrom(30) == 9 + ChaptersFrom(32);
    assert ChaptersFrom(29) == 17 + ChaptersFrom(32);
    assert ChaptersFrom(28) == 59 + ChaptersFrom(32);
    assert ChaptersFrom(27) == 90 + ChaptersFrom(32);
    assert ChaptersFrom(26) == 240 + ChaptersFrom(32);
    assert ChaptersFrom(25) == 244 + ChaptersFrom(32);
    assert ChaptersFrom(24) == 258 + ChaptersFrom(32);
  }

  lemma ChapterSum32()
    ensures ChaptersFrom(32) == 122 + ChaptersFrom(BookCount)
  {
    assert BookAt(32).chapters == 12;
    assert BookAt(33).chapters == 10;
    assert BookAt(34).chapters == 12;
    assert BookAt(35).chapters == 10;
    assert BookAt(36).chapters == 13;
    assert BookAt(37).chapters == 29;
    assert BookAt(38).chapters == 36;
    assert ChaptersFrom(38) == 36 + ChaptersFrom(BookCount);
    assert ChaptersFrom(37) == 65 + ChaptersFrom(BookCount);
    assert ChaptersFrom(36) == 78 + ChaptersFrom(BookCount);
    assert ChaptersFrom(35) == 88 + ChaptersFrom(BookCount);
    assert ChaptersFrom(34) == 100 + ChaptersFrom(BookCount);
    assert ChaptersFrom(33) == 110 + ChaptersFrom(BookCount);
    assert ChaptersFrom(32) == 122 + ChaptersFrom(BookCount);
  }

  /** The canon has 929 chapters. */
  lemma TotalIs929()
    ensures TotalChapters() == 929
  {
    ChapterSum0();
    ChapterSum8();
    ChapterSum16();
    ChapterSum24();
    ChapterSum32();
  }
  // ---------------------------------------------------------------------
  // TESTAMENT_INFO
  // ---------------------------------------------------------------------

  /** One entry of TESTAMENT_INFO. */
  datatype SectionInfo = SectionInfo(hebrewName: string, paleoName: string, description: string, books: int)

  function TestamentInfo(t: Testament): SectionInfo {
    match t
    case Torah => SectionInfo("תורה", "𐤕𐤅𐤓𐤄", "The Five Books of Moses - Law", 5)
    case Neviim => SectionInfo("נביאים", "𐤍𐤁𐤉𐤀𐤉𐤌", "Prophets - Former and Latter", 21)
    case Ketuvim => SectionInfo("כתובים", "𐤊𐤕𐤅𐤁𐤉𐤌", "Writings - Wisdom and Historical", 13)
  }

  /** The section names are converted like the book names. */
  lemma SectionPaleoNames(t: Testament)
    ensures HebrewToPaleo(TestamentInfo(t).hebrewName) == TestamentInfo(t).paleoName
  {
    PaleoSpelling(TestamentInfo(t).hebrewName, TestamentInfo(t).paleoName);
  }

  /** How many of the first `n` books belong to section `t`. */
  function CountInSection(t: Testament, n: nat): nat
    requires n <= BookCount
  {
    if n == 0 then 0
    else CountInSection(t, n - 1) + (if BookAt(n - 1).testament == t then 1 else 0)
  }

  /** Where each section starts and ends in the list. */
  function SectionStart(t: Testament): nat {
    match t
    case Torah => 0
    case Neviim => 5
    case Ketuvim => 26
  }

  function SectionEnd(t: Testament): nat {
    match t
    case Torah => 5
    case Neviim => 26
    case Ketuvim => BookCount
  }

  /** The books of a section among the first `n`: those positions in
      [start, end) below `n`. */
  lemma {:induction false} CountClosedForm(t: Testament, n: nat)
    requires n <= BookCount
    ensures CountInSection(t, n) ==
              if n <= SectionStart(t) then 0
              else if n <= SectionEnd(t) then n - SectionStart(t)
              else SectionEnd(t) - SectionStart(t)
  {
    if n > 0 {
      CountClosedForm(t, n - 1);
      Position(n - 1);
    }
  }

  /** The `books` count of each TESTAMENT_INFO entry is the number of
      records of that section: 5, 21 and 13, 39 in all. */
  lemma SectionCountsAgree(t: Testament)
    ensures CountInSection(t, BookCount) == TestamentInfo(t).books
    ensures TestamentInfo(Torah).books + TestamentInfo(Neviim).books + TestamentInfo(Ketuvim).books == BookCount
  {
    CountClosedForm(t, BookCount);
  }
}
