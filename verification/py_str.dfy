/** Python `str` semantics used by every text transform of the application:
    `isspace`, `strip`, `split()`, `' '.join`, `replace`, the `in` operator,
    and ASCII `lower`/`title`. Strings are sequences of Unicode scalars, as
    Python 3 strings are. */
module PyStr {

  datatype Option<T> = None | Some(value: T)

  /** Python's `str.isspace()` for a single character: the Unicode characters
      of category Zs or bidirectional class WS, B or S. */
  predicate IsSpace(c: char) {
    || c == ' '
    || ('\t' <= c <= '\r')
    || ('\U{1C}' <= c <= '\U{1F}')
    || c == '\U{85}'
    || c == '\U{A0}'
    || c == '\U{1680}'
    || ('\U{2000}' <= c <= '\U{200A}')
    || c == '\U{2028}'
    || c == '\U{2029}'
    || c == '\U{202F}'
    || c == '\U{205F}'
    || c == '\U{3000}'
  }

  predicate NoSpace(s: string) {
    forall i :: 0 <= i < |s| ==> !IsSpace(s[i])
  }

  /** A string that `strip()` leaves alone. */
  predicate Stripped(s: string) {
    s == [] || (!IsSpace(s[0]) && !IsSpace(s[|s| - 1]))
  }

  /** `s.lstrip()` */
  function LStrip(s: string): (r: string)
    ensures |r| <= |s| && r == s[|s| - |r|..]
    ensures forall i :: 0 <= i < |s| - |r| ==> IsSpace(s[i])
    ensures r == [] || !IsSpace(r[0])
  {
    if s == [] || !IsSpace(s[0]) then s else LStrip(s[1..])
  }

  /** `s.rstrip()` */
  function RStrip(s: string): (r: string)
    ensures |r| <= |s| && r == s[..|r|]
    ensures forall i :: |r| <= i < |s| ==> IsSpace(s[i])
    ensures r == [] || !IsSpace(r[|r| - 1])
  {
    if s == [] || !IsSpace(s[|s| - 1]) then s else RStrip(s[..|s| - 1])
  }

  /** Where the text `strip()` keeps begins. */
  function StripStart(s: string): nat {
    |s| - |LStrip(s)|
  }

  /** `s.strip()`: the result is `s` with its leading and trailing whitespace
      cut off; it is a contiguous piece of `s`. */
  function Strip(s: string): (r: string)
    ensures Stripped(r)
    ensures StripStart(s) + |r| <= |s|
    ensures r == s[StripStart(s)..StripStart(s) + |r|]
  {
    var l := LStrip(s);
    var r := RStrip(l);
    StripPiece(s, l, r);
    r
  }

  lemma StripPiece(s: string, l: string, r: string)
    requires |l| <= |s| && l == s[|s| - |l|..]
    requires |r| <= |l| && r == l[..|r|]
    ensures r == s[|s| - |l|..|s| - |l| + |r|]
  {
  }

  /** Each character `strip()` keeps is the input's character at the same
      place past the cut. */
  lemma StripChar(s: string, i: nat)
    requires i < |Strip(s)|
    ensures StripStart(s) + i < |s| && Strip(s)[i] == s[StripStart(s) + i]
  {
    var d := StripStart(s);
    assert Strip(s)[i] == s[d..d + |Strip(s)|][i];
  }

  lemma StripOfStripped(s: string)
    requires Stripped(s)
    ensures Strip(s) == s
  {
  }

  lemma StripOfAllSpace(s: string)
    requires forall i :: 0 <= i < |s| ==> IsSpace(s[i])
    ensures Strip(s) == []
  {
  }

  /** The longest prefix of `s` without whitespace. */
  function TakeWord(s: string): (w: string)
    ensures |w| <= |s| && w == s[..|w|] && NoSpace(w)
    ensures |w| == |s| || IsSpace(s[|w|])
  {
    if s == [] || IsSpace(s[0]) then [] else [s[0]] + TakeWord(s[1..])
  }

  /** `s.split()` with no separator: the maximal runs of non-whitespace, in order. */
  function Split(s: string): (ws: seq<string>)
    ensures forall k :: 0 <= k < |ws| ==> ws[k] != [] && NoSpace(ws[k])
    decreases |s|
  {
    if s == [] then []
    else if IsSpace(s[0]) then Split(s[1..])
    else
      var w := TakeWord(s);
      [w] + Split(s[|w|..])
  }

  lemma SplitEmpty()
    ensures Split("") == []
  {
  }

  /** A string without whitespace splits into itself (or into nothing if empty). */
  lemma SplitOfWord(w: string)
    requires w != [] && NoSpace(w)
    ensures Split(w) == [w]
  {
    assert TakeWord(w) == w by { TakeWordOfNoSpace(w); }
  }

  lemma TakeWordOfNoSpace(w: string)
    requires NoSpace(w)
    ensures TakeWord(w) == w
  {
    if w != [] {
      TakeWordOfNoSpace(w[1..]);
    }
  }

  /** `p` occurring in a suffix of `s` occurs in `s`. */
  lemma OccursInSuffix(s: string, d: nat, p: string)
    requires d <= |s| && Occurs(s[d..], p)
    ensures Occurs(s, p)
  {
    var i :| 0 <= i <= |s[d..]| - |p| && OccursAt(s[d..], p, i);
    assert s[i + d..i + d + |p|] == s[d..][i..i + |p|];
    assert OccursAt(s, p, i + d);
  }

  /** Every word `split()` returns is a substring of the input. */
  lemma {:induction false} SplitWordsOccur(s: string)
    ensures forall k :: 0 <= k < |Split(s)| ==> Occurs(s, Split(s)[k])
    decreases |s|
  {
    if s == [] {
    } else if IsSpace(s[0]) {
      SplitWordsOccur(s[1..]);
      assert Split(s) == Split(s[1..]);
      forall k | 0 <= k < |Split(s)|
        ensures Occurs(s, Split(s)[k])
      {
        OccursInSuffix(s, 1, Split(s)[k]);
      }
    } else {
      var w := TakeWord(s);
      var rest := Split(s[|w|..]);
      SplitWordsOccur(s[|w|..]);
      assert Split(s) == [w] + rest;
      assert OccursAt(s, w, 0);
      forall k | 0 <= k < |Split(s)|
        ensures Occurs(s, Split(s)[k])
      {
        if k > 0 {
          assert Split(s)[k] == rest[k - 1];
          OccursInSuffix(s, |w|, rest[k - 1]);
        }
      }
    }
  }

  /** `sep.join(ws)` */
  function Join(sep: string, ws: seq<string>): (r: string)
    ensures |ws| == 1 ==> r == ws[0]
    decreases |ws|
  {
    if ws == [] then []
    else if |ws| == 1 then ws[0]
    else ws[0] + sep + Join(sep, ws[1..])
  }

  /** Joining space-free, non-empty words with one space gives a stripped
      string without runs of two spaces. */
  lemma {:induction false} JoinWordsStripped(ws: seq<string>)
    requires forall k :: 0 <= k < |ws| ==> ws[k] != [] && NoSpace(ws[k])
    ensures Stripped(Join(" ", ws))
    ensures |ws| > 0 ==> |Join(" ", ws)| > 0 && Join(" ", ws)[0] == ws[0][0]
    ensures |ws| > 0 ==> |Join(" ", ws)| > 0 && Join(" ", ws)[|Join(" ", ws)| - 1] == ws[|ws| - 1][|ws[|ws| - 1]| - 1]
    ensures !Occurs(Join(" ", ws), "  ")
  {
    if |ws| <= 1 {
      if |ws| == 1 { NoSpaceNoDoubleSpace(ws[0]); }
    } else {
      JoinWordsStripped(ws[1..]);
      var tail := Join(" ", ws[1..]);
      var r := ws[0] + " " + tail;
      assert Join(" ", ws) == r;
      assert r[0] == ws[0][0];
      assert r[|r| - 1] == tail[|tail| - 1];
      NoSpaceNoDoubleSpace(ws[0]);
      forall i | 0 <= i <= |r| - 2
        ensures !OccursAt(r, "  ", i)
      {
        if i < |ws[0]| {
          assert r[i] == ws[0][i];
          assert r[i..i + 2][0] == r[i];
        } else if i == |ws[0]| {
          assert r[i + 1] == tail[0];
          assert r[i..i + 2][1] == r[i + 1];
        } else {
          var k := i - |ws[0]| - 1;
          assert r[i..i + 2] == tail[k..k + 2];
          assert !OccursAt(tail, "  ", k);
        }
      }
    }
  }

  /** The only whitespace a string holds is the plain space U+0020. */
  predicate PlainSpacesOnly(s: string) {
    forall i :: 0 <= i < |s| ==> IsSpace(s[i]) ==> s[i] == ' '
  }

  /** Joining space-free words with one space leaves the plain space as the
      only whitespace. */
  lemma {:induction false} JoinPlainSpaces(ws: seq<string>)
    requires forall k :: 0 <= k < |ws| ==> NoSpace(ws[k])
    ensures PlainSpacesOnly(Join(" ", ws))
    decreases |ws|
  {
    if |ws| > 1 {
      JoinPlainSpaces(ws[1..]);
      var tail := Join(" ", ws[1..]);
      var r := ws[0] + " " + tail;
      assert Join(" ", ws) == r;
      forall i | 0 <= i < |r|
        ensures IsSpace(r[i]) ==> r[i] == ' '
      {
        if i < |ws[0]| {
          assert r[i] == ws[0][i];
        } else if i > |ws[0]| {
          assert r[i] == tail[i - |ws[0]| - 1];
        }
      }
    }
  }

  lemma {:induction false} TakeWordPrefix(w: string, t: string)
    requires NoSpace(w) && (t == [] || IsSpace(t[0]))
    ensures TakeWord(w + t) == w
    decreases |w|
  {
    if w == [] {
      assert w + t == t;
    } else {
      assert (w + t)[1..] == w[1..] + t;
      TakeWordPrefix(w[1..], t);
    }
  }

  /** `split()` undoes `' '.join` on non-empty words without whitespace. */
  lemma {:induction false} SplitJoin(ws: seq<string>)
    requires forall k :: 0 <= k < |ws| ==> ws[k] != [] && NoSpace(ws[k])
    ensures Split(Join(" ", ws)) == ws
    decreases |ws|
  {
    if |ws| == 1 {
      SplitOfWord(ws[0]);
    } else if |ws| > 1 {
      var w := ws[0];
      var tail := Join(" ", ws[1..]);
      var r := w + (" " + tail);
      assert Join(" ", ws) == r;
      TakeWordPrefix(w, " " + tail);
      assert r[|w|..] == " " + tail;
      assert (" " + tail)[1..] == tail;
      SplitJoin(ws[1..]);
      assert Split(r) == [w] + ws[1..];
    }
  }

  lemma NoSpaceNoDoubleSpace(w: string)
    requires NoSpace(w)
    ensures !Occurs(w, "  ")
  {
    forall i | 0 <= i <= |w| - 2
      ensures !OccursAt(w, "  ", i)
    {
      assert w[i..i + 2][0] == w[i];
    }
  }

  /** Python's `p in s` for strings: `p` occurs in `s` at some offset. The empty
      string occurs in every string. */
  predicate Occurs(s: string, p: string) {
    exists i | 0 <= i <= |s| - |p| :: OccursAt(s, p, i)
  }

  /** `p` occurs in `s` starting at offset `i`. */
  predicate OccursAt(s: string, p: string, i: int) {
    0 <= i <= |s| - |p| && s[i..i + |p|] == p
  }

  /** Python's `s.replace(p, r)`: every non-overlapping occurrence of `p`,
      scanning from the left, is replaced by `r`. For an empty `p`, Python puts
      `r` before every character and at the end. */
  function ReplaceAll(s: string, p: string, r: string): (t: string)
    decreases |s|
  {
    if p == [] then
      if s == [] then r else r + [s[0]] + ReplaceAll(s[1..], p, r)
    else if |s| < |p| then s
    else if s[..|p|] == p then r + ReplaceAll(s[|p|..], p, r)
    else [s[0]] + ReplaceAll(s[1..], p, r)
  }

  /** Replacing a pattern that does not occur changes nothing. */
  lemma {:induction false} ReplaceAbsent(s: string, p: string, r: string)
    requires !Occurs(s, p)
    ensures ReplaceAll(s, p, r) == s
    decreases |s|
  {
    if p == [] {
      assert OccursAt(s, p, 0);
    } else if |s| < |p| {
    } else {
      assert !OccursAt(s, p, 0);
      assert !Occurs(s[1..], p) by {
        forall i | 0 <= i <= |s[1..]| - |p|
          ensures !OccursAt(s[1..], p, i)
        {
          assert s[1..][i..i + |p|] == s[i + 1..i + 1 + |p|];
          assert !OccursAt(s, p, i + 1);
        }
      }
      ReplaceAbsent(s[1..], p, r);
    }
  }

  /** Replacing a non-empty pattern by itself changes nothing. */
  lemma {:induction false} ReplaceBySelf(s: string, p: string)
    requires p != []
    ensures ReplaceAll(s, p, p) == s
    decreases |s|
  {
    if |s| < |p| {
    } else if s[..|p|] == p {
      ReplaceBySelf(s[|p|..], p);
      assert s == p + s[|p|..];
    } else {
      ReplaceBySelf(s[1..], p);
      assert s == [s[0]] + s[1..];
    }
  }

  /** Every occurrence of `q` contains an occurrence of each substring of `q`. */
  lemma OccursTransitive(s: string, q: string, p: string)
    requires Occurs(s, q) && Occurs(q, p)
    ensures Occurs(s, p)
  {
    var i :| 0 <= i <= |s| - |q| && OccursAt(s, q, i);
    var j :| 0 <= j <= |q| - |p| && OccursAt(q, p, j);
    forall k | 0 <= k < |p|
      ensures s[i + j..i + j + |p|][k] == p[k]
    {
      assert s[i + j + k] == s[i..i + |q|][j + k] == q[j + k] == q[j..j + |p|][k];
    }
    assert OccursAt(s, p, i + j);
  }

  /** ASCII case mapping: `str.lower()` on the ASCII letters. */
  function LowerChar(c: char): char {
    if 'A' <= c <= 'Z' then (c as int + 32) as char else c
  }

  function UpperChar(c: char): char {
    if 'a' <= c <= 'z' then (c as int - 32) as char else c
  }

  predicate IsCased(c: char) {
    ('A' <= c <= 'Z') || ('a' <= c <= 'z')
  }

  /** `s.lower()` */
  function Lower(s: string): (r: string)
    ensures |r| == |s|
    ensures forall i :: 0 <= i < |s| ==> r[i] == LowerChar(s[i])
  {
    seq(|s|, i requires 0 <= i < |s| => LowerChar(s[i]))
  }

  /** `s.title()`: a cased character is upper-cased when the character before it
      is not cased, and lower-cased otherwise. */
  function Title(s: string): (r: string)
    ensures |r| == |s|
    ensures forall i :: 0 <= i < |s| ==>
      r[i] == if i > 0 && IsCased(s[i - 1]) then LowerChar(s[i]) else UpperChar(s[i])
  {
    seq(|s|, i requires 0 <= i < |s| =>
      if i > 0 && IsCased(s[i - 1]) then LowerChar(s[i]) else UpperChar(s[i]))
  }

  /** Lower-casing twice is lower-casing once. */
  lemma LowerIdempotent(s: string)
    ensures Lower(Lower(s)) == Lower(s)
  {
  }

  /** Title case ignores the case the input was written in. */
  lemma TitleOfLower(s: string)
    ensures Title(Lower(s)) == Title(s)
  {
  }

  /** Keep the characters satisfying `keep`, in order. */
  function Filter(s: string, keep: char -> bool): (r: string)
    ensures |r| <= |s|
    ensures forall i :: 0 <= i < |r| ==> keep(r[i])
    decreases |s|
  {
    if s == [] then [] else (if keep(s[0]) then [s[0]] else []) + Filter(s[1..], keep)
  }

  lemma FilterAppend(a: string, b: string, keep: char -> bool)
    ensures Filter(a + b, keep) == Filter(a, keep) + Filter(b, keep)
    decreases |a|
  {
    if a == [] {
      assert a + b == b;
    } else {
      assert (a + b)[1..] == a[1..] + b;
      FilterAppend(a[1..], b, keep);
    }
  }

  lemma FilterKeepsAll(s: string, keep: char -> bool)
    requires forall i :: 0 <= i < |s| ==> keep(s[i])
    ensures Filter(s, keep) == s
    decreases |s|
  {
    if s != [] {
      FilterKeepsAll(s[1..], keep);
    }
  }

  /** `table.get(c, c)` for a table from characters to strings. */
  function SoundOr(m: map<char, string>, c: char): (r: string)
    ensures c !in m ==> r == [c]
  {
    if c in m then m[c] else [c]
  }

  /** `"".join(table.get(c, c) for c in s)`: every character replaced by its
      table entry, unmapped ones kept. */
  function CharMap(m: map<char, string>, s: string): string
    decreases |s|
  {
    if s == [] then "" else SoundOr(m, s[0]) + CharMap(m, s[1..])
  }

  lemma {:induction false} CharMapAppend(m: map<char, string>, a: string, b: string)
    ensures CharMap(m, a + b) == CharMap(m, a) + CharMap(m, b)
    decreases |a|
  {
    if a == [] {
      assert a + b == b;
    } else {
      assert (a + b)[0] == a[0];
      assert (a + b)[1..] == a[1..] + b;
      CharMapAppend(m, a[1..], b);
    }
  }

  /** Text none of whose characters is a key comes through unchanged. */
  lemma {:induction false} CharMapUnmapped(m: map<char, string>, s: string)
    requires forall i :: 0 <= i < |s| ==> s[i] !in m
    ensures CharMap(m, s) == s
    decreases |s|
  {
    if s != [] {
      CharMapUnmapped(m, s[1..]);
    }
  }
}
