/** An ordered substitution pass over a table of (pattern, replacement) pairs:
    for each pair in table order, if the pattern occurs in the current text,
    every occurrence is replaced. Both the ancient-pronunciation transliterator
    and the TTS vowel reconstruction work this way.

    When every pattern is written in one alphabet (say Hebrew letters) and
    every replacement in another (Latin), a pass can never recreate a pattern
    it has removed; so a later pattern that contains an earlier one can never
    fire. */
module ReplacePass {
  import opened PyStr

  type Table = seq<(string, string)>

  /** `table[w]` for a table of (key, value) pairs: the first entry from
      position `i` on whose key is `w`. */
  function PatternFrom(t: Table, w: string, i: nat): (r: Option<string>)
    requires i <= |t|
    ensures r.None? <==> forall k :: i <= k < |t| ==> t[k].0 != w
    ensures r.Some? ==> exists k :: i <= k < |t| && t[k].0 == w && t[k].1 == r.value
    decreases |t| - i
  {
    if i == |t| then None
    else if t[i].0 == w then Some(t[i].1)
    else PatternFrom(t, w, i + 1)
  }

  function PatternFor(t: Table, w: string): Option<string> {
    PatternFrom(t, w, 0)
  }

  /** One table entry applied to the text, guarded by `pattern in text`. */
  function Step(s: string, entry: (string, string)): string {
    if Occurs(s, entry.0) then ReplaceAll(s, entry.0, entry.1) else s
  }

  /** The entries applied in table order. */
  function Apply(t: Table, s: string): string
    decreases |t|
  {
    if t == [] then s else Step(Apply(t[..|t| - 1], s), t[|t| - 1])
  }

  predicate AllIn(s: string, h: char -> bool) {
    forall k :: 0 <= k < |s| ==> h(s[k])
  }

  predicate NoneIn(s: string, h: char -> bool) {
    forall k :: 0 <= k < |s| ==> !h(s[k])
  }

  /** Every pattern is a non-empty word over `h`; every replacement is a
      non-empty word over the complement of `h`. */
  predicate Separated(t: Table, h: char -> bool) {
    forall k :: 0 <= k < |t| ==>
      t[k].0 != [] && AllIn(t[k].0, h) && t[k].1 != [] && NoneIn(t[k].1, h)
  }

  /** A table over text that contains none of its patterns changes nothing. */
  lemma {:induction false} ApplyNoPattern(t: Table, s: string)
    requires forall k :: 0 <= k < |t| ==> !Occurs(s, t[k].0)
    ensures Apply(t, s) == s
    decreases |t|
  {
    if t != [] {
      ApplyNoPattern(t[..|t| - 1], s);
    }
  }

  /** Text without any `h` character holds none of a separated table's
      patterns, so the pass leaves it alone. */
  lemma ForeignTextUnchanged(t: Table, h: char -> bool, s: string)
    requires Separated(t, h) && NoneIn(s, h)
    ensures Apply(t, s) == s
  {
    forall k | 0 <= k < |t|
      ensures !Occurs(s, t[k].0)
    {
      forall i | 0 <= i <= |s| - |t[k].0|
        ensures !OccursAt(s, t[k].0, i)
      {
        assert s[i..i + |t[k].0|][0] == s[i];
      }
    }
    ApplyNoPattern(t, s);
  }

  /** No two neighbouring characters of `s` are both `h` characters. */
  predicate NoAdjacent(s: string, h: char -> bool) {
    forall i :: 0 <= i < |s| - 1 ==> !h(s[i]) || !h(s[i + 1])
  }

  /** Text in which `h` characters never stand next to each other holds no
      pattern of two or more `h` characters, so the pass leaves it alone. */
  lemma SparseTextUnchanged(t: Table, h: char -> bool, s: string)
    requires Separated(t, h) && NoAdjacent(s, h)
    requires forall k :: 0 <= k < |t| ==> |t[k].0| >= 2
    ensures Apply(t, s) == s
  {
    forall k | 0 <= k < |t|
      ensures !Occurs(s, t[k].0)
    {
      var p := t[k].0;
      forall i | 0 <= i <= |s| - |p|
        ensures !OccursAt(s, p, i)
      {
        assert s[i..i + |p|][0] == s[i];
        assert s[i..i + |p|][1] == s[i + 1];
      }
    }
    ApplyNoPattern(t, s);
  }

  /** The pass is the first entry's step followed by the rest of the table. */
  lemma ApplyFirst(t: Table, s: string)
    requires t != []
    ensures Apply(t, s) == Apply(t[1..], Step(s, t[0]))
  {
    assert t == [t[0]] + t[1..];
    ApplyConcat([t[0]], t[1..], s);
    assert [t[0]][..0] == [];
  }

  lemma SeparatedSuffix(t: Table, h: char -> bool, n: nat)
    requires Separated(t, h) && n <= |t|
    ensures Separated(t[n..], h)
  {
    forall k | 0 <= k < |t[n..]|
      ensures t[n..][k] == t[k + n]
    {
    }
  }

  /** Applying `a + b` is applying `a`, then `b`. */
  lemma {:induction false} ApplyConcat(a: Table, b: Table, s: string)
    ensures Apply(a + b, s) == Apply(b, Apply(a, s))
    decreases |b|
  {
    if b == [] {
      assert a + b == a;
    } else {
      assert (a + b)[..|a + b| - 1] == a + b[..|b| - 1];
      ApplyConcat(a, b[..|b| - 1], s);
    }
  }

  lemma NoOccursSuffix(t: string, p: string, d: nat)
    requires d <= |t| && !Occurs(t, p)
    ensures !Occurs(t[d..], p)
  {
    forall i | 0 <= i <= |t[d..]| - |p|
      ensures !OccursAt(t[d..], p, i)
    {
      assert t[d..][i..i + |p|] == t[i + d..i + d + |p|];
      assert !OccursAt(t, p, i + d);
    }
  }

  /** Text that a replacement pass turns into a prefix made only of `h`
      characters had that same prefix before the pass. */
  lemma {:induction false} PrefixKept(t: string, q: string, r: string, h: char -> bool, m: nat)
    requires q != [] && r != [] && !h(r[0])
    requires m <= |ReplaceAll(t, q, r)|
    requires forall k :: 0 <= k < m ==> h(ReplaceAll(t, q, r)[k])
    ensures m <= |t| && t[..m] == ReplaceAll(t, q, r)[..m]
    decreases |t|
  {
    var out := ReplaceAll(t, q, r);
    if |t| < |q| {
    } else if t[..|q|] == q {
      assert |out| > 0 ==> out[0] == r[0];
    } else if m > 0 {
      var rest := ReplaceAll(t[1..], q, r);
      assert out == [t[0]] + rest;
      forall k | 0 <= k < m - 1
        ensures h(rest[k])
      {
        assert rest[k] == out[k + 1];
      }
      PrefixKept(t[1..], q, r, h, m - 1);
      assert t[..m] == [t[0]] + t[1..][..m - 1];
    }
  }

  /** No `h`-word straddles or follows a replacement that avoids `h`, if the
      text after it holds no such word. */
  lemma AfterReplacement(out: string, r: string, rest: string, p: string, h: char -> bool)
    requires out == r + rest && NoneIn(r, h)
    requires p != [] && AllIn(p, h) && !Occurs(rest, p)
    ensures !Occurs(out, p)
  {
    forall k | 0 <= k <= |out| - |p|
      ensures !OccursAt(out, p, k)
    {
      if k < |r| {
        assert out[k..k + |p|][0] == r[k];
      } else {
        assert out[k..k + |p|] == rest[k - |r|..k - |r| + |p|];
        assert !OccursAt(rest, p, k - |r|);
      }
    }
  }

  /** A copied first character followed by a pass output without `p` holds
      no `p` either, unless `p` already started the input. */
  lemma AfterCopiedChar(t: string, q: string, r: string, p: string, h: char -> bool)
    requires q != [] && r != [] && NoneIn(r, h) && t != []
    requires p != [] && AllIn(p, h) && !OccursAt(t, p, 0)
    requires !Occurs(ReplaceAll(t[1..], q, r), p)
    ensures !Occurs([t[0]] + ReplaceAll(t[1..], q, r), p)
  {
    var rest := ReplaceAll(t[1..], q, r);
    var out := [t[0]] + rest;
    forall k | 0 <= k <= |out| - |p|
      ensures !OccursAt(out, p, k)
    {
      if k == 0 {
        if out[..|p|] == p {
          forall i | 0 <= i < |p| - 1
            ensures h(rest[i])
          {
            assert rest[i] == out[i + 1] == p[i + 1];
          }
          PrefixKept(t[1..], q, r, h, |p| - 1);
          assert false;
        }
      } else {
        assert out[k..k + |p|] == rest[k - 1..k - 1 + |p|];
        assert !OccursAt(rest, p, k - 1);
      }
    }
  }

  /** A replacement pass leaves no occurrence of its own pattern behind. */
  lemma {:induction false} ReplaceKillsPattern(s: string, p: string, r: string, h: char -> bool)
    requires p != [] && AllIn(p, h) && r != [] && NoneIn(r, h)
    ensures !Occurs(ReplaceAll(s, p, r), p)
    decreases |s|
  {
    if |s| < |p| {
    } else if s[..|p|] == p {
      ReplaceKillsPattern(s[|p|..], p, r, h);
      AfterReplacement(ReplaceAll(s, p, r), r, ReplaceAll(s[|p|..], p, r), p, h);
    } else {
      ReplaceKillsPattern(s[1..], p, r, h);
      AfterCopiedChar(s, p, r, p, h);
    }
  }

  /** A replacement pass whose replacement avoids `h` cannot create an
      occurrence of an `h`-word that was absent. */
  lemma {:induction false} ReplaceKeepsAbsent(t: string, q: string, r: string, p: string, h: char -> bool)
    requires q != [] && r != [] && NoneIn(r, h)
    requires p != [] && AllIn(p, h)
    requires !Occurs(t, p)
    ensures !Occurs(ReplaceAll(t, q, r), p)
    decreases |t|
  {
    if |t| < |q| {
    } else if t[..|q|] == q {
      NoOccursSuffix(t, p, |q|);
      ReplaceKeepsAbsent(t[|q|..], q, r, p, h);
      AfterReplacement(ReplaceAll(t, q, r), r, ReplaceAll(t[|q|..], q, r), p, h);
    } else {
      NoOccursSuffix(t, p, 1);
      ReplaceKeepsAbsent(t[1..], q, r, p, h);
      assert !OccursAt(t, p, 0);
      AfterCopiedChar(t, q, r, p, h);
    }
  }

  /** After the first `n` entries of a separated table have been applied,
      none of their patterns occurs in the text. */
  lemma {:induction false} PatternsGoneAfter(t: Table, h: char -> bool, s: string, n: nat)
    requires Separated(t, h) && n <= |t|
    ensures forall i :: 0 <= i < n ==> !Occurs(Apply(t[..n], s), t[i].0)
    decreases n
  {
    if n > 0 {
      var prev := Apply(t[..n - 1], s);
      assert t[..n][..n - 1] == t[..n - 1];
      assert Apply(t[..n], s) == Step(prev, t[n - 1]);
      PatternsGoneAfter(t, h, s, n - 1);
      forall i | 0 <= i < n
        ensures !Occurs(Apply(t[..n], s), t[i].0)
      {
        if i == n - 1 {
          if Occurs(prev, t[i].0) {
            ReplaceKillsPattern(prev, t[i].0, t[i].1, h);
          }
        } else if Occurs(prev, t[n - 1].0) {
          ReplaceKeepsAbsent(prev, t[n - 1].0, t[n - 1].1, t[i].0, h);
        }
      }
    }
  }

  /** An entry whose pattern contains the pattern of an earlier entry never
      fires: dropping it from the table changes no result. */
  lemma ShadowedEntryNeverFires(t: Table, h: char -> bool, i: nat, j: nat, s: string)
    requires Separated(t, h) && i < j < |t|
    requires Occurs(t[j].0, t[i].0)
    ensures Apply(t, s) == Apply(t[..j] + t[j + 1..], s)
  {
    var before := Apply(t[..j], s);
    PatternsGoneAfter(t, h, s, j);
    if Occurs(before, t[j].0) {
      OccursTransitive(before, t[j].0, t[i].0);
    }
    assert t[..j + 1][..j] == t[..j];
    assert Apply(t[..j + 1], s) == before;
    assert t == t[..j + 1] + t[j + 1..];
    ApplyConcat(t[..j + 1], t[j + 1..], s);
    ApplyConcat(t[..j], t[j + 1..], s);
  }
}
