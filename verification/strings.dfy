/** The Python `str` methods the program relies on, with Python's
    semantics: `replace`, `rstrip` of one character, `split` and `join` on a
    one-character separator. */
module Strings {

  /** `pat` occurs in `s` starting at index `i`. */
  predicate OccursAt(s: string, pat: string, i: nat) {
    i + |pat| <= |s| && s[i..i + |pat|] == pat
  }

  /** `s.endswith(suffix)`. */
  predicate EndsWith(s: string, suffix: string) {
    |suffix| <= |s| && s[|s| - |suffix|..] == suffix
  }

  /** `s.replace(pat, rep)`: occurrences of `pat` are replaced left to right
      without overlap; an empty `pat` inserts `rep` before every character
      and once more at the end. */
  function Replace(s: string, pat: string, rep: string): string
    decreases |s|
  {
    if |pat| == 0 then
      if |s| == 0 then rep else rep + [s[0]] + Replace(s[1..], pat, rep)
    else if OccursAt(s, pat, 0) then rep + Replace(s[|pat|..], pat, rep)
    else if |s| == 0 then []
    else [s[0]] + Replace(s[1..], pat, rep)
  }

  /** Replacing only ever copies characters of `s` or of `rep`; replacing a
      single character removes it unless `rep` brings it back. */
  lemma {:induction false} ReplaceChars(s: string, pat: string, rep: string, ch: char)
    requires ch in Replace(s, pat, rep)
    ensures ch in s || ch in rep
    ensures |pat| == 1 && ch == pat[0] ==> ch in rep
    decreases |s|
  {
    if |pat| == 0 {
      if |s| != 0 && ch !in rep && ch != s[0] {
        ReplaceChars(s[1..], pat, rep, ch);
      }
    } else if OccursAt(s, pat, 0) {
      if ch !in rep {
        ReplaceChars(s[|pat|..], pat, rep, ch);
      }
    } else if |s| != 0 && ch != s[0] {
      ReplaceChars(s[1..], pat, rep, ch);
    } else if |s| != 0 && |pat| == 1 {
      assert s[0..1] == [s[0]];
    }
  }

  /** When `pat` occurs in `stem + pat` only at the very end, `replace`
      rewrites just that suffix. */
  lemma {:induction false} ReplaceSuffixOnly(stem: string, pat: string, rep: string)
    requires |pat| != 0
    requires forall i :: 0 <= i < |stem| ==> !OccursAt(stem + pat, pat, i)
    ensures Replace(stem + pat, pat, rep) == stem + rep
    decreases |stem|
  {
    var s := stem + pat;
    if |stem| == 0 {
      assert s == pat;
      assert OccursAt(s, pat, 0);
      assert s[|pat|..] == [];
    } else {
      assert !OccursAt(s, pat, 0);
      assert s[1..] == stem[1..] + pat;
      forall i | 0 <= i < |stem[1..]|
        ensures !OccursAt(stem[1..] + pat, pat, i)
      {
        assert !OccursAt(s, pat, i + 1);
        assert (stem[1..] + pat)[i..i + |pat|] == s[i + 1..i + 1 + |pat|];
      }
      ReplaceSuffixOnly(stem[1..], pat, rep);
      assert [stem[0]] + (stem[1..] + rep) == stem + rep;
    }
  }

  /** Replacing a single character works piece by piece: it distributes
      over concatenation. */
  lemma {:induction false} ReplaceCharAppend(x: string, y: string, p: char, rep: string)
    ensures Replace(x + y, [p], rep) == Replace(x, [p], rep) + Replace(y, [p], rep)
    decreases |x|
  {
    if |x| == 0 {
      assert x + y == y;
    } else {
      assert (x + y)[1..] == x[1..] + y;
      assert OccursAt(x + y, [p], 0) <==> OccursAt(x, [p], 0);
      ReplaceCharAppend(x[1..], y, p, rep);
    }
  }

  /** A string without the character is left as it is. */
  lemma {:induction false} ReplaceCharAbsent(s: string, p: char, rep: string)
    requires p !in s
    ensures Replace(s, [p], rep) == s
    decreases |s|
  {
    if |s| != 0 {
      assert s[0] in s && s[..1] == [s[0]];
      assert !OccursAt(s, [p], 0);
      assert forall ch :: ch in s[1..] ==> ch in s;
      ReplaceCharAbsent(s[1..], p, rep);
      assert [s[0]] + s[1..] == s;
    }
  }

  /** A single character that is the pattern becomes the replacement. */
  lemma ReplaceCharSelf(p: char, rep: string)
    ensures Replace([p], [p], rep) == rep
  {
    assert OccursAt([p], [p], 0);
    assert [p][1..] == [];
  }

  /** Right-stripping ignores one more stripped character at the end. */
  lemma RStripSnoc(s: string, c: char)
    ensures RStrip(s + [c], c) == RStrip(s, c)
  {
    assert (s + [c])[..|s|] == s;
  }

  /** `s.rstrip(c)` for a single character `c`. */
  function RStrip(s: string, c: char): (r: string)
    ensures |r| <= |s| && r == s[..|r|]
    ensures |r| == 0 || r[|r| - 1] != c
    ensures forall i :: |r| <= i < |s| ==> s[i] == c
    decreases |s|
  {
    if |s| != 0 && s[|s| - 1] == c then
      var r := RStrip(s[..|s| - 1], c);
      assert s[..|s| - 1][..|r|] == s[..|r|];
      r
    else s
  }

  /** `s.split(c)` for a single-character separator: always at least one
      piece, and an empty string splits into one empty piece. */
  function Split(s: string, c: char): (r: seq<string>)
    ensures |r| >= 1
    decreases |s|
  {
    if |s| == 0 then [[]]
    else
      var rest := Split(s[1..], c);
      if s[0] == c then [[]] + rest else [[s[0]] + rest[0]] + rest[1..]
  }

  /** `c.join(items)`. */
  function Join(items: seq<string>, c: char): string
    decreases |items|
  {
    if |items| == 0 then []
    else if |items| == 1 then items[0]
    else items[0] + [c] + Join(items[1..], c)
  }

  /** No piece of a split contains the separator. */
  lemma {:induction false} SplitPiecesFree(s: string, c: char)
    ensures forall t :: t in Split(s, c) ==> c !in t
    decreases |s|
  {
    if |s| != 0 {
      SplitPiecesFree(s[1..], c);
    }
  }

  /** Every character of a piece comes from the split string. */
  lemma {:induction false} SplitPiecesFrom(s: string, c: char)
    ensures forall t, ch :: t in Split(s, c) && ch in t ==> ch in s
    decreases |s|
  {
    if |s| != 0 {
      SplitPiecesFrom(s[1..], c);
      var rest := Split(s[1..], c);
      assert forall i :: 1 <= i < |rest| ==> rest[1..][i - 1] == rest[i];
    }
  }

  /** The last piece is the text after the last separator: it is empty
      exactly when `s` ends with the separator (or `s` is empty). */
  lemma {:induction false} SplitLastPiece(s: string, c: char)
    ensures var r := Split(s, c); (|r[|r| - 1]| == 0 <==> |s| == 0 || s[|s| - 1] == c)
    decreases |s|
  {
    if |s| != 0 {
      SplitLastPiece(s[1..], c);
    }
  }

  /** Splitting distributes over a separator: `(x + c + y).split(c)` is
      `x.split(c) + y.split(c)`. */
  lemma {:induction false} SplitAround(x: string, y: string, c: char)
    ensures Split(x + [c] + y, c) == Split(x, c) + Split(y, c)
    decreases |x|
  {
    if |x| == 0 {
      assert x + [c] + y == [c] + y;
      assert ([c] + y)[1..] == y;
    } else {
      assert (x + [c] + y)[1..] == x[1..] + [c] + y;
      SplitAround(x[1..], y, c);
    }
  }

  /** Joining pieces that do not contain the separator and splitting again
      gives the pieces back. */
  lemma {:induction false} SplitJoin(items: seq<string>, c: char)
    requires |items| != 0
    requires forall t :: t in items ==> c !in t
    ensures Split(Join(items, c), c) == items
    decreases |items|
  {
    SplitOfFree(items[0], c);
    if |items| > 1 {
      SplitJoin(items[1..], c);
      SplitAround(items[0], Join(items[1..], c), c);
    }
  }

  /** A string without the separator splits into itself. */
  lemma {:induction false} SplitOfFree(s: string, c: char)
    requires c !in s
    ensures Split(s, c) == [s]
    decreases |s|
  {
    if |s| != 0 {
      SplitOfFree(s[1..], c);
      assert [s[0]] + s[1..] == s;
    }
  }

  /** The empty join: no items, or one empty item. */
  lemma JoinEmpty(items: seq<string>, c: char)
    ensures |Join(items, c)| == 0 <==> items == [] || items == [[]]
  {
  }
}
