/** The Python `str` methods the scripts rely on: `isspace`, `strip`, `split`, `endswith`, `replace`. */
module Text {
  import opened Seqs

  /** The characters for which Python's `str.isspace()` holds. */
  const Whitespace: seq<char> := [
    '\t', '\n', '\U{b}', '\U{c}', '\r', '\U{1c}', '\U{1d}', '\U{1e}', '\U{1f}', ' ',
    '\U{85}', '\U{a0}', '\U{1680}',
    '\U{2000}', '\U{2001}', '\U{2002}', '\U{2003}', '\U{2004}', '\U{2005}',
    '\U{2006}', '\U{2007}', '\U{2008}', '\U{2009}', '\U{200a}',
    '\U{2028}', '\U{2029}', '\U{202f}', '\U{205f}', '\U{3000}'
  ]

  /** `c` is one of `Whitespace[i..]`. */
  predicate SpaceFrom(c: char, i: nat)
    decreases |Whitespace| - i
  {
    i < |Whitespace| && (Whitespace[i] == c || SpaceFrom(c, i + 1))
  }

  /** A character that differs from every element of `Whitespace[i..]` is not one of them. */
  lemma {:induction false} NotSpaceFrom(c: char, i: nat)
    requires forall j :: i <= j < |Whitespace| ==> Whitespace[j] != c
    ensures !SpaceFrom(c, i)
    decreases |Whitespace| - i
  {
    if i < |Whitespace| {
      NotSpaceFrom(c, i + 1);
    }
  }

  /** Every listed character is found by a search starting at or before its position. */
  lemma {:induction false} SpaceFromBelow(i: nat, j: nat)
    requires j <= i < |Whitespace|
    ensures SpaceFrom(Whitespace[i], j)
    decreases i - j
  {
    if j < i {
      SpaceFromBelow(i, j + 1);
    }
  }

  /** `c.isspace()`. */
  predicate IsSpace(c: char)
  {
    SpaceFrom(c, 0)
  }

  /** The ASCII separator controls U+001C to U+001F are whitespace for `str.isspace()`. */
  lemma SeparatorControlsAreSpace()
    ensures IsSpace('\U{1c}') && IsSpace('\U{1d}') && IsSpace('\U{1e}') && IsSpace('\U{1f}')
  {
    SpaceFromBelow(5, 0);
    SpaceFromBelow(6, 0);
    SpaceFromBelow(7, 0);
    SpaceFromBelow(8, 0);
  }

  /** Characters below the tab, printable ASCII other than the blank, and so also the
      digits, the signs and the separators the scripts use, are not whitespace. */
  lemma NotSpace(c: char)
    requires c < '\t' || '!' <= c <= '~'
    ensures !IsSpace(c)
  {
    NotSpaceFrom(c, 0);
  }

  /** Every character of `s` is one `blank` accepts. */
  predicate AllBlank(s: string, blank: char -> bool)
  {
    forall i :: 0 <= i < |s| ==> blank(s[i])
  }

  /** A string made only of blanks holds no other character. */
  lemma AllBlankExcludes(s: string, blank: char -> bool, c: char)
    requires AllBlank(s, blank) && !blank(c)
    ensures c !in s
  {
  }

  /* Python trims two different sets of characters: `str.strip()` removes every
     character `str.isspace()` accepts (`IsSpace`), while `int()` skips a smaller
     set (`PyInt.IntSpace`). The trimming functions below therefore take the set of
     blanks as a predicate, in the way `str.strip(chars)` takes a set of characters. */

  /** `s.lstrip()`: drops the longest all-blank prefix, so the result is a suffix of
      `s` that is empty or starts with a character that is not blank. */
  function StripLeft(s: string, blank: char -> bool): (r: string)
    ensures |r| <= |s| && r == s[|s| - |r|..]
    ensures forall i :: 0 <= i < |s| - |r| ==> blank(s[i])
    ensures r == [] || !blank(r[0])
  {
    if |s| > 0 && blank(s[0]) then
      var r := StripLeft(s[1..], blank);
      assert forall i :: 0 < i < |s| - |r| ==> s[i] == s[1..][i - 1];
      r
    else
      s
  }

  /** `s.rstrip()`: drops the longest all-blank suffix, so the result is a prefix of
      `s` that is empty or ends with a character that is not blank. */
  function StripRight(s: string, blank: char -> bool): (r: string)
    ensures |r| <= |s| && r == s[..|r|]
    ensures forall i :: |r| <= i < |s| ==> blank(s[i])
    ensures r == [] || !blank(r[|r| - 1])
  {
    if |s| > 0 && blank(s[|s| - 1]) then
      var r := StripRight(s[..|s| - 1], blank);
      assert forall i :: |r| <= i < |s| - 1 ==> s[i] == s[..|s| - 1][i];
      r
    else
      s
  }

  /** `s.strip()`: the result is empty or starts and ends with a character that is
      not blank. With `IsSpace` as the blanks this is Python's `str.strip()`. */
  function Strip(s: string, blank: char -> bool): (r: string)
    ensures r == [] || (!blank(r[0]) && !blank(r[|r| - 1]))
  {
    var t := StripLeft(s, blank);
    var r := StripRight(t, blank);
    assert r != [] ==> r[0] == t[0];
    r
  }

  /** `s.strip()` is the slice of `s` left after removing only blanks at both ends. */
  lemma StripSlice(s: string, blank: char -> bool) returns (i: nat)
    ensures i + |Strip(s, blank)| <= |s| && Strip(s, blank) == s[i..i + |Strip(s, blank)|]
    ensures forall k :: 0 <= k < i ==> blank(s[k])
    ensures forall k :: i + |Strip(s, blank)| <= k < |s| ==> blank(s[k])
  {
    var t := StripLeft(s, blank);
    i := |s| - |t|;
    StripRightOfSuffix(s, t, blank);
    assert Strip(s, blank) == StripRight(t, blank);
  }

  /** `rstrip` of a suffix `t` of `s` is a slice of `s` followed only by blanks. */
  lemma StripRightOfSuffix(s: string, t: string, blank: char -> bool)
    requires |t| <= |s| && t == s[|s| - |t|..]
    ensures var i, r := |s| - |t|, StripRight(t, blank);
      && r == s[i..i + |r|]
      && forall k :: i + |r| <= k < |s| ==> blank(s[k])
  {
    var i, r := |s| - |t|, StripRight(t, blank);
    assert r == s[i..][..|r|];
    forall k | i + |r| <= k < |s|
      ensures blank(s[k])
    {
      assert s[k] == t[k - i];
    }
  }

  /** Leading blanks never survive `lstrip`. */
  lemma {:induction false} StripLeftBlank(front: string, s: string, blank: char -> bool)
    requires AllBlank(front, blank)
    ensures StripLeft(front + s, blank) == StripLeft(s, blank)
  {
    if front != [] {
      assert (front + s)[1..] == front[1..] + s;
      StripLeftBlank(front[1..], s, blank);
    } else {
      assert front + s == s;
    }
  }

  /** Trailing blanks never survive `rstrip`. */
  lemma {:induction false} StripRightBlank(s: string, back: string, blank: char -> bool)
    requires AllBlank(back, blank)
    ensures StripRight(s + back, blank) == StripRight(s, blank)
    decreases |back|
  {
    if back != [] {
      var b := back[..|back| - 1];
      assert (s + back)[..|s + back| - 1] == s + b;
      StripRightBlank(s, b, blank);
    } else {
      assert s + back == s;
    }
  }

  /** Strip removes exactly the blank padding around a string that has none of its own. */
  lemma StripPadding(front: string, t: string, back: string, blank: char -> bool)
    requires AllBlank(front, blank) && AllBlank(back, blank)
    requires t == [] || (!blank(t[0]) && !blank(t[|t| - 1]))
    ensures Strip(front + t + back, blank) == t
  {
    assert front + t + back == front + (t + back);
    StripLeftBlank(front, t + back, blank);
    if t == [] {
      assert t + back == [] + back;
      StripLeftBlank(back, [], blank);
      assert back + [] == back;
    } else {
      assert StripLeft(t + back, blank) == t + back;
      StripRightBlank(t, back, blank);
      assert StripRight(t, blank) == t;
    }
  }

  /** Blanks after a line, such as the line break `readlines` keeps, never change
      what `strip` returns. */
  lemma {:induction false} StripIgnoresTrailingSpace(s: string, back: string, blank: char -> bool)
    requires AllBlank(back, blank)
    ensures Strip(s + back, blank) == Strip(s, blank)
  {
    if s == [] {
      assert s + back == back;
    } else if blank(s[0]) {
      assert (s + back)[1..] == s[1..] + back;
      StripIgnoresTrailingSpace(s[1..], back, blank);
    } else {
      StripRightBlank(s, back, blank);
    }
  }

  /** Text made only of blanks strips to nothing. */
  lemma StripBlanks(s: string, blank: char -> bool)
    ensures AllBlank(s, blank) ==> Strip(s, blank) == []
  {
    if AllBlank(s, blank) {
      StripPadding(s, [], [], blank);
      assert s + [] + [] == s;
    }
  }

  /** Stripping twice is the same as stripping once. */
  lemma StripIdempotent(s: string, blank: char -> bool)
    ensures Strip(Strip(s, blank), blank) == Strip(s, blank)
  {
    StripPadding([], Strip(s, blank), [], blank);
    assert [] + Strip(s, blank) + [] == Strip(s, blank);
  }

  /** `s.split(sep)` with an explicit separator: the maximal runs between separators. */
  function Split(s: string, sep: char): (fields: seq<string>)
    ensures |fields| == Count(s, sep) + 1
    ensures forall i :: 0 <= i < |fields| ==> sep !in fields[i]
  {
    if s == [] then [""]
    else
      var rest := Split(s[1..], sep);
      if s[0] == sep then [""] + rest
      else
        assert forall i :: 1 <= i < |rest| ==> rest[1..][i - 1] == rest[i];
        [[s[0]] + rest[0]] + rest[1..]
  }

  /** `sep.join(fields)`. */
  function Join(fields: seq<string>, sep: char): string
    requires |fields| >= 1
  {
    if |fields| == 1 then fields[0] else fields[0] + [sep] + Join(fields[1..], sep)
  }

  /** Joining the fields of a split restores the string. */
  lemma {:induction false} JoinSplit(s: string, sep: char)
    ensures Join(Split(s, sep), sep) == s
  {
    if s != [] {
      JoinSplit(s[1..], sep);
      var rest := Split(s[1..], sep);
      if s[0] != sep {
        JoinPrepend(s[0], rest, sep);
      }
      assert s == [s[0]] + s[1..];
    }
  }

  /** Putting a character in front of the first field puts it in front of the join. */
  lemma JoinPrepend(c: char, fields: seq<string>, sep: char)
    requires |fields| >= 1
    ensures Join([[c] + fields[0]] + fields[1..], sep) == [c] + Join(fields, sep)
  {
    var joined := [[c] + fields[0]] + fields[1..];
    if |fields| > 1 {
      assert joined[1..] == fields[1..];
    }
  }

  /** Splitting a join of separator-free fields gives the fields back. */
  lemma {:induction false} SplitJoin(fields: seq<string>, sep: char)
    requires |fields| >= 1
    requires forall i :: 0 <= i < |fields| ==> sep !in fields[i]
    ensures Split(Join(fields, sep), sep) == fields
    decreases |fields|
  {
    if |fields| == 1 {
      SplitFree(fields[0], sep);
    } else {
      SplitJoin(fields[1..], sep);
      SplitField(fields[0], Join(fields[1..], sep), sep);
      assert fields == [fields[0]] + fields[1..];
    }
  }

  /** A string without the separator is one field. */
  lemma {:induction false} SplitFree(s: string, sep: char)
    requires sep !in s
    ensures Split(s, sep) == [s]
  {
    if s != [] {
      SplitFree(s[1..], sep);
      assert s == [s[0]] + s[1..];
    }
  }

  /** A separator-free field followed by a separator is the first field of the split. */
  lemma {:induction false} SplitField(field: string, rest: string, sep: char)
    requires sep !in field
    ensures Split(field + [sep] + rest, sep) == [field] + Split(rest, sep)
  {
    var s := field + [sep] + rest;
    if field == [] {
      assert s[1..] == rest;
    } else {
      assert s[1..] == field[1..] + [sep] + rest;
      SplitField(field[1..], rest, sep);
      assert [s[0]] + field[1..] == field;
    }
  }

  /** A separator-free field followed by a tail starting with the separator is the
      first field of the split. */
  lemma SplitAtSeparator(field: string, tail: string, sep: char)
    requires sep !in field && |tail| > 0 && tail[0] == sep
    ensures Split(field + tail, sep) == [field] + Split(tail[1..], sep)
  {
    assert field + tail == field + [sep] + tail[1..];
    SplitField(field, tail[1..], sep);
  }

  /** `s.endswith(suffix)`. */
  predicate EndsWith(s: string, suffix: string)
  {
    |suffix| <= |s| && s[|s| - |suffix|..] == suffix
  }

  /** `s.replace(pat, rep)`: a left-to-right scan replacing non-overlapping occurrences. */
  function ReplaceAll(s: string, pat: string, rep: string): (r: string)
    requires |pat| > 0
    ensures |rep| <= |pat| ==> |r| <= |s|
  {
    if |s| < |pat| then s
    else if s[..|pat|] == pat then rep + ReplaceAll(s[|pat|..], pat, rep)
    else [s[0]] + ReplaceAll(s[1..], pat, rep)
  }

  /** An occurrence at the front is replaced. */
  lemma ReplaceFront(pat: string, rep: string, rest: string)
    requires |pat| > 0
    ensures ReplaceAll(pat + rest, pat, rep) == rep + ReplaceAll(rest, pat, rep)
  {
    assert (pat + rest)[..|pat|] == pat && (pat + rest)[|pat|..] == rest;
  }

  /** A prefix none of whose characters can start an occurrence is kept as it is. */
  lemma {:induction false} ReplaceSkip(p: string, q: string, pat: string, rep: string)
    requires |pat| > 0
    requires pat[0] !in p
    ensures ReplaceAll(p + q, pat, rep) == p + ReplaceAll(q, pat, rep)
  {
    if p == [] {
      assert p + q == q;
    } else {
      var s := p + q;
      if |s| < |pat| {
        assert ReplaceAll(s, pat, rep) == s;
        assert ReplaceAll(q, pat, rep) == q;
      } else {
        assert s[..|pat|] != pat by {
          assert s[..|pat|][0] == p[0];
        }
        assert ReplaceAll(s, pat, rep) == [s[0]] + ReplaceAll(s[1..], pat, rep);
        assert s[1..] == p[1..] + q;
        ReplaceSkip(p[1..], q, pat, rep);
        assert [p[0]] + p[1..] == p;
      }
    }
  }

  /** With an empty replacement, every character of the result is a character of the input. */
  lemma {:induction false} RemoveKeepsOnly(s: string, pat: string, c: char)
    requires |pat| > 0
    requires c in ReplaceAll(s, pat, "")
    ensures c in s
    decreases |s|
  {
    if |s| >= |pat| {
      if s[..|pat|] == pat {
        RemoveKeepsOnly(s[|pat|..], pat, c);
      } else if c != s[0] {
        RemoveKeepsOnly(s[1..], pat, c);
      }
    }
  }
}
