/** The handful of Python `str` operations the configuration parsers and the
    label formatter rely on, restricted to ASCII: `strip`, `lower`, `title`,
    `split(sep)`, `split()` and `sep.join`. */
module Text {

  /** Python's `str.isspace` on ASCII: space, the control characters tab to
      carriage return (9-13) and the information separators 28-31. */
  predicate IsSpace(c: char) {
    c == ' ' || 9 <= c as int <= 13 || 28 <= c as int <= 31
  }

  predicate IsUpper(c: char) { 'A' <= c <= 'Z' }

  predicate IsLowerLetter(c: char) { 'a' <= c <= 'z' }

  /** Cased characters in the sense of `str.title`: the ASCII letters. */
  predicate IsLetter(c: char) { IsUpper(c) || IsLowerLetter(c) }

  function LowerChar(c: char): char {
    if IsUpper(c) then (c as int + 32) as char else c
  }

  function UpperChar(c: char): char {
    if IsLowerLetter(c) then (c as int - 32) as char else c
  }

  /** True when no character of `s` is whitespace. */
  predicate NoSpace(s: string) {
    forall i :: 0 <= i < |s| ==> !IsSpace(s[i])
  }

  /** True when every character of `s` is whitespace (Python: `not s.strip()`). */
  predicate IsBlank(s: string) {
    forall i :: 0 <= i < |s| ==> IsSpace(s[i])
  }

  /** A string with no leading or trailing whitespace. */
  predicate IsTrimmed(s: string) {
    s == [] || (!IsSpace(s[0]) && !IsSpace(s[|s| - 1]))
  }

  /** A string `lower` leaves unchanged. */
  predicate IsLower(s: string) {
    forall i :: 0 <= i < |s| ==> !IsUpper(s[i])
  }

  /** Dropping the leading characters of class `isSpace`: the suffix that is
      left, which is empty or starts outside the class. */
  function TrimStartWhere(s: string, isSpace: char -> bool): (r: string)
    ensures |r| <= |s| && r == s[|s| - |r|..]
    ensures forall i :: 0 <= i < |s| - |r| ==> isSpace(s[i])
    ensures r == [] || !isSpace(r[0])
    decreases |s|
  {
    if s != [] && isSpace(s[0]) then
      var r := TrimStartWhere(s[1..], isSpace);
      assert forall i :: 0 < i < |s| - |r| ==> s[i] == s[1..][i - 1];
      r
    else s
  }

  /** Dropping the trailing characters of class `isSpace`: the prefix that is
      left, which is empty or ends outside the class. */
  function TrimEndWhere(s: string, isSpace: char -> bool): (r: string)
    ensures |r| <= |s| && r == s[..|r|]
    ensures forall i :: |r| <= i < |s| ==> isSpace(s[i])
    ensures r == [] || !isSpace(r[|r| - 1])
    decreases |s|
  {
    if s != [] && isSpace(s[|s| - 1]) then
      var r := TrimEndWhere(s[..|s| - 1], isSpace);
      assert forall i :: |r| <= i < |s| - 1 ==> s[i] == s[..|s| - 1][i];
      r
    else s
  }

  /** Characters of the class in front of text that starts outside the class
      are exactly what `TrimStartWhere` drops. */
  lemma {:induction false} TrimStartPadded(pre: string, m: string, isSpace: char -> bool)
    requires forall i :: 0 <= i < |pre| ==> isSpace(pre[i])
    requires m == [] || !isSpace(m[0])
    ensures TrimStartWhere(pre + m, isSpace) == m
    decreases |pre|
  {
    if pre == [] {
      assert pre + m == m;
    } else {
      assert (pre + m)[1..] == pre[1..] + m;
      TrimStartPadded(pre[1..], m, isSpace);
    }
  }

  /** Characters of the class after text that ends outside the class are
      exactly what `TrimEndWhere` drops. */
  lemma {:induction false} TrimEndPadded(m: string, post: string, isSpace: char -> bool)
    requires forall i :: 0 <= i < |post| ==> isSpace(post[i])
    requires m == [] || !isSpace(m[|m| - 1])
    ensures TrimEndWhere(m + post, isSpace) == m
    decreases |post|
  {
    if post == [] {
      assert m + post == m;
    } else {
      var n := |post| - 1;
      assert (m + post)[..|m + post| - 1] == m + post[..n];
      TrimEndPadded(m, post[..n], isSpace);
    }
  }

  /** `s.lstrip()`: the suffix left after dropping leading whitespace. */
  function TrimStart(s: string): (r: string)
    ensures |r| <= |s| && r == s[|s| - |r|..]
    ensures IsBlank(s[..|s| - |r|])
    ensures r == [] || !IsSpace(r[0])
  {
    var r := TrimStartWhere(s, IsSpace);
    assert forall i :: 0 <= i < |s| - |r| ==> s[..|s| - |r|][i] == s[i];
    r
  }

  /** `s.rstrip()`: the prefix left after dropping trailing whitespace. */
  function TrimEnd(s: string): (r: string)
    ensures |r| <= |s| && r == s[..|r|]
    ensures IsBlank(s[|r|..])
    ensures r == [] || !IsSpace(r[|r| - 1])
  {
    var r := TrimEndWhere(s, IsSpace);
    assert forall i :: 0 <= i < |s| - |r| ==> s[|r|..][i] == s[|r| + i];
    r
  }

  /** `s.strip()`. */
  function Strip(s: string): (r: string)
    ensures IsTrimmed(r)
    ensures |r| <= |s|
    ensures r == [] <==> IsBlank(s)
  {
    StripTrims(s);
    TrimEnd(TrimStart(s))
  }

  /** Trimming both ends leaves nothing exactly for a blank string, and what
      it leaves starts and ends with a non-space. */
  lemma StripTrims(s: string)
    ensures var r := TrimEnd(TrimStart(s));
      IsTrimmed(r) && |r| <= |s| && (r == [] <==> IsBlank(s))
  {
    var t := TrimStart(s);
    var r := TrimEnd(t);
    var n := |s| - |t|;
    if r == [] {
      assert t == [] by {
        assert t == t[|r|..];
      }
      assert s[..n] == s;
    } else {
      assert r[0] == t[0];
      assert !IsSpace(s[n]) by {
        assert s[n] == t[0];
      }
    }
  }

  /** `s.lower()` on ASCII. */
  function Lower(s: string): (r: string)
    ensures |r| == |s|
    ensures IsLower(r)
    ensures forall i :: 0 <= i < |s| ==> r[i] == LowerChar(s[i])
  {
    seq(|s|, i requires 0 <= i < |s| => LowerChar(s[i]))
  }

  /** `s.title()` on ASCII: a letter is upper-cased when the character before it
      is not a letter (or it is first) and lower-cased otherwise. */
  function Title(s: string): (r: string)
    ensures |r| == |s|
  {
    seq(|s|, i requires 0 <= i < |s| =>
      if i == 0 || !IsLetter(s[i - 1]) then UpperChar(s[i]) else LowerChar(s[i]))
  }

  /** Python's `s.split(c)` generalised to a separator class `isSep`: the
      pieces between separators, empty pieces included, never an empty list. */
  function SplitWhere(s: string, isSep: char -> bool): (r: seq<string>)
    ensures |r| >= 1
    ensures forall k :: 0 <= k < |r| ==> forall i :: 0 <= i < |r[k]| ==> !isSep(r[k][i])
    decreases |s|
  {
    if s == [] then [""]
    else
      var rest := SplitWhere(s[1..], isSep);
      if isSep(s[0]) then [""] + rest
      else [[s[0]] + rest[0]] + rest[1..]
  }

  /** `sep.join(xs)`: nothing for no pieces, the piece itself for one, and
      otherwise the first piece and the separator in front of the rest. */
  function Join(xs: seq<string>, sep: string): (r: string)
    ensures xs == [] ==> r == []
    ensures |xs| == 1 ==> r == xs[0]
    ensures |xs| >= 2 ==> xs[0] + sep <= r && |r| >= |xs[0]| + |sep| + |xs[1]|
    decreases |xs|
  {
    if xs == [] then ""
    else if |xs| == 1 then xs[0]
    else xs[0] + sep + Join(xs[1..], sep)
  }

  /** The pieces that are not empty, in order. */
  function NonEmpty(xs: seq<string>): (r: seq<string>)
    ensures |r| <= |xs|
    ensures forall k :: 0 <= k < |r| ==> r[k] != [] && r[k] in xs
    decreases |xs|
  {
    if xs == [] then []
    else if xs[0] == [] then NonEmpty(xs[1..])
    else [xs[0]] + NonEmpty(xs[1..])
  }

  /** `s.split()` without arguments: the maximal runs of non-whitespace. */
  function SplitWords(s: string): (r: seq<string>)
    ensures forall k :: 0 <= k < |r| ==> r[k] != [] && NoSpace(r[k])
  {
    NonEmpty(SplitWhere(s, IsSpace))
  }

  /** Splitting a joined list gives the list back, provided no element holds a
      separator. */
  lemma {:induction false} SplitJoin(xs: seq<string>, c: char, isSep: char -> bool)
    requires |xs| >= 1
    requires isSep(c)
    requires forall k :: 0 <= k < |xs| ==> forall i :: 0 <= i < |xs[k]| ==> !isSep(xs[k][i])
    ensures SplitWhere(Join(xs, [c]), isSep) == xs
    decreases |xs|
  {
    if |xs| == 1 {
      SplitWord(xs[0], [], isSep);
      assert xs[0] + [] == xs[0];
    } else {
      SplitJoin(xs[1..], c, isSep);
      var tail := Join(xs[1..], [c]);
      assert Join(xs, [c]) == xs[0] + ([c] + tail);
      SplitWord(xs[0], [c] + tail, isSep);
      var p := SplitWhere([c] + tail, isSep);
      assert p == [""] + xs[1..] by {
        assert ([c] + tail)[1..] == tail;
        assert ([c] + tail)[0] == c;
      }
      assert xs[0] + p[0] == xs[0];
      assert p[1..] == xs[1..];
      assert xs == [xs[0]] + xs[1..];
    }
  }

  /** A separator-free word in front of `rest` extends the first piece of `rest`. */
  lemma {:induction false} SplitWord(w: string, rest: string, isSep: char -> bool)
    requires forall i :: 0 <= i < |w| ==> !isSep(w[i])
    ensures var p := SplitWhere(rest, isSep);
      SplitWhere(w + rest, isSep) == [w + p[0]] + p[1..]
    decreases |w|
  {
    if w != [] {
      SplitWord(w[1..], rest, isSep);
      assert (w + rest)[1..] == w[1..] + rest;
      assert [w[0]] + (w[1..] + SplitWhere(rest, isSep)[0]) == w + SplitWhere(rest, isSep)[0];
    } else {
      var p := SplitWhere(rest, isSep);
      assert w + rest == rest;
      assert w + p[0] == p[0];
      assert p == [p[0]] + p[1..];
    }
  }

  /** Stripping is idempotent. */
  lemma StripIdempotent(s: string)
    ensures Strip(Strip(s)) == Strip(s)
  {
    TrimmedIsFixed(Strip(s));
  }

  /** `lstrip` drops a leading space and goes on with the rest. */
  lemma TrimStartSpace(s: string)
    requires s != [] && IsSpace(s[0])
    ensures TrimStart(s) == TrimStart(s[1..])
  {
  }

  /** `lstrip` stops at a leading non-space. */
  lemma TrimStartStops(s: string)
    requires s == [] || !IsSpace(s[0])
    ensures TrimStart(s) == s
  {
  }

  /** `rstrip` drops a trailing space and goes on with the rest. */
  lemma TrimEndSpace(s: string)
    requires s != [] && IsSpace(s[|s| - 1])
    ensures TrimEnd(s) == TrimEnd(s[..|s| - 1])
  {
  }

  /** `rstrip` stops at a trailing non-space. */
  lemma TrimEndStops(s: string)
    requires s == [] || !IsSpace(s[|s| - 1])
    ensures TrimEnd(s) == s
  {
  }

  /** What trimming both ends by a class keeps is the part of the input from
      `a` on, with only characters of the class cut off before and after it. */
  lemma TrimsCut(s: string, isSpace: char -> bool, r: string) returns (a: nat)
    requires r == TrimEndWhere(TrimStartWhere(s, isSpace), isSpace)
    ensures a + |r| <= |s|
    ensures forall k :: 0 <= k < |r| ==> r[k] == s[a + k]
    ensures forall i :: 0 <= i < a ==> isSpace(s[i])
    ensures forall i :: a + |r| <= i < |s| ==> isSpace(s[i])
  {
    var t := TrimStartWhere(s, isSpace);
    a := |s| - |t|;
    CutAfter(s, t, r, a, isSpace);
  }

  /** A prefix `r` of the suffix `t` of `s` from `a` on matches `s` from `a`
      on, and what `t` has after `r` is what `s` has after it. */
  lemma CutAfter(s: string, t: string, r: string, a: nat, isSpace: char -> bool)
    requires a <= |s| && t == s[a..] && |r| <= |t| && r == t[..|r|]
    requires forall i :: |r| <= i < |t| ==> isSpace(t[i])
    ensures a + |r| <= |s|
    ensures forall k :: 0 <= k < |r| ==> r[k] == s[a + k]
    ensures forall i :: a + |r| <= i < |s| ==> isSpace(s[i])
  {
    forall i | a + |r| <= i < |s| ensures isSpace(s[i]) {
      assert s[i] == t[i - a];
    }
  }

  /** A trimmed string is its own strip. */
  lemma TrimmedIsFixed(s: string)
    requires IsTrimmed(s)
    ensures Strip(s) == s
  {
    assert TrimStart(s) == s;
  }

  /** Lowering is idempotent. */
  lemma LowerIdempotent(s: string)
    ensures Lower(Lower(s)) == Lower(s)
  {
  }

  /** Lowering a lower-case string changes nothing. */
  lemma LowerOfLower(s: string)
    requires IsLower(s)
    ensures Lower(s) == s
  {
  }
}
