/**
 * The few operations of Python's `str` that the application relies on, over
 * Dafny strings: `lower()` (ASCII only), `strip()` with and without a character
 * argument, `in` (substring test), `split(sep)`, `sep.join(parts)` and
 * `replace(pat, rep)`.
 */
module Text {

  /** `c.lower()` for ASCII letters; every other character is left unchanged. */
  function LowerChar(c: char): char {
    if 'A' <= c <= 'Z' then (c as int + 32) as char else c
  }

  function Lower(s: string): string {
    seq(|s|, i requires 0 <= i < |s| => LowerChar(s[i]))
  }

  lemma LowerIdempotent(s: string)
    ensures Lower(Lower(s)) == Lower(s)
  {
  }

  lemma LowerConcat(a: string, b: string)
    ensures Lower(a + b) == Lower(a) + Lower(b)
  {
  }

  /** The characters for which Python's `str.isspace()` holds, so the ones `strip()` removes. */
  const Whitespace: set<char> := {
    '\t', '\n', '\U{B}', '\U{C}', '\r', '\U{1C}', '\U{1D}', '\U{1E}', '\U{1F}', ' ',
    '\U{85}', '\U{A0}', '\U{1680}',
    '\U{2000}', '\U{2001}', '\U{2002}', '\U{2003}', '\U{2004}', '\U{2005}',
    '\U{2006}', '\U{2007}', '\U{2008}', '\U{2009}', '\U{200A}',
    '\U{2028}', '\U{2029}', '\U{202F}', '\U{205F}', '\U{3000}'
  }

  /** `s.lstrip(chars)`: the longest suffix of `s` that does not start with one of `cs`. */
  function TrimLeft(s: string, cs: set<char>): (r: string)
    ensures exists k :: 0 <= k <= |s| && r == s[k..] && forall j :: 0 <= j < k ==> s[j] in cs
    ensures r == [] || r[0] !in cs
    decreases |s|
  {
    if |s| > 0 && s[0] in cs then
      var r := TrimLeft(s[1..], cs);
      ghost var k :| 0 <= k <= |s[1..]| && r == s[1..][k..] && forall j :: 0 <= j < k ==> s[1..][j] in cs;
      assert r == s[k + 1..];
      r
    else
      assert s[0..] == s;
      s
  }

  /** `s.rstrip(chars)`: the longest prefix of `s` that does not end with one of `cs`. */
  function TrimRight(s: string, cs: set<char>): (r: string)
    ensures exists k :: 0 <= k <= |s| && r == s[..k] && forall j :: k <= j < |s| ==> s[j] in cs
    ensures r == [] || r[|r| - 1] !in cs
    decreases |s|
  {
    if |s| > 0 && s[|s| - 1] in cs then
      var r := TrimRight(s[..|s| - 1], cs);
      ghost var k :| 0 <= k <= |s| - 1 && r == s[..|s| - 1][..k] && forall j :: k <= j < |s| - 1 ==> s[j] in cs;
      assert r == s[..k];
      r
    else
      assert s[..|s|] == s;
      s
  }

  /** `s.strip(chars)`. */
  function StripChars(s: string, cs: set<char>): string {
    TrimRight(TrimLeft(s, cs), cs)
  }

  /** `s.strip()`. */
  function Strip(s: string): string {
    StripChars(s, Whitespace)
  }

  /** A string that `strip()` leaves as it is and that is not empty. */
  predicate IsStrippedWord(k: string) {
    |k| > 0 && k[0] !in Whitespace && k[|k| - 1] !in Whitespace
  }

  predicate AllIn(w: string, cs: set<char>) {
    forall j :: 0 <= j < |w| ==> w[j] in cs
  }

  lemma {:induction false} TrimLeftPadding(w: string, k: string, cs: set<char>)
    requires AllIn(w, cs)
    requires k == [] || k[0] !in cs
    ensures TrimLeft(w + k, cs) == k
    decreases |w|
  {
    if w == [] {
      assert w + k == k;
    } else {
      assert (w + k)[1..] == w[1..] + k;
      TrimLeftPadding(w[1..], k, cs);
    }
  }

  lemma {:induction false} TrimRightPadding(k: string, w: string, cs: set<char>)
    requires AllIn(w, cs)
    requires k == [] || k[|k| - 1] !in cs
    ensures TrimRight(k + w, cs) == k
    decreases |w|
  {
    if w == [] {
      assert k + w == k;
    } else {
      assert (k + w)[..|k + w| - 1] == k + w[..|w| - 1];
      TrimRightPadding(k, w[..|w| - 1], cs);
    }
  }

  /** Surrounding a stripped word with whitespace on either side is undone by `strip()`. */
  lemma StripPadded(w1: string, k: string, w2: string)
    requires AllIn(w1, Whitespace) && AllIn(w2, Whitespace)
    requires IsStrippedWord(k)
    ensures Strip(w1 + k + w2) == k
  {
    assert w1 + k + w2 == w1 + (k + w2);
    TrimLeftPadding(w1, k + w2, Whitespace);
    TrimRightPadding(k, w2, Whitespace);
  }

  /** A non-empty result of `strip()` starts and ends with a non-whitespace character. */
  lemma StrippedIsWord(s: string)
    requires Strip(s) != []
    ensures IsStrippedWord(Strip(s))
  {
    var l := TrimLeft(s, Whitespace);
    var n :| 0 <= n <= |l| && Strip(s) == l[..n] && forall j :: n <= j < |l| ==> l[j] in Whitespace;
    assert Strip(s)[0] == l[0];
  }

  /** `strip()` keeps a contiguous part of its input, so it adds no character. */
  lemma StripKeepsAbsent(s: string, c: char)
    requires c !in s
    ensures c !in Strip(s)
  {
    var l := TrimLeft(s, Whitespace);
    var a :| 0 <= a <= |s| && l == s[a..];
    SliceAvoids(s, a, |s|, c);
    var n :| 0 <= n <= |l| && Strip(s) == l[..n];
    SliceAvoids(l, 0, n, c);
  }

  lemma SliceAvoids(s: string, i: nat, j: nat, c: char)
    requires i <= j <= |s| && c !in s
    ensures c !in s[i..j]
  {
    forall m | 0 <= m < j - i ensures s[i..j][m] != c {
      assert s[i..j][m] == s[i + m];
    }
  }

  /** `strip()` twice is `strip()` once. */
  lemma StripIdempotent(s: string)
    ensures Strip(Strip(s)) == Strip(s)
  {
    var k := Strip(s);
    if k != [] {
      StrippedIsWord(s);
      assert [] + k + [] == k;
      StripPadded([], k, []);
    }
  }

  /** `strip()` of whitespace alone is empty. */
  lemma StripAllWhitespace(w: string)
    requires AllIn(w, Whitespace)
    ensures Strip(w) == []
  {
    assert w + [] == w;
    TrimLeftPadding(w, [], Whitespace);
  }

  /** Python's `p in s`. */
  predicate Contains(p: string, s: string)
    decreases |s|
  {
    p <= s || (|s| > 0 && Contains(p, s[1..]))
  }

  predicate OccursAt(p: string, s: string, i: int) {
    0 <= i && i + |p| <= |s| && s[i..i + |p|] == p
  }

  lemma {:induction false} ContainsWitness(p: string, s: string)
    requires Contains(p, s)
    ensures exists i :: OccursAt(p, s, i)
    decreases |s|
  {
    if p <= s {
      assert OccursAt(p, s, 0);
    } else {
      ContainsWitness(p, s[1..]);
      var i :| OccursAt(p, s[1..], i);
      assert s[1..][i..i + |p|] == s[i + 1..i + 1 + |p|];
      assert OccursAt(p, s, i + 1);
    }
  }

  lemma {:induction false} OccursImpliesContains(p: string, s: string, i: int)
    requires OccursAt(p, s, i)
    ensures Contains(p, s)
    decreases i
  {
    if i == 0 {
      assert s[0..|p|] == s[..|p|];
    } else {
      assert s[1..][i - 1..i - 1 + |p|] == s[i..i + |p|];
      OccursImpliesContains(p, s[1..], i - 1);
    }
  }

  /** The substring test holds exactly when the pattern occurs at some position. */
  lemma ContainsIff(p: string, s: string)
    ensures Contains(p, s) <==> exists i :: OccursAt(p, s, i)
  {
    if Contains(p, s) {
      ContainsWitness(p, s);
    }
    forall i | OccursAt(p, s, i) ensures Contains(p, s) {
      OccursImpliesContains(p, s, i);
    }
  }

  lemma AppendAssoc<T>(a: seq<T>, b: seq<T>, c: seq<T>)
    ensures a + (b + c) == (a + b) + c
  {
  }

  lemma AppendEmpty<T>(a: seq<T>)
    ensures [] + a == a
  {
  }

  lemma AppendTail<T>(a: seq<T>, b: seq<T>)
    requires a != []
    ensures (a + b)[0] == a[0] && (a + b)[1..] == a[1..] + b
  {
  }

  /** `sep.join(parts)`. */
  function Join(parts: seq<string>, sep: string): string
    decreases |parts|
  {
    if |parts| == 0 then []
    else if |parts| == 1 then parts[0]
    else parts[0] + sep + Join(parts[1..], sep)
  }

  /** `s.split(sep)` for a non-empty separator: never an empty list, empty fields kept. */
  function Split(s: string, sep: string): (parts: seq<string>)
    requires |sep| > 0
    ensures |parts| >= 1
    decreases |s|
  {
    if sep <= s then [[]] + Split(s[|sep|..], sep)
    else if s == [] then [[]]
    else
      var rest := Split(s[1..], sep);
      [[s[0]] + rest[0]] + rest[1..]
  }

  /** `s.replace(pat, rep)` for a non-empty pattern: occurrences replaced left to right, without overlap. */
  function Replace(s: string, pat: string, rep: string): string
    requires |pat| > 0
    decreases |s|
  {
    if pat <= s then rep + Replace(s[|pat|..], pat, rep)
    else if s == [] then []
    else [s[0]] + Replace(s[1..], pat, rep)
  }

  /** Python's identity `s.replace(pat, rep) == by.join(s.split(pat))`. */
  lemma {:induction false} ReplaceIsJoinOfSplit(s: string, pat: string, rep: string)
    requires |pat| > 0
    ensures Replace(s, pat, rep) == Join(Split(s, pat), rep)
    decreases |s|
  {
    if pat <= s {
      var rest := Split(s[|pat|..], pat);
      ReplaceIsJoinOfSplit(s[|pat|..], pat, rep);
      JoinCons([], rest, rep);
    } else if s != [] {
      var rest := Split(s[1..], pat);
      ReplaceIsJoinOfSplit(s[1..], pat, rep);
      JoinExtendHead(s[0], rest, rep);
    }
  }

  lemma JoinCons(x: string, rest: seq<string>, sep: string)
    requires |rest| >= 1
    ensures Join([x] + rest, sep) == x + sep + Join(rest, sep)
  {
    assert ([x] + rest)[1..] == rest;
  }

  lemma JoinExtendHead(c: char, rest: seq<string>, sep: string)
    requires |rest| >= 1
    ensures Join([[c] + rest[0]] + rest[1..], sep) == [c] + Join(rest, sep)
  {
    if |rest| > 1 {
      JoinCons([c] + rest[0], rest[1..], sep);
      JoinCons(rest[0], rest[1..], sep);
      assert [rest[0]] + rest[1..] == rest;
    }
  }

  /** Replacing a pattern by itself changes nothing. */
  lemma {:induction false} ReplaceBySelf(s: string, pat: string)
    requires |pat| > 0
    ensures Replace(s, pat, pat) == s
    decreases |s|
  {
    if pat <= s {
      ReplaceBySelf(s[|pat|..], pat);
      assert s == pat + s[|pat|..];
    } else if s != [] {
      ReplaceBySelf(s[1..], pat);
      assert s == [s[0]] + s[1..];
    }
  }

  /** Joining the pieces of a split with the same separator gives the string back. */
  lemma JoinSplitRoundTrip(s: string, sep: string)
    requires |sep| > 0
    ensures Join(Split(s, sep), sep) == s
  {
    ReplaceIsJoinOfSplit(s, sep, sep);
    ReplaceBySelf(s, sep);
  }

  /** A pattern that does not occur is not replaced. */
  lemma {:induction false} ReplaceAbsent(s: string, pat: string, rep: string)
    requires |pat| > 0
    requires !Contains(pat, s)
    ensures Replace(s, pat, rep) == s
    decreases |s|
  {
    if s != [] {
      ReplaceAbsent(s[1..], pat, rep);
      assert s == [s[0]] + s[1..];
    }
  }

  /** A prefix holding no first character of the pattern passes through unchanged. */
  lemma {:induction false} ReplaceSkipsPrefix(a: string, b: string, pat: string, rep: string)
    requires |pat| > 0
    requires pat[0] !in a
    ensures Replace(a + b, pat, rep) == a + Replace(b, pat, rep)
    decreases |a|
  {
    if a != [] {
      assert (a + b)[0] == a[0];
      assert (a + b)[1..] == a[1..] + b;
      ReplaceSkipsPrefix(a[1..], b, pat, rep);
    } else {
      assert a + b == b;
    }
  }

  /** Text without the pattern's first character holds no occurrence of it and is left as it is. */
  lemma ReplaceWithoutFirstChar(s: string, pat: string, rep: string)
    requires |pat| > 0 && pat[0] !in s
    ensures Replace(s, pat, rep) == s
  {
    ReplaceSkipsPrefix(s, [], pat, rep);
    assert s + [] == s;
  }

  lemma {:induction false} JoinAvoids(parts: seq<string>, sep: string, c: char)
    requires c !in sep
    requires forall p <- parts :: c !in p
    ensures c !in Join(parts, sep)
    decreases |parts|
  {
    if |parts| > 1 {
      assert parts[0] in parts;
      assert forall p <- parts[1..] :: p in parts;
      JoinAvoids(parts[1..], sep, c);
    } else if |parts| == 1 {
      assert parts[0] in parts;
    }
  }

  /** Pieces without the pattern's first character, joined by the pattern: every joint is replaced. */
  lemma {:induction false} ReplaceJoin(parts: seq<string>, pat: string, rep: string)
    requires |pat| > 0
    requires forall p <- parts :: pat[0] !in p
    ensures Replace(Join(parts, pat), pat, rep) == Join(parts, rep)
    decreases |parts|
  {
    if |parts| == 1 {
      assert parts[0] in parts;
      ReplaceWithoutFirstChar(parts[0], pat, rep);
    } else if |parts| > 1 {
      var tail := Join(parts[1..], pat);
      assert parts[0] in parts;
      assert forall p <- parts[1..] :: p in parts;
      assert parts[0] + pat + tail == parts[0] + (pat + tail);
      ReplaceSkipsPrefix(parts[0], pat + tail, pat, rep);
      ReplaceAtStart(tail, pat, rep);
      ReplaceJoin(parts[1..], pat, rep);
      assert parts[0] + (rep + Join(parts[1..], rep)) == parts[0] + rep + Join(parts[1..], rep);
    }
  }

  /**
   * Pieces without the pattern's first character, joined by a separator that starts
   * like the pattern but differs from it at the second character: nothing is replaced.
   */
  lemma {:induction false} ReplaceJoinOther(parts: seq<string>, sep: string, pat: string, rep: string)
    requires |pat| > 1 && |sep| > 1 && pat[0] == sep[0] && pat[1] != sep[1] && pat[0] !in sep[1..]
    requires forall p <- parts :: pat[0] !in p
    ensures Replace(Join(parts, sep), pat, rep) == Join(parts, sep)
    decreases |parts|
  {
    if |parts| == 1 {
      assert parts[0] in parts;
      ReplaceWithoutFirstChar(parts[0], pat, rep);
    } else if |parts| > 1 {
      var tail := Join(parts[1..], sep);
      assert parts[0] in parts;
      assert forall p <- parts[1..] :: p in parts;
      assert parts[0] + sep + tail == parts[0] + (sep + tail);
      ReplaceSkipsPrefix(parts[0], sep + tail, pat, rep);
      ReplaceJoinOther(parts[1..], sep, pat, rep);
      ReplaceAfterMismatch(sep, tail, pat, rep);
    }
  }

  lemma ReplaceAfterMismatch(sep: string, tail: string, pat: string, rep: string)
    requires |pat| > 1 && |sep| > 1 && pat[0] == sep[0] && pat[1] != sep[1] && pat[0] !in sep[1..]
    requires Replace(tail, pat, rep) == tail
    ensures Replace(sep + tail, pat, rep) == sep + tail
  {
    var s := sep + tail;
    assert s[1] == sep[1];
    assert !(pat <= s);
    assert s[1..] == sep[1..] + tail;
    ReplaceSkipsPrefix(sep[1..], tail, pat, rep);
    assert [s[0]] + (sep[1..] + tail) == s;
  }

  lemma ReplaceAtStart(b: string, pat: string, rep: string)
    requires |pat| > 0
    ensures Replace(pat + b, pat, rep) == rep + Replace(b, pat, rep)
  {
    assert (pat + b)[|pat|..] == b;
  }

  /** A substring of a part is a substring of the whole. */
  lemma ContainsInConcat(p: string, a: string, b: string)
    ensures Contains(p, a) ==> Contains(p, a + b)
    ensures Contains(p, b) ==> Contains(p, a + b)
  {
    if Contains(p, a) {
      ContainsWitness(p, a);
      var i :| OccursAt(p, a, i);
      assert (a + b)[i..i + |p|] == a[i..i + |p|];
      OccursImpliesContains(p, a + b, i);
    }
    if Contains(p, b) {
      ContainsWitness(p, b);
      var i :| OccursAt(p, b, i);
      assert (a + b)[|a| + i..|a| + i + |p|] == b[i..i + |p|];
      OccursImpliesContains(p, a + b, |a| + i);
    }
  }

  lemma {:induction false} SplitNoSeparator(x: string, c: char)
    requires c !in x
    ensures Split(x, [c]) == [x]
    decreases |x|
  {
    if x != [] {
      SplitNoSeparator(x[1..], c);
      assert [x[0]] + x[1..] == x;
    }
  }

  lemma {:induction false} SplitAfterField(x: string, c: char, y: string)
    requires c !in x
    ensures Split(x + [c] + y, [c]) == [x] + Split(y, [c])
    decreases |x|
  {
    var s := x + [c] + y;
    if x == [] {
      assert [c] <= s;
      assert s[1..] == y;
    } else {
      assert s[0] == x[0];
      assert !([c] <= s);
      assert s[1..] == x[1..] + [c] + y;
      SplitAfterField(x[1..], c, y);
      assert [x[0]] + x[1..] == x;
    }
  }

  /** Splitting on a one-character separator undoes the join when no part holds that character. */
  lemma {:induction false} SplitJoinRoundTrip(parts: seq<string>, c: char)
    requires |parts| >= 1
    requires forall i :: 0 <= i < |parts| ==> c !in parts[i]
    ensures Split(Join(parts, [c]), [c]) == parts
    decreases |parts|
  {
    if |parts| == 1 {
      SplitNoSeparator(parts[0], c);
    } else {
      SplitJoinRoundTrip(parts[1..], c);
      SplitAfterField(parts[0], c, Join(parts[1..], [c]));
      assert [parts[0]] + parts[1..] == parts;
    }
  }

  /** No part of a split on a one-character separator holds that character. */
  lemma {:induction false} SplitPartsAvoidSeparator(s: string, c: char)
    ensures forall part <- Split(s, [c]) :: c !in part
    decreases |s|
  {
    if [c] <= s {
      SplitPartsAvoidSeparator(s[1..], c);
    } else if s != [] {
      SplitPartsAvoidSeparator(s[1..], c);
      assert s[0] != c;
      var rest := Split(s[1..], [c]);
      assert rest[0] in rest;
      assert forall part <- rest[1..] :: part in rest;
    }
  }
}
