/** The three Python string built-ins the bulk-registration parser relies on:
    `str.strip()` with no argument, `str.split(sep)` and `str.split(sep, 1)`,
    for a one-character separator. */
module PyStr {

  /** The characters Python's `str.isspace()` accepts: the controls
      U+0009-U+000D and U+001C-U+001F, the space, NEL, NO-BREAK SPACE, and the
      Unicode space separators and line/paragraph separators. */
  const Whitespace: set<char> :=
    {
      '\U{9}', '\U{A}', '\U{B}', '\U{C}', '\U{D}', '\U{1C}', '\U{1D}', '\U{1E}',
      '\U{1F}', '\U{20}', '\U{85}', '\U{A0}', '\U{1680}', '\U{2000}', '\U{2001}', '\U{2002}',
      '\U{2003}', '\U{2004}', '\U{2005}', '\U{2006}', '\U{2007}', '\U{2008}', '\U{2009}', '\U{200A}',
      '\U{2028}', '\U{2029}', '\U{202F}', '\U{205F}', '\U{3000}'
    }

  predicate IsSpace(c: char) {
    c in Whitespace
  }

  /** Whitespace is what `str.isspace()` accepts, given by the code-point
      ranges of Python's whitespace table. */
  lemma IsSpaceRanges(c: char)
    ensures IsSpace(c) <==>
      ('\U{9}' <= c <= '\U{D}') || ('\U{1C}' <= c <= '\U{20}') ||
      c == '\U{85}' || c == '\U{A0}' || c == '\U{1680}' ||
      ('\U{2000}' <= c <= '\U{200A}') || c == '\U{2028}' || c == '\U{2029}' ||
      c == '\U{202F}' || c == '\U{205F}' || c == '\U{3000}'
  {
  }

  predicate AllSpace(s: string) {
    forall i :: 0 <= i < |s| ==> IsSpace(s[i])
  }

  /** A string with no leading and no trailing whitespace. */
  predicate IsStripped(s: string) {
    s == [] || (!IsSpace(s[0]) && !IsSpace(s[|s| - 1]))
  }

  /** Scanning forward from `i`, the index of the first character that is
      not whitespace, or `|s|` when there is none. */
  function SkipLeading(s: string, i: nat): (j: nat)
    requires i <= |s|
    ensures i <= j <= |s|
    ensures forall k :: i <= k < j ==> IsSpace(s[k])
    ensures j < |s| ==> !IsSpace(s[j])
    decreases |s| - i
  {
    if i < |s| && IsSpace(s[i]) then SkipLeading(s, i + 1) else i
  }

  /** Scanning backward from `j` but not below `lo`, the end of the text
      once the trailing whitespace is dropped. */
  function SkipTrailing(s: string, lo: nat, j: nat): (i: nat)
    requires lo <= j <= |s|
    ensures lo <= i <= j
    ensures forall k :: i <= k < j ==> IsSpace(s[k])
    ensures lo < i ==> !IsSpace(s[i - 1])
    decreases j
  {
    if lo < j && IsSpace(s[j - 1]) then SkipTrailing(s, lo, j - 1) else j
  }

  /** `s.strip()`: the text between the leading and the trailing whitespace.
      The result has no whitespace at either end and is empty exactly when
      `s` is all whitespace. */
  function Strip(s: string): (r: string)
    ensures IsStripped(r)
    ensures r == [] <==> AllSpace(s)
    ensures |r| <= |s|
  {
    var i := SkipLeading(s, 0);
    var j := SkipTrailing(s, i, |s|);
    s[i..j]
  }

  lemma {:induction false} SkipLeadingUnique(s: string, i: nat, n: nat)
    requires i <= n <= |s|
    requires forall k :: i <= k < n ==> IsSpace(s[k])
    requires n < |s| ==> !IsSpace(s[n])
    ensures SkipLeading(s, i) == n
    decreases n - i
  {
    if i < n {
      SkipLeadingUnique(s, i + 1, n);
    }
  }

  lemma {:induction false} SkipTrailingUnique(s: string, lo: nat, j: nat, m: nat)
    requires lo <= m <= j <= |s|
    requires forall k :: m <= k < j ==> IsSpace(s[k])
    requires lo < m ==> !IsSpace(s[m - 1])
    ensures SkipTrailing(s, lo, j) == m
    decreases j - m
  {
    if m < j {
      SkipTrailingUnique(s, lo, j - 1, m);
    }
  }

  /** Strip is determined by where the text starts and ends: when only
      whitespace lies outside `s[lo..hi]` and that slice neither starts nor
      ends with whitespace, the slice is the stripped string. */
  lemma StripBounds(s: string, lo: nat, hi: nat)
    requires lo <= hi <= |s|
    requires forall k :: 0 <= k < lo ==> IsSpace(s[k])
    requires forall k :: hi <= k < |s| ==> IsSpace(s[k])
    requires lo < hi ==> !IsSpace(s[lo]) && !IsSpace(s[hi - 1])
    ensures Strip(s) == s[lo..hi]
  {
    if lo < hi {
      SkipLeadingUnique(s, 0, lo);
      SkipTrailingUnique(s, lo, |s|, hi);
    } else {
      assert AllSpace(s);
    }
  }

  /** Stripping adds no character: one absent from the input is absent from
      the result. */
  lemma StripExcludes(s: string, c: char)
    requires c !in s
    ensures c !in Strip(s)
  {
    var i := SkipLeading(s, 0);
    var j := SkipTrailing(s, i, |s|);
    assert forall k :: 0 <= k < j - i ==> s[i..j][k] == s[i + k];
  }

  /** Strip only removes whitespace: the input is the result with a run of
      whitespace before it and a run of whitespace after it. */
  lemma StripDecompose(s: string) returns (pre: string, post: string)
    ensures s == pre + Strip(s) + post
    ensures AllSpace(pre) && AllSpace(post)
  {
    var i := SkipLeading(s, 0);
    var j := SkipTrailing(s, i, |s|);
    pre, post := s[..i], s[j..];
    assert s == s[..i] + s[i..j] + s[j..];
  }

  /** Whatever whitespace surrounds a stripped string, stripping gives that
      string back. */
  lemma StripUnique(pre: string, t: string, post: string)
    requires AllSpace(pre) && AllSpace(post) && IsStripped(t)
    ensures Strip(pre + t + post) == t
  {
    var x := pre + t + post;
    var lo, hi := |pre|, |pre| + |t|;
    forall k | 0 <= k < lo ensures IsSpace(x[k]) {
      assert x[k] == pre[k];
    }
    forall k | hi <= k < |x| ensures IsSpace(x[k]) {
      assert x[k] == post[k - hi];
    }
    assert x[lo..hi] == t;
    StripBounds(x, lo, hi);
  }

  /** Stripping twice is stripping once. */
  lemma StripIdempotent(s: string)
    ensures Strip(Strip(s)) == Strip(s)
  {
    var t := Strip(s);
    StripBounds(t, 0, |t|);
    assert t[0..|t|] == t;
  }

  /** Whitespace added at either end does not change the stripped string. */
  lemma StripPadding(a: string, s: string, b: string)
    requires AllSpace(a) && AllSpace(b)
    ensures Strip(a + s + b) == Strip(s)
  {
    var x := a + s + b;
    var i := SkipLeading(s, 0);
    var j := SkipTrailing(s, i, |s|);
    var lo, hi := |a| + i, |a| + j;
    assert forall k :: 0 <= k < |s| ==> x[|a| + k] == s[k];
    forall k | 0 <= k < lo ensures IsSpace(x[k]) {
      if k < |a| { assert x[k] == a[k]; }
    }
    forall k | hi <= k < |x| ensures IsSpace(x[k]) {
      if k >= |a| + |s| { assert x[k] == b[k - |a| - |s|]; }
    }
    forall k | 0 <= k < j - i ensures x[lo..hi][k] == s[i..j][k] {
      assert x[lo + k] == s[i + k];
    }
    assert x[lo..hi] == s[i..j];
    StripBounds(x, lo, hi);
  }

  /** Index of the first `c` in `s` at or after `i`, or `|s|` when there is
      none: the scan `str.find` and `str.split` perform. */
  function Find(s: string, c: char, i: nat): (k: nat)
    requires i <= |s|
    ensures i <= k <= |s|
    ensures forall m :: i <= m < k ==> s[m] != c
    ensures k < |s| ==> s[k] == c
    decreases |s| - i
  {
    if i == |s| || s[i] == c then i else Find(s, c, i + 1)
  }

  /** `s.split(sep, 1)`: `[s]` when `sep` does not occur, otherwise the text
      before the first `sep` and everything after it (later separators
      included). */
  function SplitOnce(s: string, sep: char): (parts: seq<string>)
    ensures sep !in s ==> parts == [s]
    ensures sep in s ==> |parts| == 2 && sep !in parts[0] && s == parts[0] + [sep] + parts[1]
  {
    var k := Find(s, sep, 0);
    if k == |s| then [s]
    else
      assert s == s[..k] + [sep] + s[k + 1..];
      [s[..k], s[k + 1..]]
  }

  /** The split at the first separator is the only split of its shape. */
  lemma SplitOnceUnique(before: string, sep: char, after: string)
    requires sep !in before
    ensures SplitOnce(before + [sep] + after, sep) == [before, after]
  {
    var s := before + [sep] + after;
    assert s[|before|] == sep;
    var parts := SplitOnce(s, sep);
    assert |parts[0]| == |before|;
    assert parts[0] == s[..|before|] == before;
    assert parts[1] == s[|before| + 1..] == after;
  }

  /** `s.split(sep)`: the pieces between separators, scanning left to
      right; always at least one. */
  function Split(s: string, sep: char): (pieces: seq<string>)
    ensures |pieces| >= 1
    decreases |s|
  {
    var k := Find(s, sep, 0);
    if k == |s| then [s] else [s[..k]] + Split(s[k + 1..], sep)
  }

  /** Split is a split at the first separator followed by a split of the
      rest. */
  lemma SplitUnfold(s: string, sep: char)
    ensures Split(s, sep) ==
      var parts := SplitOnce(s, sep);
      if |parts| == 1 then [s] else [parts[0]] + Split(parts[1], sep)
  {
  }

  /** No piece of a split contains the separator. */
  lemma {:induction false} SplitPiecesFree(s: string, sep: char)
    ensures forall i :: 0 <= i < |Split(s, sep)| ==> sep !in Split(s, sep)[i]
    decreases |s|
  {
    var parts := SplitOnce(s, sep);
    SplitUnfold(s, sep);
    if |parts| == 2 {
      SplitPiecesFree(parts[1], sep);
    }
  }

  /** `sep.join(pieces)`, the inverse of Split. */
  function Join(pieces: seq<string>, sep: char): string
    requires |pieces| >= 1
  {
    if |pieces| == 1 then pieces[0]
    else pieces[0] + [sep] + Join(pieces[1..], sep)
  }

  /** Joining the pieces with the separator restores the input. */
  lemma {:induction false} JoinSplit(s: string, sep: char)
    ensures Join(Split(s, sep), sep) == s
    decreases |s|
  {
    var parts := SplitOnce(s, sep);
    SplitUnfold(s, sep);
    if |parts| == 2 {
      JoinSplit(parts[1], sep);
      assert Split(s, sep)[1..] == Split(parts[1], sep);
    }
  }

  /** Splitting pieces joined by a separator they do not contain gives the
      pieces back. */
  lemma {:induction false} SplitJoin(pieces: seq<string>, sep: char)
    requires |pieces| >= 1
    requires forall i :: 0 <= i < |pieces| ==> sep !in pieces[i]
    ensures Split(Join(pieces, sep), sep) == pieces
  {
    SplitUnfold(Join(pieces, sep), sep);
    if |pieces| == 1 {
      assert sep !in pieces[0];
    } else {
      var rest := Join(pieces[1..], sep);
      assert sep !in pieces[0];
      SplitOnceUnique(pieces[0], sep, rest);
      SplitJoin(pieces[1..], sep);
      assert pieces == [pieces[0]] + pieces[1..];
    }
  }

  /** When a string does not start with the separator, its first piece is
      non-empty and starts as the string does. */
  lemma SplitFirstChar(s: string, sep: char)
    requires s != [] && s[0] != sep
    ensures var first := Split(s, sep)[0];
      first != [] && first[0] == s[0]
  {
  }

  /** When a string does not end with the separator, its last piece is
      non-empty and ends as the string does. */
  lemma {:induction false} SplitLastChar(s: string, sep: char)
    requires s != [] && s[|s| - 1] != sep
    ensures var pieces := Split(s, sep);
      var last := pieces[|pieces| - 1];
      last != [] && last[|last| - 1] == s[|s| - 1]
    decreases |s|
  {
    var k := Find(s, sep, 0);
    if k < |s| {
      var rest := s[k + 1..];
      assert rest[|rest| - 1] == s[|s| - 1];
      SplitLastChar(rest, sep);
    }
  }

  /** Number of occurrences of `c` in `s`. */
  function Count(s: string, c: char): nat {
    if s == [] then 0 else (if s[0] == c then 1 else 0) + Count(s[1..], c)
  }

  lemma {:induction false} CountAppend(a: string, b: string, c: char)
    ensures Count(a + b, c) == Count(a, c) + Count(b, c)
  {
    if a == [] {
      assert a + b == b;
    } else {
      assert (a + b)[1..] == a[1..] + b;
      CountAppend(a[1..], b, c);
    }
  }

  lemma {:induction false} CountAbsent(s: string, c: char)
    requires c !in s
    ensures Count(s, c) == 0
  {
    if s != [] {
      assert c !in s[1..];
      CountAbsent(s[1..], c);
    }
  }

  /** Split yields one more piece than there are separators. */
  lemma {:induction false} SplitLength(s: string, sep: char)
    ensures |Split(s, sep)| == Count(s, sep) + 1
    decreases |s|
  {
    var parts := SplitOnce(s, sep);
    SplitUnfold(s, sep);
    if |parts| == 1 {
      CountAbsent(s, sep);
    } else {
      SplitLength(parts[1], sep);
      CountAbsent(parts[0], sep);
      CountAppend(parts[0], [sep], sep);
      CountAppend(parts[0] + [sep], parts[1], sep);
      assert Count([sep], sep) == 1 by { assert [sep][1..] == []; }
    }
  }
}
