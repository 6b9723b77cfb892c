/** The handful of Python string operations the log parser relies on:
    `str.strip()`, `str.startswith`, the substring test `sub in s`, and
    `str.split(sep)` with an explicit separator. Strings are `seq<char>`. */
module Text {
  import opened Wrappers

  /** Python's `str.isspace()` for a single character: the ASCII
      whitespace, the information separators U+001C..U+001F, the next
      line character U+0085, the line and paragraph separators U+2028 and
      U+2029, and the Unicode space separators. */
  predicate IsSpace(c: char)
  {
    ('\t' <= c <= '\r') || ('\U{1C}' <= c <= ' ') || c == '\U{85}' || c == '\U{A0}'
    || c == '\U{1680}' || ('\U{2000}' <= c <= '\U{200A}') || c == '\U{2028}'
    || c == '\U{2029}' || c == '\U{202F}' || c == '\U{205F}' || c == '\U{3000}'
  }

  /** True when every character of `s` is whitespace (including the empty string). */
  predicate AllSpace(s: string)
  {
    forall k :: 0 <= k < |s| ==> IsSpace(s[k])
  }

  /** The first position at or after `i` that holds no whitespace, or `|s|`. */
  function SkipSpaceFrom(s: string, i: nat): (n: nat)
    requires i <= |s|
    ensures i <= n <= |s|
    ensures forall k :: i <= k < n ==> IsSpace(s[k])
    ensures n == |s| || !IsSpace(s[n])
    decreases |s| - i
  {
    if i < |s| && IsSpace(s[i]) then SkipSpaceFrom(s, i + 1) else i
  }

  /** The end of `s[lo..j]` once its trailing whitespace is cut away. */
  function SkipSpaceBack(s: string, lo: nat, j: nat): (m: nat)
    requires lo <= j <= |s|
    ensures lo <= m <= j
    ensures forall k :: m <= k < j ==> IsSpace(s[k])
    ensures m == lo || !IsSpace(s[m - 1])
    decreases j
  {
    if j > lo && IsSpace(s[j - 1]) then SkipSpaceBack(s, lo, j - 1) else j
  }

  /** `r` sits in `s` at position `a`, and everything around it is whitespace. */
  predicate TrimmedAt(s: string, r: string, a: int)
  {
    0 <= a <= |s| - |r| && r == s[a..a + |r|] && AllSpace(s[..a]) && AllSpace(s[a + |r|..])
  }

  /** Python's `s.strip()`: the longest infix of `s` that neither starts
      nor ends with whitespace, everything cut away being whitespace. */
  function Strip(s: string): (r: string)
    ensures r == [] || (!IsSpace(r[0]) && !IsSpace(r[|r| - 1]))
    ensures exists a :: TrimmedAt(s, r, a)
    ensures r == [] <==> AllSpace(s)
  {
    var a := SkipSpaceFrom(s, 0);
    var b := SkipSpaceBack(s, a, |s|);
    StripBounds(s, a, b);
    s[a..b]
  }

  /** The facts about the two cut points that make `s[a..b]` the strip of `s`. */
  lemma StripBounds(s: string, a: nat, b: nat)
    requires a <= b <= |s|
    requires forall k :: 0 <= k < a ==> IsSpace(s[k])
    requires forall k :: b <= k < |s| ==> IsSpace(s[k])
    requires a == |s| || !IsSpace(s[a])
    requires b == a || !IsSpace(s[b - 1])
    ensures TrimmedAt(s, s[a..b], a)
    ensures a < b ==> !IsSpace(s[a]) && !IsSpace(s[b - 1])
    ensures a == b <==> AllSpace(s)
  {
    assert forall k :: 0 <= k < a ==> s[..a][k] == s[k];
    assert forall k :: 0 <= k < |s| - b ==> s[b..][k] == s[b + k];
  }

  /** A string that neither starts nor ends with whitespace is its own strip. */
  lemma StripUnchanged(s: string)
    requires s == [] || (!IsSpace(s[0]) && !IsSpace(s[|s| - 1]))
    ensures Strip(s) == s
  {
    if s != [] {
      assert SkipSpaceFrom(s, 0) == 0;
      assert SkipSpaceBack(s, 0, |s|) == |s|;
    }
  }

  /** Stripping is idempotent: the parser's second `line.strip()` of an
      already stripped line changes nothing. */
  lemma StripIdempotent(s: string)
    ensures Strip(Strip(s)) == Strip(s)
  {
    StripUnchanged(Strip(s));
  }

  /** Python's `s.startswith(prefix)`. */
  predicate StartsWith(s: string, prefix: string)
  {
    |prefix| <= |s| && s[..|prefix|] == prefix
  }

  /** `sub` occurs in `s` starting at position `i`. */
  predicate OccursAt(s: string, sub: string, i: int)
  {
    0 <= i && i + |sub| <= |s| && s[i..i + |sub|] == sub
  }

  /** Python's `sub in s`. */
  predicate Contains(s: string, sub: string)
  {
    exists i :: 0 <= i <= |s| - |sub| && OccursAt(s, sub, i)
  }

  /** A string that starts with `open` and ends with `close`, without
      the two overlapping, is `open`, its middle, and `close`. */
  lemma Bracketed(s: string, open: string, close: string)
    requires |s| >= |open| + |close| && StartsWith(s, open) && s[|s| - |close|..] == close
    ensures s == open + s[|open|..|s| - |close|] + close
  {
    assert s == s[..|open|] + s[|open|..|s| - |close|] + s[|s| - |close|..];
  }

  /** The middle of `open + inner + close` is `inner`. */
  lemma Unbracketed(open: string, inner: string, close: string)
    ensures var s := open + inner + close;
            StartsWith(s, open) && s[|s| - |close|..] == close && s[|open|..|s| - |close|] == inner
  {
    var s := open + inner + close;
    assert s[..|open|] == open;
    assert s[|s| - |close|..] == close;
    assert s[|open|..|s| - |close|] == inner;
  }

  /** A character of `sub` that `s` lacks rules out every occurrence. */
  lemma AbsentCharacter(s: string, sub: string, c: char)
    requires c in sub && c !in s
    ensures !Contains(s, sub)
  {
  }

  /** The first position at or after `from` where `sub` occurs in `s`. */
  function IndexOf(s: string, sub: string, from: nat): (r: Option<nat>)
    decreases |s| - from
    ensures r.Some? ==> from <= r.value && OccursAt(s, sub, r.value)
                        && forall j :: from <= j < r.value ==> !OccursAt(s, sub, j)
    ensures r.None? ==> forall j :: from <= j ==> !OccursAt(s, sub, j)
  {
    if from + |sub| > |s| then None
    else if OccursAt(s, sub, from) then Some(from)
    else IndexOf(s, sub, from + 1)
  }

  /** Glues `parts` back together with `sep` between consecutive parts. */
  function Join(parts: seq<string>, sep: string): string
  {
    if |parts| == 0 then ""
    else if |parts| == 1 then parts[0]
    else parts[0] + sep + Join(parts[1..], sep)
  }

  /** Python's `s.split(sep)` for a non-empty separator: the pieces between
      the non-overlapping occurrences of `sep`, found left to right. */
  function Split(s: string, sep: string): (r: seq<string>)
    requires |sep| > 0
    decreases |s|
    ensures |r| >= 1
  {
    match IndexOf(s, sep, 0)
    case None => [s]
    case Some(k) => [s[..k]] + Split(s[k + |sep|..], sep)
  }

  /** The pieces of a split join back to `s`, none of them holds `sep`,
      and no occurrence starts inside a piece and runs into the separator
      after it, so every cut is at the leftmost occurrence. */
  lemma {:induction false} SplitPieces(s: string, sep: string)
    requires |sep| > 0
    decreases |s|
    ensures var r := Split(s, sep);
            && Join(r, sep) == s
            && (forall k :: 0 <= k < |r| ==> !Contains(r[k], sep))
            && (forall k :: 0 <= k < |r| - 1 ==> !Contains(r[k] + sep[..|sep| - 1], sep))
  {
    match IndexOf(s, sep, 0)
    case None =>
      assert forall j :: 0 <= j ==> !OccursAt(s, sep, j);
    case Some(k) =>
      var head, tail := s[..k], s[k + |sep|..];
      var rest := Split(tail, sep);
      SplitPieces(tail, sep);
      HeadBeforeFirstOccurrence(s, sep, k);
      assert Split(s, sep) == [head] + rest;
      assert ([head] + rest)[1..] == rest;
      assert s == head + sep + tail;
  }

  /** A slice of a prefix is the same slice of the whole. */
  lemma SliceOfPrefix(s: string, m: nat, i: nat, j: nat)
    requires i <= j <= m <= |s|
    ensures s[..m][i..j] == s[i..j]
  {
    assert forall k :: 0 <= k < j - i ==> s[..m][i..j][k] == s[i + k];
  }

  /** The text before the first occurrence of `sep` holds no occurrence of
      `sep`, not even one that runs into that first occurrence. */
  lemma HeadBeforeFirstOccurrence(s: string, sep: string, k: nat)
    requires |sep| > 0 && OccursAt(s, sep, k)
    requires forall j :: 0 <= j < k ==> !OccursAt(s, sep, j)
    ensures !Contains(s[..k], sep)
    ensures !Contains(s[..k] + sep[..|sep| - 1], sep)
  {
    var t := s[..k] + sep[..|sep| - 1];
    assert sep[..|sep| - 1] == s[k..k + |sep| - 1];
    assert t == s[..k + |sep| - 1];
    forall j | 0 <= j <= |t| - |sep|
      ensures !OccursAt(t, sep, j)
    {
      SliceOfPrefix(s, k + |sep| - 1, j, j + |sep|);
      assert j < k;
      assert !OccursAt(s, sep, j);
    }
    forall j | 0 <= j <= k - |sep|
      ensures !OccursAt(s[..k], sep, j)
    {
      SliceOfPrefix(s, k, j, j + |sep|);
      assert !OccursAt(s, sep, j);
    }
  }

  /** Splitting cuts at the first occurrence of the separator. */
  lemma SplitAtFirst(s: string, sep: string, k: nat)
    requires |sep| > 0 && OccursAt(s, sep, k)
    requires forall j :: 0 <= j < k ==> !OccursAt(s, sep, j)
    ensures Split(s, sep) == [s[..k]] + Split(s[k + |sep|..], sep)
  {
  }

  /** `x` holds no occurrence of `sep`, not even one that would run into
      a separator placed right after it: no occurrence of `sep` starts
      inside `x`. */
  predicate FieldBefore(x: string, sep: string)
    requires |sep| > 0
  {
    !Contains(x + sep[..|sep| - 1], sep)
  }

  /** An occurrence that ends by position `m` is an occurrence in `s[..m]`. */
  lemma OccursInPrefix(s: string, sub: string, j: nat, m: nat)
    requires j + |sub| <= m <= |s|
    ensures OccursAt(s, sub, j) ==> OccursAt(s[..m], sub, j)
  {
    SliceOfPrefix(s, m, j, j + |sub|);
  }

  /** A piece without the separator's first character cannot start an
      occurrence of it. */
  lemma FirstCharAbsentField(x: string, sep: string)
    requires |sep| > 0 && sep[0] !in x
    ensures FieldBefore(x, sep)
  {
    var t := x + sep[..|sep| - 1];
    forall j | 0 <= j <= |t| - |sep|
      ensures !OccursAt(t, sep, j)
    {
      assert t[j..j + |sep|][0] == t[j] == x[j];
    }
  }

  /** A piece followed by the separator is the first field of the split
      when no occurrence of the separator starts inside the piece. */
  lemma SplitAfterPiece(x: string, sep: string, rest: string)
    requires |sep| > 0 && FieldBefore(x, sep)
    ensures Split(x + sep + rest, sep) == [x] + Split(rest, sep)
  {
    var s := x + sep + rest;
    var m := |x| + |sep| - 1;
    assert s[..|x|] == x;
    assert s[|x|..|x| + |sep|] == sep;
    assert s[|x| + |sep|..] == rest;
    assert s[..m] == x + sep[..|sep| - 1];
    forall j | 0 <= j < |x|
      ensures !OccursAt(s, sep, j)
    {
      OccursInPrefix(s, sep, j, m);
    }
    SplitAtFirst(s, sep, |x|);
  }

  /** Three pieces joined by the separator split back into them, when no
      occurrence of the separator starts inside the first two and the
      last lacks it. */
  lemma SplitThree(a: string, b: string, c: string, sep: string)
    requires |sep| > 0 && FieldBefore(a, sep) && FieldBefore(b, sep) && !Contains(c, sep)
    ensures Split(a + sep + b + sep + c, sep) == [a, b, c]
  {
    Regroup(a, sep, b, c);
    SplitTwo(b, c, sep);
    SplitAfterPiece(a, sep, b + sep + c);
  }

  lemma Regroup(a: string, sep: string, b: string, c: string)
    ensures a + sep + b + sep + c == a + sep + (b + sep + c)
  {
  }

  /** Two pieces joined by the separator split back into them. */
  lemma SplitTwo(b: string, c: string, sep: string)
    requires |sep| > 0 && FieldBefore(b, sep) && !Contains(c, sep)
    ensures Split(b + sep + c, sep) == [b, c]
  {
    SplitWhole(c, sep);
    SplitAfterPiece(b, sep, c);
  }

  /** A string without the separator splits into itself alone. */
  lemma SplitWhole(s: string, sep: string)
    requires |sep| > 0 && !Contains(s, sep)
    ensures Split(s, sep) == [s]
  {
  }
}
