/**
  Text primitives shared by the backend and the frontend model: case folding,
  substring search, Python's `str.strip()`, the `\b\w+\b` word tokenizer and
  the first-occurrence split used by `str.split(sep)[1]`.
 */
module Strings {

  /** ASCII case folding (Python `str.lower`, JavaScript `toLowerCase`) */
  function LowerChar(c: char): char {
    if 'A' <= c <= 'Z' then (c as int + 32) as char else c
  }

  predicate IsUpper(c: char) {
    'A' <= c <= 'Z'
  }

  /**
    Case folding of a whole text: the result has the same length, holds no
    upper-case letter, and agrees with the text character by character up to
    case.
   */
  function Lower(s: string): (r: string)
    ensures |r| == |s|
    ensures forall i :: 0 <= i < |r| ==> !IsUpper(r[i])
    ensures forall i :: 0 <= i < |s| ==> LowerChar(r[i]) == LowerChar(s[i])
  {
    seq(|s|, i requires 0 <= i < |s| => LowerChar(s[i]))
  }

  /** Folding a folded text changes nothing. */
  lemma LowerIdempotent(s: string)
    ensures Lower(Lower(s)) == Lower(s)
  {
    var r := Lower(s);
    forall i | 0 <= i < |r| ensures Lower(r)[i] == r[i] {
      assert !IsUpper(r[i]);
    }
  }

  /** Folding works character by character, so it distributes over concatenation. */
  lemma LowerAppend(a: string, b: string)
    ensures Lower(a + b) == Lower(a) + Lower(b)
  {
    forall i | 0 <= i < |a + b| ensures Lower(a + b)[i] == (Lower(a) + Lower(b))[i] {
      if i < |a| {
        assert (a + b)[i] == a[i];
      } else {
        assert (a + b)[i] == b[i - |a|];
      }
    }
  }

  predicate IsPrefix(p: string, s: string) {
    |p| <= |s| && s[..|p|] == p
  }

  predicate IsSuffix(p: string, s: string) {
    |p| <= |s| && s[|s| - |p|..] == p
  }

  /** `p` occurs in `s` starting at index `i` */
  predicate OccursAt(s: string, p: string, i: int) {
    0 <= i && i + |p| <= |s| && s[i..i + |p|] == p
  }

  /** An occurrence in either part is an occurrence in the concatenation. */
  lemma OccursInLeft(a: string, b: string, p: string, k: int)
    requires OccursAt(a, p, k)
    ensures OccursAt(a + b, p, k)
  {
    assert (a + b)[k..k + |p|] == a[k..k + |p|];
  }

  lemma OccursInRight(a: string, b: string, p: string, k: int)
    requires OccursAt(b, p, k)
    ensures OccursAt(a + b, p, |a| + k)
  {
    assert (a + b)[|a| + k..|a| + k + |p|] == b[k..k + |p|];
  }

  /** An occurrence in a prefix of `s` is an occurrence in `s`. */
  lemma OccursInExtension(a: string, s: string, p: string, k: int)
    requires IsPrefix(a, s) && OccursAt(a, p, k)
    ensures OccursAt(s, p, k)
  {
    assert s[k..k + |p|] == a[k..k + |p|];
  }

  /** Python `p in s`, JavaScript `s.includes(p)` */
  predicate Contains(s: string, p: string) {
    exists i | 0 <= i <= |s| - |p| :: OccursAt(s, p, i)
  }

  lemma ContainsAt(s: string, p: string, i: int)
    requires OccursAt(s, p, i)
    ensures Contains(s, p)
  {
  }

  lemma PrefixContained(p: string, s: string)
    requires IsPrefix(p, s)
    ensures Contains(s, p)
  {
    assert OccursAt(s, p, 0);
  }

  /** Substring containment is transitive. */
  lemma ContainsTransitive(s: string, q: string, p: string)
    requires Contains(s, q) && Contains(q, p)
    ensures Contains(s, p)
  {
    var i :| 0 <= i <= |s| - |q| && OccursAt(s, q, i);
    var j :| 0 <= j <= |q| - |p| && OccursAt(q, p, j);
    forall t | 0 <= t < |p| ensures s[i + j + t] == p[t] {
      assert q[j + t] == p[t];
      assert s[i + j + t] == q[j + t];
    }
    assert s[i + j..i + j + |p|] == p;
    assert OccursAt(s, p, i + j);
  }

  /** Index of the first occurrence of `p` in `s` at or after `k`, or -1 */
  function IndexFrom(s: string, p: string, k: nat): (r: int)
    decreases |s| - k
    ensures r == -1 ==> forall j :: k <= j ==> !OccursAt(s, p, j)
    ensures r != -1 ==> k <= r && OccursAt(s, p, r)
    ensures r != -1 ==> forall j :: k <= j < r ==> !OccursAt(s, p, j)
  {
    if k + |p| > |s| then -1
    else if s[k..k + |p|] == p then k
    else IndexFrom(s, p, k + 1)
  }

  /** The first-occurrence search `split` performs: the first occurrence of `p`, or -1 when there is none */
  function IndexOf(s: string, p: string): (r: int)
    ensures r == -1 <==> !Contains(s, p)
    ensures r != -1 ==> OccursAt(s, p, r)
    ensures forall j :: 0 <= j < r ==> !OccursAt(s, p, j)
  {
    IndexFrom(s, p, 0)
  }

  /**
    Python `s.split(sep)[1]` when `sep in s`: the text between the first and
    the second occurrence of `sep`, or to the end of `s` when there is no
    second one.
   */
  function SecondPiece(s: string, sep: string): (r: string)
    requires |sep| > 0 && Contains(s, sep)
    ensures !Contains(r, sep)
  {
    var i := IndexOf(s, sep);
    var rest := s[i + |sep|..];
    var j := IndexOf(rest, sep);
    if j == -1 then rest
    else
      NoOccurrenceInPrefix(rest, sep, j);
      rest[..j]
  }

  lemma NoOccurrenceInPrefix(t: string, p: string, j: nat)
    requires |p| > 0 && j <= |t|
    requires forall k :: 0 <= k < j ==> !OccursAt(t, p, k)
    ensures !Contains(t[..j], p)
  {
    forall k | 0 <= k <= j - |p| ensures !OccursAt(t[..j], p, k) {
      assert !OccursAt(t, p, k);
      assert t[..j][k..k + |p|] == t[k..k + |p|];
    }
  }

  /** The piece starts right after the first occurrence of `sep` and ends at the next one or at the end. */
  lemma SecondPieceBounds(s: string, sep: string) returns (start: nat, end: nat)
    requires |sep| > 0 && Contains(s, sep)
    ensures start == IndexOf(s, sep) + |sep| && start <= end <= |s|
    ensures s[start..end] == SecondPiece(s, sep)
    ensures end == |s| || OccursAt(s, sep, end)
    ensures forall k :: start <= k < end ==> !OccursAt(s, sep, k)
  {
    start := IndexOf(s, sep) + |sep|;
    var rest := s[start..];
    var j := IndexOf(rest, sep);
    if j != -1 {
      assert SecondPiece(s, sep) == rest[..j];
      OccursInSuffix(s, start, sep, j);
      end := start + j;
      NoOccurrenceShift(s, start, sep, j);
    } else {
      assert SecondPiece(s, sep) == rest;
      end := |s|;
      AbsentNowhere(rest, sep);
      NoOccurrenceShift(s, start, sep, |rest|);
    }
  }

  /** A pattern that does not occur occurs at no index. */
  lemma AbsentNowhere(t: string, p: string)
    requires !Contains(t, p)
    ensures forall j :: 0 <= j < |t| ==> !OccursAt(t, p, j)
  {
  }

  /** No occurrence among the first `m` positions of a suffix is none in the matching positions of `s`. */
  lemma NoOccurrenceShift(s: string, n: nat, p: string, m: nat)
    requires n <= |s|
    requires forall j :: 0 <= j < m ==> !OccursAt(s[n..], p, j)
    ensures forall k :: n <= k < n + m ==> !OccursAt(s, p, k)
  {
    forall k | n <= k < n + m ensures !OccursAt(s, p, k) {
      if OccursAt(s, p, k) {
        OccursInSuffixBack(s, n, p, k - n);
        assert false;
      }
    }
  }

  lemma OccursInSuffix(s: string, n: nat, p: string, j: int)
    requires n <= |s| && OccursAt(s[n..], p, j)
    ensures OccursAt(s, p, n + j) && s[n..n + j] == s[n..][..j]
  {
    assert s[n + j..n + j + |p|] == s[n..][j..j + |p|];
  }

  lemma OccursInSuffixBack(s: string, n: nat, p: string, j: nat)
    requires n <= |s| && OccursAt(s, p, n + j)
    ensures OccursAt(s[n..], p, j)
  {
    assert s[n + j..n + j + |p|] == s[n..][j..j + |p|];
  }

  /** Python `str.isspace` on one character: the code points Python counts as whitespace */
  predicate IsSpace(c: char) {
    var n := c as int;
    (0x09 <= n <= 0x0D) || (0x1C <= n <= 0x20) || n == 0x85 || n == 0xA0 ||
    n == 0x1680 || (0x2000 <= n <= 0x200A) || n == 0x2028 || n == 0x2029 ||
    n == 0x202F || n == 0x205F || n == 0x3000
  }

  predicate AllSpace(t: string) {
    forall k :: 0 <= k < |t| ==> IsSpace(t[k])
  }

  function StripLeft(s: string): (r: string)
    ensures |r| <= |s| && r == s[|s| - |r|..]
    ensures forall k :: 0 <= k < |s| - |r| ==> IsSpace(s[k])
    ensures r != [] ==> !IsSpace(r[0])
  {
    if s != [] && IsSpace(s[0]) then StripLeft(s[1..]) else s
  }

  function StripRight(s: string): (r: string)
    ensures |r| <= |s| && r == s[..|r|]
    ensures forall k :: |r| <= k < |s| ==> IsSpace(s[k])
    ensures r != [] ==> !IsSpace(r[|r| - 1])
  {
    if s != [] && IsSpace(s[|s| - 1]) then StripRight(s[..|s| - 1]) else s
  }

  /**
    Python `str.strip()`: `s` without its leading and trailing whitespace.
    The result is a contiguous piece of `s`, everything cut off is
    whitespace, and the result neither begins nor ends with whitespace.
   */
  function Strip(s: string): (r: string)
    ensures exists i | 0 <= i <= |s| - |r| :: OccursAt(s, r, i) && AllSpace(s[..i]) && AllSpace(s[i + |r|..])
    ensures r != [] ==> !IsSpace(r[0]) && !IsSpace(r[|r| - 1])
  {
    var l := StripLeft(s);
    var r := StripRight(l);
    StripPieces(s, l, r);
    r
  }

  lemma StripPieces(s: string, l: string, r: string)
    requires |l| <= |s| && l == s[|s| - |l|..] && forall k :: 0 <= k < |s| - |l| ==> IsSpace(s[k])
    requires |r| <= |l| && r == l[..|r|] && forall k :: |r| <= k < |l| ==> IsSpace(l[k])
    ensures var i := |s| - |l|;
            OccursAt(s, r, i) && AllSpace(s[..i]) && AllSpace(s[i + |r|..])
  {
    var i := |s| - |l|;
    assert s[i..i + |r|] == r;
    assert forall k :: i + |r| <= k < |s| ==> s[k] == l[k - i];
    assert AllSpace(s[..i]);
    var tail := s[i + |r|..];
    forall k | 0 <= k < |tail| ensures IsSpace(tail[k]) {
      assert tail[k] == l[|r| + k];
    }
  }

  /** A character matched by the regular expression class `\w` */
  predicate IsWordChar(c: char) {
    ('a' <= c <= 'z') || ('A' <= c <= 'Z') || ('0' <= c <= '9') || c == '_'
  }

  /** A non-empty run of word characters: what `\w+` matches */
  predicate IsRun(w: string) {
    |w| > 0 && forall k :: 0 <= k < |w| ==> IsWordChar(w[k])
  }

  /** Length of the run of word characters at the start of `s` */
  function RunLength(s: string): (n: nat)
    ensures n <= |s|
    ensures forall k :: 0 <= k < n ==> IsWordChar(s[k])
    ensures n < |s| ==> !IsWordChar(s[n])
  {
    if s != [] && IsWordChar(s[0]) then 1 + RunLength(s[1..]) else 0
  }

  /** A run followed by the end or by a non-word character has exactly its own length. */
  lemma {:induction false} RunLengthExact(s: string, n: nat)
    requires n <= |s| && (forall k :: 0 <= k < n ==> IsWordChar(s[k]))
    requires n == |s| || !IsWordChar(s[n])
    ensures RunLength(s) == n
  {
    if n > 0 {
      RunLengthExact(s[1..], n - 1);
    }
  }

  /**
    `re.findall(r'\b\w+\b', s)`: the maximal runs of word characters, left to
    right.
   */
  function Words(s: string): seq<string>
    decreases |s|
  {
    if s == [] then []
    else if !IsWordChar(s[0]) then Words(s[1..])
    else
      var n := RunLength(s);
      [s[..n]] + Words(s[n..])
  }

  /** Every word found is a run of word characters that occurs in the text. */
  lemma {:induction false} WordsAreRuns(s: string)
    ensures forall w :: w in Words(s) ==> IsRun(w) && Contains(s, w)
    decreases |s|
  {
    if s != [] && !IsWordChar(s[0]) {
      WordsAreRuns(s[1..]);
      ContainsInSuffix(s, 1, Words(s[1..]));
    } else if s != [] {
      var n := RunLength(s);
      WordsAreRuns(s[n..]);
      ContainsInSuffix(s, n, Words(s[n..]));
      assert OccursAt(s, s[..n], 0);
    }
  }

  /** What a suffix of `s` contains, `s` contains. */
  lemma ContainsInSuffix(s: string, n: nat, ws: seq<string>)
    requires n <= |s|
    requires forall w :: w in ws ==> Contains(s[n..], w)
    ensures forall w :: w in ws ==> Contains(s, w)
  {
    forall w | w in ws ensures Contains(s, w) {
      var i :| 0 <= i <= |s[n..]| - |w| && OccursAt(s[n..], w, i);
      assert s[i + n..i + n + |w|] == s[n..][i..i + |w|];
      ContainsAt(s, w, i + n);
    }
  }

  /** A maximal run at the front is the first word. */
  lemma WordsRun(w: string, rest: string)
    requires IsRun(w) && (rest == [] || !IsWordChar(rest[0]))
    ensures Words(w + rest) == [w] + Words(rest)
  {
    var s := w + rest;
    RunLengthExact(s, |w|);
    assert s[..|w|] == w && s[|w|..] == rest;
  }

  /** A text without word characters has no words. */
  lemma {:induction false} WordsNone(s: string)
    requires forall k :: 0 <= k < |s| ==> !IsWordChar(s[k])
    ensures Words(s) == []
  {
    if s != [] {
      WordsNone(s[1..]);
    }
  }

  /** One step of `WordsAppend`: a leading non-word character is skipped on both sides. */
  lemma WordsAppendSkip(a: string, b: string)
    requires a != [] && !IsWordChar(a[0])
    requires Words(a[1..] + b) == Words(a[1..]) + Words(b)
    ensures Words(a + b) == Words(a) + Words(b)
  {
    var ab := a + b;
    assert ab[0] == a[0] && ab[1..] == a[1..] + b;
    assert Words(ab) == Words(ab[1..]);
  }

  /** Regrouping a three-part concatenation. */
  lemma ConcatRegroup<T>(a: seq<T>, b: seq<T>, c: seq<T>)
    ensures a + b + c == a + (b + c)
  {
  }

  /** One step of `WordsAppend`: a leading run followed by a non-word character is the first word on both sides. */
  lemma WordsAppendRun(w: string, rest: string, b: string)
    requires IsRun(w) && rest != [] && !IsWordChar(rest[0])
    requires Words(rest + b) == Words(rest) + Words(b)
    ensures Words(w + rest + b) == Words(w + rest) + Words(b)
  {
    var restB := rest + b;
    assert restB[0] == rest[0];
    WordsRun(w, rest);
    WordsRun(w, restB);
    ConcatRegroup(w, rest, b);
  }


  /** Words never straddle a non-word character: tokenizing splits there. */
  lemma {:induction false} WordsAppend(a: string, b: string)
    requires a == [] || !IsWordChar(a[|a| - 1])
    ensures Words(a + b) == Words(a) + Words(b)
    decreases |a|
  {
    if a == [] {
      assert a + b == b;
    } else if !IsWordChar(a[0]) {
      var tail := a[1..];
      assert tail == [] || tail[|tail| - 1] == a[|a| - 1];
      WordsAppend(tail, b);
      WordsAppendSkip(a, b);
    } else {
      var n := RunLength(a);
      var w, tail := a[..n], a[n..];
      assert n < |a| && tail[|tail| - 1] == a[|a| - 1];
      assert a == w + tail;
      WordsAppend(tail, b);
      WordsAppendRun(w, tail, b);
    }
  }



}
