/** The string built-ins the catalog relies on: `toLowerCase`, `trim`,
    `includes` and `join(" ")`, and the `normalize` helper built from them.
    Strings are sequences of Unicode scalar values. */
module Text {

  type String = seq<char>

  /** The code points ECMAScript's `String.prototype.trim` removes: the
      WhiteSpace set (tab, vertical tab, form feed, space, no-break space,
      zero-width no-break space and the Unicode space separators) and the
      LineTerminator set (line feed, carriage return, line and paragraph
      separators). */
  predicate IsWhitespace(ch: char) {
    ch == '\t' || ch == '\n' || ch == '\U{B}' || ch == '\U{C}' || ch == '\r' || ch == ' '
    || ch == '\U{A0}' || ch == '\U{1680}' || ('\U{2000}' <= ch <= '\U{200A}')
    || ch == '\U{2028}' || ch == '\U{2029}' || ch == '\U{202F}' || ch == '\U{205F}'
    || ch == '\U{3000}' || ch == '\U{FEFF}'
  }

  predicate IsUpper(ch: char) {
    'A' <= ch <= 'Z'
  }

  /** Lower-case one character (the Basic Latin letters only). */
  function LowerChar(ch: char): (r: char)
    ensures !IsUpper(r)
    ensures IsWhitespace(r) <==> IsWhitespace(ch)
    ensures !IsUpper(ch) ==> r == ch
    ensures IsUpper(ch) ==> r as int == ch as int - 'A' as int + 'a' as int
  {
    if IsUpper(ch) then (ch as int - 'A' as int + 'a' as int) as char else ch
  }

  /** `s.toLowerCase()`, character by character. */
  function Lower(s: String): (r: String)
    ensures |r| == |s|
    ensures forall i :: 0 <= i < |s| ==> r[i] == LowerChar(s[i])
  {
    seq(|s|, i requires 0 <= i < |s| => LowerChar(s[i]))
  }

  predicate IsLower(s: String) {
    forall i :: 0 <= i < |s| ==> !IsUpper(s[i])
  }

  predicate AllWhitespace(s: String) {
    forall i :: 0 <= i < |s| ==> IsWhitespace(s[i])
  }

  /** Neither the first nor the last character is whitespace. */
  predicate Trimmed(s: String) {
    s == [] || (!IsWhitespace(s[0]) && !IsWhitespace(s[|s| - 1]))
  }

  /** Number of whitespace characters at the start of `s`. */
  function LeadingWhitespace(s: String): (k: nat)
    ensures k <= |s|
    ensures forall i :: 0 <= i < k ==> IsWhitespace(s[i])
    ensures k < |s| ==> !IsWhitespace(s[k])
  {
    if s != [] && IsWhitespace(s[0]) then 1 + LeadingWhitespace(s[1..]) else 0
  }

  /** Number of whitespace characters at the end of `s`. */
  function TrailingWhitespace(s: String): (k: nat)
    ensures k <= |s|
    ensures forall i :: |s| - k <= i < |s| ==> IsWhitespace(s[i])
    ensures k < |s| ==> !IsWhitespace(s[|s| - 1 - k])
  {
    if s != [] && IsWhitespace(s[|s| - 1]) then 1 + TrailingWhitespace(s[..|s| - 1]) else 0
  }

  /** Where the trimmed text starts: every character before is whitespace. */
  function TrimStart(s: String): (i: nat)
    ensures i <= |s|
    ensures forall k :: 0 <= k < i ==> IsWhitespace(s[k])
    ensures i < |s| ==> !IsWhitespace(s[i])
  {
    LeadingWhitespace(s)
  }

  /** Where the trimmed text ends: every character from here on is
      whitespace, and the one before is not, unless nothing is left. */
  function TrimEnd(s: String): (j: nat)
    ensures TrimStart(s) <= j <= |s|
    ensures forall k :: j <= k < |s| ==> IsWhitespace(s[k])
    ensures TrimStart(s) < j ==> !IsWhitespace(s[j - 1])
    ensures TrimStart(s) < |s| ==> TrimStart(s) < j
  {
    var i := TrimStart(s);
    var t := TrailingWhitespace(s);
    if |s| - t < i then i else |s| - t
  }

  /** `s.trim()`: the text between the leading and the trailing whitespace,
      which itself has no whitespace at either edge. */
  function Trim(s: String): (r: String)
    ensures Trimmed(r)
    ensures r == s[TrimStart(s)..TrimEnd(s)]
  {
    s[TrimStart(s)..TrimEnd(s)]
  }

  /** `normalize(value)`: lower-case, then trim. */
  function Normalize(s: String): (r: String)
    ensures Trimmed(r) && IsLower(r)
  {
    Trim(Lower(s))
  }

  ghost predicate OccursAt(s: String, q: String, i: int) {
    0 <= i && i + |q| <= |s| && s[i..i + |q|] == q
  }

  /** `s.includes(q)`. */
  function Includes(s: String, q: String): (b: bool)
    ensures b <==> exists i :: OccursAt(s, q, i)
    decreases |s|
  {
    if |q| > |s| then false
    else if s[..|q|] == q then (assert OccursAt(s, q, 0); true)
    else
      var b := Includes(s[1..], q);
      assert forall i :: OccursAt(s[1..], q, i) ==> OccursAt(s, q, i + 1);
      assert forall i :: OccursAt(s, q, i) && i > 0 ==> OccursAt(s[1..], q, i - 1);
      b
  }

  // ---------------------------------------------------------------------
  // Subsequences

  /** `a` is `b` with some elements left out, the rest kept in order. */
  ghost predicate IsSubsequence<T>(a: seq<T>, b: seq<T>)
    decreases |b|
  {
    if a == [] then true
    else if b == [] then false
    else (a[0] == b[0] && IsSubsequence(a[1..], b[1..])) || IsSubsequence(a, b[1..])
  }

  lemma {:induction false} SubsequenceLength<T>(a: seq<T>, b: seq<T>)
    requires IsSubsequence(a, b)
    ensures |a| <= |b|
    decreases |b|
  {
    if a != [] {
      if a[0] == b[0] && IsSubsequence(a[1..], b[1..]) {
        SubsequenceLength(a[1..], b[1..]);
      } else {
        SubsequenceLength(a, b[1..]);
      }
    }
  }

  /** Total number of characters in `parts`. */
  function TotalLength(parts: seq<String>): nat
  {
    if parts == [] then 0 else |parts[0]| + TotalLength(parts[1..])
  }

  /** `parts.join(" ")`: the parts in order, one space between neighbours. */
  function Join(parts: seq<String>): (r: String)
    ensures parts == [] ==> r == []
    ensures parts != [] ==> |r| == TotalLength(parts) + |parts| - 1
    ensures parts != [] ==> r[..|parts[0]|] == parts[0]
  {
    if parts == [] then []
    else if |parts| == 1 then parts[0]
    else parts[0] + " " + Join(parts[1..])
  }

  /** `parts.filter(Boolean)`: the non-empty strings, in order. */
  function NonEmpty(parts: seq<String>): (r: seq<String>)
    ensures forall p :: p in r <==> p in parts && p != []
    ensures IsSubsequence(r, parts)
    ensures multiset(r) == multiset(parts)[[] := 0]
    ensures |r| <= |parts|
  {
    if parts == [] then []
    else
      var rest := NonEmpty(parts[1..]);
      assert parts == [parts[0]] + parts[1..];
      if parts[0] == [] then rest
      else
        assert ([parts[0]] + rest)[1..] == rest;
        [parts[0]] + rest
  }

  // ---------------------------------------------------------------------
  // Properties of lower-casing and trimming

  lemma {:induction false} LowerOfLower(s: String)
    requires IsLower(s)
    ensures Lower(s) == s
  {
    if s != [] {
      LowerOfLower(s[1..]);
    }
  }

  lemma LowerSlice(s: String, i: int, j: int)
    requires 0 <= i <= j <= |s|
    ensures Lower(s[i..j]) == Lower(s)[i..j]
  {
  }

  /** Trimming is determined by its contract: cutting a whitespace-only
      prefix and suffix so that no whitespace is left at either edge gives
      exactly `Trim(s)`. */
  lemma TrimUnique(s: String, i: int, j: int)
    requires 0 <= i <= j <= |s|
    requires forall k :: 0 <= k < i ==> IsWhitespace(s[k])
    requires forall k :: j <= k < |s| ==> IsWhitespace(s[k])
    requires Trimmed(s[i..j])
    ensures Trim(s) == s[i..j]
  {
    var a, b := TrimStart(s), TrimEnd(s);
    if i < j {
      assert !IsWhitespace(s[i]) && !IsWhitespace(s[j - 1]);
      assert a == i;
      assert b == j;
    } else {
      assert forall k :: 0 <= k < |s| ==> IsWhitespace(s[k]);
      assert a == |s|;
    }
  }

  lemma TrimOfTrimmed(s: String)
    requires Trimmed(s)
    ensures Trim(s) == s
  {
    TrimUnique(s, 0, |s|);
  }

  /** `normalize(normalize(s)) == normalize(s)`. */
  lemma NormalizeIdempotent(s: String)
    ensures Normalize(Normalize(s)) == Normalize(s)
  {
    var n := Normalize(s);
    LowerOfLower(n);
    TrimOfTrimmed(n);
  }

  /** Upper- and lower-case queries normalize alike. */
  lemma NormalizeIgnoresCase(s: String)
    ensures Normalize(Lower(s)) == Normalize(s)
  {
    LowerOfLower(Lower(s));
  }

  lemma LowerConcat(a: String, b: String)
    ensures Lower(a + b) == Lower(a) + Lower(b)
  {
    assert forall k :: 0 <= k < |a| ==> (a + b)[k] == a[k];
    assert forall k :: |a| <= k < |a| + |b| ==> (a + b)[k] == b[k - |a|];
  }

  // Where the trimmed text of `y` sits inside `p + y` and `y + p`, one fact
  // per lemma.

  lemma LeftPadPrefix(p: String, y: String)
    requires AllWhitespace(p)
    ensures forall k :: 0 <= k < |p| + TrimStart(y) ==> IsWhitespace((p + y)[k])
  {
    var s, n := p + y, |p|;
    forall k | 0 <= k < n + TrimStart(y) ensures IsWhitespace(s[k]) {
      if k < n { assert s[k] == p[k]; } else { assert s[k] == y[k - n]; }
    }
  }

  lemma LeftPadSuffix(p: String, y: String)
    ensures forall k :: |p| + TrimEnd(y) <= k < |p| + |y| ==> IsWhitespace((p + y)[k])
  {
    var s, n := p + y, |p|;
    forall k | n + TrimEnd(y) <= k < n + |y| ensures IsWhitespace(s[k]) {
      assert s[k] == y[k - n];
    }
  }

  lemma LeftPadMiddle(p: String, y: String)
    ensures (p + y)[|p| + TrimStart(y)..|p| + TrimEnd(y)] == Trim(y)
  {
    var s, n := p + y, |p|;
    assert s[n..] == y;
    assert s[n + TrimStart(y)..n + TrimEnd(y)] == s[n..][TrimStart(y)..TrimEnd(y)];
  }

  lemma TrimIgnoresLeftPadding(p: String, y: String)
    requires AllWhitespace(p)
    ensures Trim(p + y) == Trim(y)
  {
    LeftPadPrefix(p, y);
    LeftPadSuffix(p, y);
    LeftPadMiddle(p, y);
    TrimUnique(p + y, |p| + TrimStart(y), |p| + TrimEnd(y));
  }

  lemma RightPadPrefix(y: String, p: String)
    ensures forall k :: 0 <= k < TrimStart(y) ==> IsWhitespace((y + p)[k])
  {
    forall k | 0 <= k < TrimStart(y) ensures IsWhitespace((y + p)[k]) {
      assert (y + p)[k] == y[k];
    }
  }

  lemma RightPadSuffix(y: String, p: String)
    requires AllWhitespace(p)
    ensures forall k :: TrimEnd(y) <= k < |y| + |p| ==> IsWhitespace((y + p)[k])
  {
    var s := y + p;
    forall k | TrimEnd(y) <= k < |s| ensures IsWhitespace(s[k]) {
      if k < |y| { assert s[k] == y[k]; } else { assert s[k] == p[k - |y|]; }
    }
  }

  lemma RightPadMiddle(y: String, p: String)
    ensures (y + p)[TrimStart(y)..TrimEnd(y)] == Trim(y)
  {
    var s := y + p;
    assert s[..|y|] == y;
    assert s[TrimStart(y)..TrimEnd(y)] == s[..|y|][TrimStart(y)..TrimEnd(y)];
  }

  lemma TrimIgnoresRightPadding(y: String, p: String)
    requires AllWhitespace(p)
    ensures Trim(y + p) == Trim(y)
  {
    RightPadPrefix(y, p);
    RightPadSuffix(y, p);
    RightPadMiddle(y, p);
    TrimUnique(y + p, TrimStart(y), TrimEnd(y));
  }

  /** Whitespace around a string does not change its trimmed form. */
  lemma TrimIgnoresPadding(p1: String, x: String, p2: String)
    requires AllWhitespace(p1) && AllWhitespace(p2)
    ensures Trim(p1 + x + p2) == Trim(x)
  {
    TrimIgnoresRightPadding(p1 + x, p2);
    TrimIgnoresLeftPadding(p1, x);
  }

  /** Whitespace around a string does not change its normalized form. */
  lemma NormalizeIgnoresPadding(w1: String, q: String, w2: String)
    requires AllWhitespace(w1) && AllWhitespace(w2)
    ensures Normalize(w1 + q + w2) == Normalize(q)
  {
    LowerConcat(w1 + q, w2);
    LowerConcat(w1, q);
    TrimIgnoresPadding(Lower(w1), Lower(q), Lower(w2));
  }

  /** Whitespace-only strings, the empty one included, normalize to "". */
  lemma NormalizeBlank(s: String)
    ensures Normalize(s) == [] <==> AllWhitespace(s)
  {
    var t := Lower(s);
    if AllWhitespace(s) {
      assert TrimStart(t) == |s|;
    }
    if Normalize(s) == [] {
      assert TrimStart(t) == |t|;
      forall k | 0 <= k < |s| ensures IsWhitespace(s[k]) {
        assert IsWhitespace(t[k]);
      }
    }
  }

  /** An infix of an infix is an infix. */
  lemma OccursTransitive(s: String, m: String, q: String, i: int, j: int)
    requires OccursAt(s, m, i) && OccursAt(m, q, j)
    ensures OccursAt(s, q, i + j)
  {
    forall k | 0 <= k < |q|
      ensures s[i + j..i + j + |q|][k] == q[k]
    {
      assert q[k] == m[j..j + |q|][k] == m[j + k];
      assert m[j + k] == s[i..i + |m|][j + k];
    }
  }

  /** A trimmed infix of `s` survives trimming `s`: trimming removes
      whitespace only, and a non-empty trimmed infix starts and ends with a
      character that is not whitespace. */
  lemma TrimKeepsInfix(s: String, q: String, a: int)
    requires OccursAt(s, q, a) && Trimmed(q)
    ensures Includes(Trim(s), q)
  {
    var r := Trim(s);
    var i, j := TrimStart(s), TrimEnd(s);
    if q == [] {
      assert OccursAt(r, q, 0);
    } else {
      assert q[0] == s[a];
      assert q[|q| - 1] == s[a + |q| - 1];
      assert i <= a;
      assert a + |q| <= j;
      forall k | 0 <= k < |q| ensures r[a - i + k] == q[k] {
        assert q[k] == s[a + k];
      }
      assert r[a - i..a - i + |q|] == q;
      assert OccursAt(r, q, a - i);
    }
  }

  lemma LowerKeepsInfix(s: String, f: String, a: int)
    requires OccursAt(s, f, a)
    ensures OccursAt(Lower(s), Lower(f), a)
  {
    LowerSlice(s, a, a + |f|);
  }

  lemma TrimIsInfix(s: String)
    ensures OccursAt(s, Trim(s), TrimStart(s))
  {
  }

  /** Whatever occurs in `s` occurs, normalized, in `normalize(s)`. */
  lemma NormalizeKeepsInfix(s: String, f: String, a: int)
    requires OccursAt(s, f, a)
    ensures Includes(Normalize(s), Normalize(f))
  {
    var lf, ls := Lower(f), Lower(s);
    var nf, i := Trim(lf), TrimStart(lf);
    assert OccursAt(ls, nf, a + i) by {
      LowerKeepsInfix(s, f, a);
      TrimIsInfix(lf);
      OccursTransitive(ls, lf, nf, a, i);
    }
    assert Trimmed(nf);
    TrimKeepsInfix(ls, nf, a + i);
  }

  lemma OccursAfterPrefix(pre: String, t: String, q: String, a: int)
    requires OccursAt(t, q, a)
    ensures OccursAt(pre + t, q, |pre| + a)
  {
    var s := pre + t;
    assert s[|pre|..] == t;
    assert s[|pre| + a..|pre| + a + |q|] == s[|pre|..][a..a + |q|];
  }

  /** Where each part sits in `parts.join(" ")`: part `k` starts after the
      `k` parts before it and one space after each of them, and a space
      precedes it. With the length clause of `Join`, this fixes the joined
      string completely. */
  lemma {:induction false} JoinAt(parts: seq<String>, k: int)
    requires 0 <= k < |parts|
    ensures OccursAt(Join(parts), parts[k], TotalLength(parts[..k]) + k)
    ensures 0 < k ==> Join(parts)[TotalLength(parts[..k]) + k - 1] == ' '
  {
    var j := Join(parts);
    if k == 0 {
      assert parts[..0] == [];
      assert j[0..|parts[0]|] == parts[0];
    } else {
      var tail := parts[1..];
      var pre := parts[0] + " ";
      JoinAt(tail, k - 1);
      assert parts[..k][1..] == tail[..k - 1];
      assert TotalLength(parts[..k]) == |parts[0]| + TotalLength(tail[..k - 1]);
      assert tail[k - 1] == parts[k];
      assert j == pre + Join(tail);
      OccursAfterPrefix(pre, Join(tail), parts[k], TotalLength(tail[..k - 1]) + k - 1);
      if k == 1 {
        assert j[|parts[0]|] == pre[|parts[0]|] == ' ';
      } else {
        var p := TotalLength(tail[..k - 1]) + k - 2;
        assert j[|pre| + p] == Join(tail)[p];
      }
    }
  }

  /** Every part occurs, contiguously, in the joined string. */
  lemma JoinContains(parts: seq<String>, k: int)
    requires 0 <= k < |parts|
    ensures exists a :: OccursAt(Join(parts), parts[k], a)
  {
    JoinAt(parts, k);
  }
}
