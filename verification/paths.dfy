/** The string handling the per-file pipeline relies on: Go's `filepath.Ext` and
    `filepath.Base` with '/' as the separator, `strings.ToLower` on ASCII letters,
    `strings.TrimSuffix`, and `%d` formatting of a non-negative integer together with the
    decimal reading that inverts it. */
module Paths {
  import opened Options

  /** The index of the '.' that starts the extension of `path[..n]`: the scan walks back
      from position n - 1 and stops at the first '.' (found) or '/' (none). */
  function DotIndex(path: string, n: nat): (r: Option<nat>)
    requires n <= |path|
    ensures r.Some? ==> r.value < n && path[r.value] == '.'
    ensures r.Some? ==> forall k :: r.value < k < n ==> path[k] != '.' && path[k] != '/'
    ensures r.None? ==> forall k :: 0 <= k < n && path[k] == '.' ==> exists j :: k < j < n && path[j] == '/'
  {
    if n == 0 || path[n - 1] == '/' then None
    else if path[n - 1] == '.' then Some(n - 1)
    else DotIndex(path, n - 1)
  }

  /** `filepath.Ext`: the suffix from the last '.' of the final path element, or "" when
      that element has no '.'. */
  function Ext(path: string): (e: string)
    ensures |e| <= |path| && e == path[|path| - |e|..]
    ensures e != [] ==> e[0] == '.'
    ensures forall k :: 1 <= k < |e| ==> e[k] != '.' && e[k] != '/'
    ensures e == [] ==> forall k :: 0 <= k < |path| && path[k] == '.' ==> exists j :: k < j < |path| && path[j] == '/'
  {
    match DotIndex(path, |path|)
    case None => []
    case Some(i) => path[i..]
  }

  function DropTrailingSlashes(path: string): (r: string)
    ensures |r| <= |path| && r == path[..|r|]
    ensures r != [] ==> r[|r| - 1] != '/'
    ensures forall k :: |r| <= k < |path| ==> path[k] == '/'
  {
    if path != [] && path[|path| - 1] == '/' then DropTrailingSlashes(path[..|path| - 1]) else path
  }

  /** The part of `path` after its last '/'. */
  function LastElement(path: string): (r: string)
    ensures |r| <= |path| && r == path[|path| - |r|..]
    ensures '/' !in r
    ensures |r| < |path| ==> path[|path| - |r| - 1] == '/'
  {
    if path == [] || path[|path| - 1] == '/' then []
    else
      var front := path[..|path| - 1];
      var r := LastElement(front);
      assert path[|path| - |r| - 1..] == front[|front| - |r|..] + [path[|path| - 1]];
      r + [path[|path| - 1]]
  }

  /** `filepath.Base`: the last element after dropping trailing slashes; "." for the empty
      path and "/" for a path of slashes only. */
  function Base(path: string): (b: string)
    ensures b != []
    ensures '/' in b ==> b == "/"
    ensures path != [] && path[|path| - 1] != '/' ==> b == LastElement(path)
  {
    if path == [] then "."
    else
      var s := DropTrailingSlashes(path);
      if s == [] then "/" else LastElement(s)
  }

  function LowerChar(c: char): char
  {
    if 'A' <= c <= 'Z' then (c as int + 32) as char else c
  }

  /** `strings.ToLower`, for ASCII text: no upper-case letter survives, each one becomes
      the lower-case letter 32 code points above it, and every other character is kept. */
  function ToLower(s: string): (r: string)
    ensures |r| == |s|
    ensures forall i :: 0 <= i < |s| ==> r[i] == LowerChar(s[i])
    ensures forall i :: 0 <= i < |r| ==> !('A' <= r[i] <= 'Z')
    ensures forall i :: 0 <= i < |s| && 'A' <= s[i] <= 'Z' ==> 'a' <= r[i] <= 'z' && r[i] as int == s[i] as int + 32
    ensures forall i :: 0 <= i < |s| && !('A' <= s[i] <= 'Z') ==> r[i] == s[i]
  {
    seq(|s|, i requires 0 <= i < |s| => LowerChar(s[i]))
  }

  /** Lower-casing twice is lower-casing once. */
  lemma ToLowerIdempotent(s: string)
    ensures ToLower(ToLower(s)) == ToLower(s)
  {
    var r := ToLower(s);
    assert forall i :: 0 <= i < |r| ==> ToLower(r)[i] == r[i];
  }

  /** Text with no upper-case letter is its own lower case. */
  lemma ToLowerKeepsLowerText(s: string)
    requires forall i :: 0 <= i < |s| ==> !('A' <= s[i] <= 'Z')
    ensures ToLower(s) == s
  {
    assert forall i :: 0 <= i < |s| ==> ToLower(s)[i] == s[i];
  }

  predicate HasSuffix(s: string, suffix: string)
  {
    |suffix| <= |s| && s[|s| - |suffix|..] == suffix
  }

  lemma AppendHasSuffix(a: string, b: string)
    ensures HasSuffix(a + b, b)
  {
    assert (a + b)[|a + b| - |b|..] == b;
  }

  /** Of two suffixes of the same length, `s` ends with one only if they are equal. */
  lemma SameLengthSuffix(s: string, x: string, y: string)
    requires HasSuffix(s, x) && |x| == |y|
    ensures HasSuffix(s, y) <==> x == y
  {
  }

  /** `strings.TrimSuffix`: `s` without `suffix` when it ends with it, `s` otherwise. */
  function TrimSuffix(s: string, suffix: string): (r: string)
    ensures HasSuffix(s, suffix) ==> r + suffix == s
    ensures !HasSuffix(s, suffix) ==> r == s
  {
    if HasSuffix(s, suffix) then s[..|s| - |suffix|] else s
  }

  predicate IsDigit(c: char)
  {
    '0' <= c <= '9'
  }

  predicate AllDigits(s: string)
  {
    forall i :: 0 <= i < |s| ==> IsDigit(s[i])
  }

  function DigitChar(d: nat): (c: char)
    requires d < 10
    ensures IsDigit(c) && c as int - '0' as int == d
  {
    ('0' as int + d) as char
  }

  /** `%d` of a non-negative integer: its decimal digits, without leading zeros. */
  function NatToString(n: nat): (s: string)
    ensures |s| >= 1 && AllDigits(s)
    ensures |s| > 1 ==> s[0] != '0'
  {
    if n < 10 then [DigitChar(n)] else NatToString(n / 10) + [DigitChar(n % 10)]
  }

  /** The value of a string of decimal digits. */
  function ParseNat(s: string): nat
    requires AllDigits(s)
  {
    if s == [] then 0 else ParseNat(s[..|s| - 1]) * 10 + (s[|s| - 1] as int - '0' as int)
  }

  /** Reading back the printed number gives the number. */
  lemma {:induction false} ParseNatToString(n: nat)
    ensures ParseNat(NatToString(n)) == n
  {
    if n >= 10 {
      var s := NatToString(n);
      assert s[..|s| - 1] == NatToString(n / 10);
      ParseNatToString(n / 10);
    }
  }

  /** The longest suffix of `s` made of digits. */
  function TrailingDigits(s: string): (d: string)
    ensures |d| <= |s| && d == s[|s| - |d|..] && AllDigits(d)
    ensures |d| < |s| ==> !IsDigit(s[|s| - |d| - 1])
  {
    if s == [] || !IsDigit(s[|s| - 1]) then []
    else
      var front := s[..|s| - 1];
      var d := TrailingDigits(front);
      assert s[|s| - |d| - 1..] == front[|front| - |d|..] + [s[|s| - 1]];
      d + [s[|s| - 1]]
  }

  /** After a non-digit, a run of digits is exactly the trailing digit run. */
  lemma {:induction false} TrailingDigitsAfterSeparator(front: string, c: char, digits: string)
    requires !IsDigit(c) && AllDigits(digits)
    ensures TrailingDigits(front + [c] + digits) == digits
  {
    if digits == [] {
      assert (front + [c] + digits)[|front + [c] + digits| - 1] == c;
    } else {
      var s := front + [c] + digits;
      var last := digits[|digits| - 1];
      var shorter := digits[..|digits| - 1];
      assert s[..|s| - 1] == front + [c] + shorter;
      TrailingDigitsAfterSeparator(front, c, shorter);
      assert shorter + [last] == digits;
    }
  }

  /** Splitting `front + [c] + digits` at its trailing digit run gives back the three parts. */
  lemma SplitTrailingDigits(front: string, c: char, digits: string)
    requires !IsDigit(c) && AllDigits(digits)
    ensures var s := front + [c] + digits;
            && TrailingDigits(s) == digits
            && |digits| < |s|
            && s[|s| - |digits| - 1] == c
            && s[..|s| - |digits| - 1] == front
  {
    TrailingDigitsAfterSeparator(front, c, digits);
  }

  /** A tail without '.' or '/'. */
  predicate PlainTail(tail: string)
  {
    forall k :: 0 <= k < |tail| ==> tail[k] != '.' && tail[k] != '/'
  }

  /** Scanning back over a plain tail that follows position `m` of `s`. */
  lemma {:induction false} DotIndexOverPlainTail(s: string, m: nat, n: nat)
    requires m < n <= |s|
    requires forall k :: m < k < |s| ==> s[k] != '.' && s[k] != '/'
    ensures DotIndex(s, n) == DotIndex(s, m + 1)
  {
    if n > m + 1 {
      DotIndexOverPlainTail(s, m, n - 1);
    }
  }

  /** The extension of a path whose last '.' is followed by a plain tail. */
  lemma ExtAfterDot(front: string, tail: string)
    requires PlainTail(tail)
    ensures Ext(front + ['.'] + tail) == ['.'] + tail
  {
    var s := front + ['.'] + tail;
    DotIndexOverPlainTail(s, |front|, |s|);
    assert DotIndex(s, |front| + 1) == Some(|front|);
    assert s[|front|..] == ['.'] + tail;
  }

  /** A path whose last element has no '.' has no extension. */
  lemma ExtAfterSlash(front: string, tail: string)
    requires PlainTail(tail)
    ensures Ext(front + ['/'] + tail) == []
  {
    var s := front + ['/'] + tail;
    DotIndexOverPlainTail(s, |front|, |s|);
    assert DotIndex(s, |front| + 1) == None;
  }

  /** The last element of a path whose tail after a '/' has no '/'. */
  lemma {:induction false} LastElementAfterSlash(front: string, tail: string)
    requires '/' !in tail
    ensures LastElement(front + ['/'] + tail) == tail
  {
    var s := front + ['/'] + tail;
    if tail != [] {
      var shorter := tail[..|tail| - 1];
      assert s[..|s| - 1] == front + ['/'] + shorter;
      assert tail[|tail| - 1] in tail;
      LastElementAfterSlash(front, shorter);
      assert shorter + [tail[|tail| - 1]] == tail;
    }
  }
}
