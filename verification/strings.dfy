/** The JavaScript string primitives the content pipeline is built from:
    `trim`, `indexOf`, `includes`, `split`, `join`, `replace` with a string
    pattern, and the decimal rendering of an array index inside a template
    literal. Strings are sequences of characters. */
module Strings {
  import opened Wrappers

  /** ECMAScript WhiteSpace and LineTerminator code points: exactly the
      characters `String.prototype.trim` removes. */
  predicate IsSpace(c: char) {
    || c == '\t' || c == '\n' || c == '\U{000B}' || c == '\U{000C}' || c == '\r'
    || c == ' ' || c == '\U{00A0}' || c == '\U{1680}' || ('\U{2000}' <= c <= '\U{200A}')
    || c == '\U{2028}' || c == '\U{2029}' || c == '\U{202F}' || c == '\U{205F}'
    || c == '\U{3000}' || c == '\U{FEFF}'
  }

  /** The characters a regular-expression `.` does not match. */
  predicate IsLineTerminator(c: char) {
    c == '\n' || c == '\r' || c == '\U{2028}' || c == '\U{2029}'
  }

  predicate AllSpace(s: string) {
    forall i :: 0 <= i < |s| ==> IsSpace(s[i])
  }

  /** The first index at or after `i` that does not hold white space. */
  function SkipSpaceFrom(s: string, i: nat): (k: nat)
    requires i <= |s|
    ensures i <= k <= |s|
    ensures forall m :: i <= m < k ==> IsSpace(s[m])
    ensures k == |s| || !IsSpace(s[k])
    decreases |s| - i
  {
    if i < |s| && IsSpace(s[i]) then SkipSpaceFrom(s, i + 1) else i
  }

  /** The least index at or after `lo` from which `s[..j]` holds only white
      space up to `j`. */
  function SkipSpaceBack(s: string, lo: nat, j: nat): (k: nat)
    requires lo <= j <= |s|
    ensures lo <= k <= j
    ensures forall m :: k <= m < j ==> IsSpace(s[m])
    ensures k == lo || !IsSpace(s[k - 1])
    decreases j - lo
  {
    if lo < j && IsSpace(s[j - 1]) then SkipSpaceBack(s, lo, j - 1) else j
  }

  /** `String.prototype.trim`: the infix left after removing white space at
      both ends. */
  function Trim(s: string): (r: string)
    ensures r == [] || (!IsSpace(r[0]) && !IsSpace(r[|r| - 1]))
    ensures r == [] <==> AllSpace(s)
    ensures exists i, j ::
              && 0 <= i <= j <= |s| && r == s[i..j]
              && (forall m :: 0 <= m < i ==> IsSpace(s[m]))
              && (forall m :: j <= m < |s| ==> IsSpace(s[m]))
  {
    var i := SkipSpaceFrom(s, 0);
    var j := SkipSpaceBack(s, i, |s|);
    assert i < j ==> s[i..j][0] == s[i] && s[i..j][j - i - 1] == s[j - 1];
    s[i..j]
  }

  /** A string with no white space at either end is its own trim. */
  lemma TrimUnpadded(s: string)
    requires s == [] || (!IsSpace(s[0]) && !IsSpace(s[|s| - 1]))
    ensures Trim(s) == s
  {
    if s != [] {
      assert SkipSpaceFrom(s, 0) == 0;
      assert SkipSpaceBack(s, 0, |s|) == |s|;
    }
  }

  lemma {:induction false} SkipSpaceFromAt(s: string, i: nat, k: nat)
    requires i <= k < |s| && !IsSpace(s[k])
    requires forall m :: i <= m < k ==> IsSpace(s[m])
    ensures SkipSpaceFrom(s, i) == k
    decreases k - i
  {
    if i < k {
      SkipSpaceFromAt(s, i + 1, k);
    }
  }

  lemma {:induction false} SkipSpaceBackAt(s: string, lo: nat, j: nat, k: nat)
    requires lo < k <= j <= |s| && !IsSpace(s[k - 1])
    requires forall m :: k <= m < j ==> IsSpace(s[m])
    ensures SkipSpaceBack(s, lo, j) == k
    decreases j - k
  {
    if k < j {
      SkipSpaceBackAt(s, lo, j - 1, k);
    }
  }

  /** Trimming removes exactly the white space around a string that has
      none at its ends. */
  lemma TrimPadded(a: string, s: string, b: string)
    requires AllSpace(a) && AllSpace(b)
    requires |s| > 0 && !IsSpace(s[0]) && !IsSpace(s[|s| - 1])
    ensures Trim(a + s + b) == s
  {
    var t := a + s + b;
    assert t[|a|] == s[0] && t[|a| + |s| - 1] == s[|s| - 1];
    assert forall m :: 0 <= m < |a| ==> t[m] == a[m];
    assert forall m :: |a| + |s| <= m < |t| ==> t[m] == b[m - |a| - |s|];
    SkipSpaceFromAt(t, 0, |a|);
    SkipSpaceBackAt(t, |a|, |t|, |a| + |s|);
    assert t[|a|..|a| + |s|] == s;
  }

  /** Trimming an already trimmed string changes nothing. */
  lemma TrimIdempotent(s: string)
    ensures Trim(Trim(s)) == Trim(s)
  {
    var r := Trim(s);
    TrimUnpadded(r);
  }

  /** A string is its trim with white space around it. */
  lemma TrimSplit(s: string) returns (a: string, t: string, b: string)
    ensures t == Trim(s) && s == a + t + b
    ensures AllSpace(a) && AllSpace(b)
  {
    var i := SkipSpaceFrom(s, 0);
    var j := SkipSpaceBack(s, i, |s|);
    a, t, b := s[..i], s[i..j], s[j..];
    forall m | 0 <= m < |a| ensures IsSpace(a[m]) {
      assert a[m] == s[m];
    }
    forall m | 0 <= m < |b| ensures IsSpace(b[m]) {
      assert b[m] == s[j + m];
    }
    assert s[..j] == a + t;
    assert s == s[..j] + b;
  }

  /** `pat` occurs in `s` starting at position `i`. */
  predicate OccursAt(s: string, pat: string, i: nat) {
    i + |pat| <= |s| && forall k :: 0 <= k < |pat| ==> s[i + k] == pat[k]
  }

  /** `String.prototype.includes`. */
  predicate Contains(s: string, pat: string) {
    exists j: nat :: j <= |s| && OccursAt(s, pat, j)
  }

  function FindFrom(s: string, pat: string, from: nat): (r: Option<nat>)
    ensures r.Some? ==> from <= r.value && OccursAt(s, pat, r.value)
    ensures r.Some? ==> forall j: nat :: from <= j < r.value ==> !OccursAt(s, pat, j)
    ensures r.None? ==> forall j: nat :: from <= j ==> !OccursAt(s, pat, j)
    decreases |s| - from
  {
    if from + |pat| > |s| then None
    else if OccursAt(s, pat, from) then Some(from)
    else FindFrom(s, pat, from + 1)
  }

  /** `String.prototype.indexOf`: the leftmost occurrence, if any. */
  function IndexOf(s: string, pat: string): (r: Option<nat>)
    ensures r.Some? ==> OccursAt(s, pat, r.value)
    ensures r.Some? ==> forall j: nat :: j < r.value ==> !OccursAt(s, pat, j)
    ensures r.Some? <==> Contains(s, pat)
  {
    FindFrom(s, pat, 0)
  }

  /** An occurrence with none before it is the one found. */
  lemma IndexOfAt(s: string, pat: string, i: nat)
    requires OccursAt(s, pat, i)
    requires forall j: nat :: j < i ==> !OccursAt(s, pat, j)
    ensures IndexOf(s, pat) == Some(i)
  {
    var r := IndexOf(s, pat);
    assert Contains(s, pat);
    assert !(r.value < i);
  }

  /** A string that starts with `pat` finds it at position 0. */
  lemma IndexOfPrefix(s: string, pat: string)
    requires pat <= s
    ensures IndexOf(s, pat) == Some(0)
  {
    assert OccursAt(s, pat, 0);
  }

  /** An occurrence inside a prefix is an occurrence in the whole string. */
  lemma OccursInPrefix(s: string, pat: string, i: nat, j: nat)
    requires i <= |s| && OccursAt(s[..i], pat, j)
    ensures OccursAt(s, pat, j)
  {
    assert s[..i][j..j + |pat|] == s[j..j + |pat|];
  }

  /** `String.prototype.split` with a non-empty string separator: the pieces
      between successive leftmost, non-overlapping occurrences. */
  function SplitOn(s: string, sep: string): (r: seq<string>)
    requires |sep| > 0
    ensures |r| >= 1
    ensures forall k :: 0 <= k < |r| ==> !Contains(r[k], sep)
    decreases |s|
  {
    match IndexOf(s, sep)
    case None => [s]
    case Some(i) =>
      var head := s[..i];
      assert !Contains(head, sep) by {
        forall j: nat | OccursAt(head, sep, j)
          ensures false
        {
          OccursInPrefix(s, sep, i, j);
        }
      }
      [head] + SplitOn(s[i + |sep|..], sep)
  }

  /** The cut is at the leftmost occurrence: without one the text is the
      only piece, otherwise the first piece is the text before it. */
  lemma SplitOnLeftmost(s: string, sep: string)
    requires |sep| > 0
    ensures IndexOf(s, sep).None? ==> SplitOn(s, sep) == [s]
    ensures IndexOf(s, sep).Some? ==> |SplitOn(s, sep)| >= 2 && SplitOn(s, sep)[0] == s[..IndexOf(s, sep).value]
  {
  }

  /** `Array.prototype.join`. */
  function Join(parts: seq<string>, sep: string): string {
    if |parts| == 0 then ""
    else if |parts| == 1 then parts[0]
    else parts[0] + sep + Join(parts[1..], sep)
  }

  /** A join whose first piece is empty starts with the separator. */
  lemma JoinEmptyHead(s: string, sep: string, parts: seq<string>)
    requires |parts| >= 3 && parts[0] == [] && Join(parts, sep) == s
    ensures s == sep + parts[1] + sep + Join(parts[2..], sep)
  {
    JoinTwo(parts, sep);
    assert parts[0] + sep == sep;
  }

  lemma JoinTwo(parts: seq<string>, sep: string)
    requires |parts| >= 3
    ensures Join(parts, sep) == parts[0] + sep + parts[1] + sep + Join(parts[2..], sep)
  {
    assert parts[1..][1..] == parts[2..];
  }

  /** Joining the pieces of a split with the same separator gives back the
      original string. */
  lemma {:induction false} JoinSplitOn(s: string, sep: string)
    requires |sep| > 0
    ensures Join(SplitOn(s, sep), sep) == s
    decreases |s|
  {
    match IndexOf(s, sep)
    case None =>
    case Some(i) =>
      var rest := SplitOn(s[i + |sep|..], sep);
      JoinSplitOn(s[i + |sep|..], sep);
      assert SplitOn(s, sep) == [s[..i]] + rest;
      assert ([s[..i]] + rest)[1..] == rest;
      calc {
        Join(SplitOn(s, sep), sep);
        s[..i] + sep + Join(rest, sep);
        s[..i] + s[i..i + |sep|] + s[i + |sep|..];
        s;
      }
  }

  /** `split` with a one-character separator. */
  function Split(s: string, c: char): seq<string> {
    SplitOn(s, [c])
  }

  lemma OccursAtChar(s: string, c: char, i: nat)
    ensures OccursAt(s, [c], i) <==> i < |s| && s[i] == c
  {
    if OccursAt(s, [c], i) {
      assert s[i + 0] == [c][0];
    }
  }

  /** Splitting on a character that first occurs at `i` takes `s[..i]` as
      the first piece and splits the rest after it. */
  lemma SplitCharAt(s: string, c: char, i: nat)
    requires i < |s| && s[i] == c
    requires forall j :: 0 <= j < i ==> s[j] != c
    ensures Split(s, c) == [s[..i]] + Split(s[i + 1..], c)
  {
    OccursAtChar(s, c, i);
    forall j: nat | j < i ensures !OccursAt(s, [c], j) {
      OccursAtChar(s, c, j);
    }
    assert IndexOf(s, [c]) == Some(i) by {
      var r := IndexOf(s, [c]);
      assert Contains(s, [c]);
      assert !(i < r.value) && !(r.value < i);
    }
  }

  /** A string without the character splits into itself alone. */
  lemma SplitCharNone(s: string, c: char)
    requires forall j :: 0 <= j < |s| ==> s[j] != c
    ensures Split(s, c) == [s]
  {
    forall j: nat | j <= |s| ensures !OccursAt(s, [c], j) {
      OccursAtChar(s, c, j);
    }
  }

  /** A character-free prefix followed by the character is the first
      piece. */
  lemma SplitCharHead(a: string, c: char, rest: string)
    requires forall j :: 0 <= j < |a| ==> a[j] != c
    ensures Split(a + [c] + rest, c) == [a] + Split(rest, c)
  {
    var s := a + [c] + rest;
    assert s[|a|] == c;
    assert forall j :: 0 <= j < |a| ==> s[j] == a[j];
    SplitCharAt(s, c, |a|);
    assert s[..|a|] == a && s[|a| + 1..] == rest;
  }

    /** Two separator-free pieces around one separator split into those
      two pieces. */
  lemma SplitAtSeparator(a: string, c: char, b: string)
    requires forall j :: 0 <= j < |a| ==> a[j] != c
    requires forall j :: 0 <= j < |b| ==> b[j] != c
    ensures Split(a + [c] + b, c) == [a, b]
  {
    SplitCharHead(a, c, b);
    SplitCharNone(b, c);
  }

/** Three lines joined by line feeds split back into those lines. */
  lemma SplitThreeLines(a: string, b: string, c: string)
    requires forall j :: 0 <= j < |a| ==> a[j] != '\n'
    requires forall j :: 0 <= j < |b| ==> b[j] != '\n'
    requires forall j :: 0 <= j < |c| ==> c[j] != '\n'
    ensures Split(a + "\n" + b + "\n" + c, '\n') == [a, b, c]
  {
    var tail := b + ['\n'] + c;
    assert a + "\n" + b + "\n" + c == a + ['\n'] + tail;
    SplitCharNone(c, '\n');
    SplitCharHead(b, '\n', c);
    assert Split(tail, '\n') == [b, c];
    SplitCharHead(a, '\n', tail);
  }

  /** The last piece of a split on `c` is the part of `s` after its last
      `c`, or all of `s` when there is none: what `pop()` returns. */
  lemma {:induction false} SplitLast(s: string, c: char)
    ensures var parts := Split(s, c);
            var last := parts[|parts| - 1];
            && |last| <= |s| && s[|s| - |last|..] == last
            && (|last| == |s| || s[|s| - |last| - 1] == c)
            && forall m :: 0 <= m < |last| ==> last[m] != c
    decreases |s|
  {
    match IndexOf(s, [c])
    case None =>
      forall m | 0 <= m < |s| ensures s[m] != c {
        OccursAtChar(s, c, m);
      }
    case Some(i) =>
      OccursAtChar(s, c, i);
      var rest := s[i + 1..];
      SplitLast(rest, c);
      assert Split(s, c) == [s[..i]] + Split(rest, c);
  }

  /** A string containing a character `pat` needs cannot contain `pat`. */
  lemma MissingChar(s: string, pat: string, k: nat)
    requires k < |pat| && forall m :: 0 <= m < |s| ==> s[m] != pat[k]
    ensures !Contains(s, pat)
  {
    forall j: nat | j + |pat| <= |s| ensures !OccursAt(s, pat, j) {
      assert s[j + k] != pat[k];
    }
  }

  /** Joining at a space: a pattern free of spaces occurs in `a + b`, where
      `b` starts with a space, exactly when it occurs in one of the two. */
  lemma ContainsSpaced(a: string, b: string, pat: string)
    requires |b| > 0 && b[0] == ' '
    requires forall m :: 0 <= m < |pat| ==> pat[m] != ' '
    ensures Contains(a + b, pat) <==> Contains(a, pat) || Contains(b, pat)
  {
    var s := a + b;
    if !Contains(a, pat) && !Contains(b, pat) {
      forall j: nat | j + |pat| <= |s| ensures !OccursAt(s, pat, j) {
        if j + |pat| <= |a| {
          assert !OccursAt(a, pat, j);
          var k :| 0 <= k < |pat| && a[j + k] != pat[k];
          assert s[j + k] != pat[k];
        } else if j >= |a| {
          assert !OccursAt(b, pat, j - |a|);
          var k :| 0 <= k < |pat| && b[j - |a| + k] != pat[k];
          assert s[j + k] != pat[k];
        } else {
          // The occurrence would have to cover the space at the boundary.
          assert s[j + (|a| - j)] != pat[|a| - j];
        }
      }
    }
    if Contains(a, pat) {
      var j: nat :| j <= |a| && OccursAt(a, pat, j);
      assert OccursAt(s, pat, j);
    }
    if Contains(b, pat) {
      var j: nat :| j <= |b| && OccursAt(b, pat, j);
      assert |a| + j <= |s| && OccursAt(s, pat, |a| + j);
    }
  }

  /** The number of occurrences of `c` in `s`. */
  function Count(s: string, c: char): nat {
    if |s| == 0 then 0 else (if s[0] == c then 1 else 0) + Count(s[1..], c)
  }

  lemma {:induction false} CountAppend(a: string, b: string, c: char)
    ensures Count(a + b, c) == Count(a, c) + Count(b, c)
    decreases |a|
  {
    if |a| > 0 {
      assert (a + b)[1..] == a[1..] + b;
      CountAppend(a[1..], b, c);
    } else {
      assert a + b == b;
    }
  }

  lemma {:induction false} CountNone(s: string, c: char)
    requires forall j :: 0 <= j < |s| ==> s[j] != c
    ensures Count(s, c) == 0
    decreases |s|
  {
    if |s| > 0 {
      CountNone(s[1..], c);
    }
  }

  /** Splitting on a character yields one more piece than there are
      occurrences of that character. */
  lemma {:induction false} SplitCount(s: string, c: char)
    ensures |Split(s, c)| == Count(s, c) + 1
    decreases |s|
  {
    match IndexOf(s, [c])
    case None =>
      forall j | 0 <= j < |s| ensures s[j] != c {
        OccursAtChar(s, c, j);
      }
      CountNone(s, c);
    case Some(i) =>
      OccursAtChar(s, c, i);
      forall j | 0 <= j < i ensures s[..i][j] != c {
        OccursAtChar(s, c, j);
      }
      CountNone(s[..i], c);
      SplitCount(s[i + 1..], c);
      assert s == s[..i] + [c] + s[i + 1..];
      CountAppend(s[..i] + [c], s[i + 1..], c);
      CountAppend(s[..i], [c], c);
  }

  /** `replace(pat, "")` with a string pattern: deletes the leftmost
      occurrence only. */
  function RemoveFirst(s: string, pat: string): (r: string)
    ensures !Contains(s, pat) ==> r == s
    ensures Contains(s, pat) ==> |r| == |s| - |pat|
    ensures IndexOf(s, pat).Some? ==>
      var i := IndexOf(s, pat).value; i <= |r| && s == r[..i] + pat + r[i..]
  {
    match IndexOf(s, pat)
    case None => s
    case Some(i) =>
      var r := s[..i] + s[i + |pat|..];
      assert s == r[..i] + pat + r[i..] by {
        assert r[..i] == s[..i];
        assert r[i..] == s[i + |pat|..];
      }
      r
  }

  predicate IsDigit(c: char) {
    '0' <= c <= '9'
  }

  predicate AllDigits(s: string) {
    forall i :: 0 <= i < |s| ==> IsDigit(s[i])
  }

  function DigitChar(d: nat): (c: char)
    requires d < 10
    ensures IsDigit(c)
  {
    (('0' as int) + d) as char
  }

  /** The decimal rendering of a non-negative integer, as a template literal
      produces it. */
  function NatToString(n: nat): (r: string)
    ensures |r| > 0 && AllDigits(r)
  {
    if n < 10 then [DigitChar(n)] else NatToString(n / 10) + [DigitChar(n % 10)]
  }

  /** The value of a string of decimal digits. */
  function ParseNat(s: string): nat
    requires AllDigits(s)
  {
    if |s| == 0 then 0 else 10 * ParseNat(s[..|s| - 1]) + ((s[|s| - 1] as int) - ('0' as int))
  }

  /** Reading a rendered number gives the number back. */
  lemma {:induction false} ParseNatToString(n: nat)
    ensures ParseNat(NatToString(n)) == n
  {
    if n >= 10 {
      var r := NatToString(n);
      assert r[..|r| - 1] == NatToString(n / 10);
      ParseNatToString(n / 10);
    }
  }

  lemma NatToStringInjective(m: nat, n: nat)
    requires NatToString(m) == NatToString(n)
    ensures m == n
  {
    ParseNatToString(m);
    ParseNatToString(n);
  }

  /** The length of the longest all-digit suffix. */
  function TrailingDigits(s: string): (k: nat)
    ensures k <= |s|
    ensures AllDigits(s[|s| - k..])
    ensures k == |s| || !IsDigit(s[|s| - k - 1])
  {
    if |s| > 0 && IsDigit(s[|s| - 1]) then 1 + TrailingDigits(s[..|s| - 1]) else 0
  }

  /** Appending digits to a string that does not end in a digit makes
      exactly those digits the trailing ones. */
  lemma {:induction false} TrailingDigitsAppend(a: string, d: string)
    requires a == [] || !IsDigit(a[|a| - 1])
    requires AllDigits(d)
    ensures TrailingDigits(a + d) == |d|
    decreases |d|
  {
    if |d| == 0 {
      assert a + d == a;
    } else {
      assert (a + d)[..|a + d| - 1] == a + d[..|d| - 1];
      TrailingDigitsAppend(a, d[..|d| - 1]);
    }
  }

  /** The character just before the trailing digits, if there is one. */
  function MarkBeforeDigits(s: string): Option<char> {
    var k := TrailingDigits(s);
    if k < |s| then Some(s[|s| - k - 1]) else None
  }

  /** A number rendered after a string ending in a non-digit leaves that
      character as the mark before the digits. */
  lemma MarkOfNumbered(a: string, n: nat)
    requires |a| > 0 && !IsDigit(a[|a| - 1])
    ensures MarkBeforeDigits(a + NatToString(n)) == Some(a[|a| - 1])
  {
    TrailingDigitsAppend(a, NatToString(n));
    assert (a + NatToString(n))[|a| - 1] == a[|a| - 1];
  }

  /** A string ending in a non-digit followed by a rendered number determines
      both. */
  lemma NumberedInjective(a: string, m: nat, b: string, n: nat)
    requires |a| > 0 && !IsDigit(a[|a| - 1])
    requires |b| > 0 && !IsDigit(b[|b| - 1])
    requires a + NatToString(m) == b + NatToString(n)
    ensures a == b && m == n
  {
    var s := a + NatToString(m);
    TrailingDigitsAppend(a, NatToString(m));
    TrailingDigitsAppend(b, NatToString(n));
    assert a == s[..|a|] && b == s[..|b|];
    assert NatToString(m) == s[|a|..] && NatToString(n) == s[|b|..];
    NatToStringInjective(m, n);
  }
}
