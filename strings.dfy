/**
 * The JavaScript string operations the blog's code relies on, over `seq<char>`:
 * `startsWith`, `endsWith`, `includes`, `toLowerCase` (ASCII letters only),
 * `lastIndexOf`, `indexOf`, `split`, `Array.prototype.join` and the decimal
 * rendering of a non-negative integer in a template literal.
 */
module Strings {

  predicate StartsWith(s: string, prefix: string) {
    |prefix| <= |s| && s[..|prefix|] == prefix
  }

  predicate EndsWith(s: string, suffix: string) {
    |suffix| <= |s| && s[|s| - |suffix|..] == suffix
  }

  /** `p` occurs in `s` starting at position `i`. */
  predicate OccursAt(s: string, p: string, i: int) {
    0 <= i <= |s| - |p| && s[i..i + |p|] == p
  }

  /** `s.includes(p)`: `p` occurs in `s` at some position. */
  predicate Contains(s: string, p: string) {
    exists i | 0 <= i <= |s| - |p| :: OccursAt(s, p, i)
  }

  /** A character of the pattern is a character of any string that contains it. */
  lemma ContainsHasChars(s: string, p: string, j: nat)
    requires Contains(s, p) && j < |p|
    ensures p[j] in s
  {
    var i :| 0 <= i <= |s| - |p| && OccursAt(s, p, i);
    assert s[i + j] == s[i..i + |p|][j];
  }

  /** An occurrence inside `b` is an occurrence inside `a + b + c`. */
  lemma ContainsInContext(a: string, b: string, c: string, p: string)
    requires Contains(b, p)
    ensures Contains(a + b + c, p)
  {
    var i :| 0 <= i <= |b| - |p| && OccursAt(b, p, i);
    var s := a + b + c;
    assert s[|a| + i..|a| + i + |p|] == b[i..i + |p|];
    assert OccursAt(s, p, |a| + i);
  }

  /**
   * An occurrence of a pattern that lacks the separator `sep` lies entirely on
   * one side of a separator in `a + [sep] + b`.
   */
  lemma ContainsAcrossSeparator(a: string, sep: char, b: string, p: string)
    requires Contains(a + [sep] + b, p) && sep !in p
    ensures Contains(a, p) || Contains(b, p)
  {
    var s := a + [sep] + b;
    var i :| 0 <= i <= |s| - |p| && OccursAt(s, p, i);
    assert s[|a|] == sep;
    assert forall k :: 0 <= k < |p| ==> s[i + k] == p[k];
    if i + |p| <= |a| {
      assert a[i..i + |p|] == s[i..i + |p|];
      assert OccursAt(a, p, i);
    } else {
      assert i > |a|;  // the occurrence cannot cover the separator, which `p` lacks
      assert b[i - |a| - 1..i - |a| - 1 + |p|] == s[i..i + |p|];
      assert OccursAt(b, p, i - |a| - 1);
    }
  }

  // ---- case conversion ----

  function LowerChar(c: char): char {
    if 'A' <= c <= 'Z' then (c as int + 32) as char else c
  }

  /** `s.toLowerCase()` restricted to ASCII letters. */
  function ToLower(s: string): (r: string)
    ensures |r| == |s|
    ensures forall i :: 0 <= i < |s| ==> r[i] == LowerChar(s[i])
  {
    seq(|s|, i requires 0 <= i < |s| => LowerChar(s[i]))
  }

  /** Lower-casing distributes over concatenation. */
  lemma ToLowerAppend(a: string, b: string)
    ensures ToLower(a + b) == ToLower(a) + ToLower(b)
  {
    assert forall i :: 0 <= i < |a + b| ==> ToLower(a + b)[i] == (ToLower(a) + ToLower(b))[i];
  }

  // ---- searching ----

  /** `s.lastIndexOf(c)`: the last position holding `c`, or -1. */
  function LastIndexOf(s: string, c: char): (r: int)
    ensures -1 <= r < |s|
    ensures r == -1 ==> c !in s
    ensures r >= 0 ==> s[r] == c && c !in s[r + 1..]
    decreases |s|
  {
    if |s| == 0 then -1
    else if s[|s| - 1] == c then |s| - 1
    else
      var r := LastIndexOf(s[..|s| - 1], c);
      LastIndexOfStep(s, c, r);
      r
  }

  /** A `c` that is neither in the prefix searched nor the last character is not in `s`. */
  lemma LastIndexOfStep(s: string, c: char, r: int)
    requires |s| > 0 && s[|s| - 1] != c && -1 <= r < |s| - 1
    requires r == -1 ==> c !in s[..|s| - 1]
    requires r >= 0 ==> c !in s[..|s| - 1][r + 1..]
    ensures r == -1 ==> c !in s
    ensures r >= 0 ==> c !in s[r + 1..]
  {
    assert s == s[..|s| - 1] + [s[|s| - 1]];
    if r >= 0 {
      assert s[r + 1..] == s[..|s| - 1][r + 1..] + [s[|s| - 1]];
    }
  }

  /** The contract of LastIndexOf determines its result. */
  lemma LastIndexOfIs(s: string, c: char, k: nat)
    requires k < |s| && s[k] == c && c !in s[k + 1..]
    ensures LastIndexOf(s, c) == k
  {
    var r := LastIndexOf(s, c);
  }

  /** When `b` holds `c`, the last `c` of `a + b` is the last `c` of `b`. */
  lemma LastIndexOfAppend(a: string, b: string, c: char)
    requires c in b
    ensures LastIndexOf(a + b, c) == |a| + LastIndexOf(b, c)
  {
    var k := LastIndexOf(b, c);
    assert (a + b)[|a| + k + 1..] == b[k + 1..];
    LastIndexOfIs(a + b, c, |a| + k);
  }

  /** `s.indexOf(c)`: the first position holding `c`, or -1. */
  function IndexOf(s: string, c: char): (r: int)
    ensures -1 <= r < |s|
    ensures r == -1 ==> c !in s
    ensures r >= 0 ==> s[r] == c && c !in s[..r]
  {
    if |s| == 0 then -1
    else if s[0] == c then 0
    else
      var r := IndexOf(s[1..], c);
      assert r >= 0 ==> s[..r + 1] == [s[0]] + s[1..][..r];
      if r == -1 then -1 else r + 1
  }

  /** The first `c` of `a + [c] + b` is the one after `a` when `a` has none. */
  lemma IndexOfAfter(a: string, c: char, b: string)
    requires c !in a
    ensures IndexOf(a + [c] + b, c) == |a|
  {
    var s := a + [c] + b;
    assert s[|a|] == c;
    assert forall j :: 0 <= j < |a| ==> s[j] == a[j];
    assert forall n :: |a| < n <= |s| ==> s[..n][|a|] == c;
  }

  // ---- split and join ----

  /** `parts.join(sep)` for a one-character separator. */
  function JoinWith(sep: char, parts: seq<string>): string
    decreases |parts|
  {
    if |parts| == 0 then ""
    else if |parts| == 1 then parts[0]
    else parts[0] + [sep] + JoinWith(sep, parts[1..])
  }

  /** `s.split(sep)` for a one-character separator. */
  function Split(s: string, sep: char): (parts: seq<string>)
    ensures |parts| > 0
    decreases |s|
  {
    var i := IndexOf(s, sep);
    if i < 0 then [s] else [s[..i]] + Split(s[i + 1..], sep)
  }

  /** Splitting undoes joining when no part holds the separator. */
  lemma {:induction false} SplitJoin(sep: char, parts: seq<string>)
    requires |parts| > 0
    requires forall i :: 0 <= i < |parts| ==> sep !in parts[i]
    ensures Split(JoinWith(sep, parts), sep) == parts
    decreases |parts|
  {
    if |parts| > 1 {
      var rest := JoinWith(sep, parts[1..]);
      var s := parts[0] + [sep] + rest;
      IndexOfAfter(parts[0], sep, rest);
      assert s[..|parts[0]|] == parts[0];
      assert s[|parts[0]| + 1..] == rest;
      SplitJoin(sep, parts[1..]);
      assert [parts[0]] + parts[1..] == parts;
    }
  }

  /** Joining one more part appends the separator and the part. */
  lemma {:induction false} JoinWithSnoc(sep: char, parts: seq<string>, x: string)
    requires |parts| > 0
    ensures JoinWith(sep, parts + [x]) == JoinWith(sep, parts) + [sep] + x
    decreases |parts|
  {
    if |parts| > 1 {
      assert (parts + [x])[0] == parts[0] && (parts + [x])[1..] == parts[1..] + [x];
      JoinWithSnoc(sep, parts[1..], x);
    } else {
      assert parts + [x] == [parts[0], x];
    }
  }

  /** Joining a part in front of at least one other puts the separator after it. */
  lemma JoinWithCons(sep: char, a: string, rest: seq<string>)
    requires |rest| > 0
    ensures JoinWith(sep, [a] + rest) == a + [sep] + JoinWith(sep, rest)
  {
    assert ([a] + rest)[1..] == rest;
  }

  /** A character that is neither the separator nor in any part is not in the join. */
  lemma {:induction false} JoinWithHasNo(sep: char, parts: seq<string>, c: char)
    requires c != sep && forall i :: 0 <= i < |parts| ==> c !in parts[i]
    ensures c !in JoinWith(sep, parts)
    decreases |parts|
  {
    if |parts| > 1 {
      assert forall i :: 0 <= i < |parts| - 1 ==> parts[1..][i] == parts[i + 1];
      JoinWithHasNo(sep, parts[1..], c);
    }
  }

  /** The first part starts the joined string. */
  lemma JoinWithStartsWith(sep: char, parts: seq<string>)
    requires |parts| > 0
    ensures StartsWith(JoinWith(sep, parts), parts[0])
  {
    if |parts| > 1 {
      var j := JoinWith(sep, parts);
      assert j == parts[0] + ([sep] + JoinWith(sep, parts[1..]));
    }
  }

  /** A pattern without the separator that occurs in a join occurs in one of the parts. */
  lemma {:induction false} ContainsInJoin(sep: char, parts: seq<string>, p: string)
    requires |parts| > 0 && sep !in p
    ensures Contains(JoinWith(sep, parts), p) ==> exists i | 0 <= i < |parts| :: Contains(parts[i], p)
    decreases |parts|
  {
    if |parts| == 1 {
      assert JoinWith(sep, parts) == parts[0];
    } else if Contains(JoinWith(sep, parts), p) {
      ContainsAcrossSeparator(parts[0], sep, JoinWith(sep, parts[1..]), p);
      ContainsInJoin(sep, parts[1..], p);
      if !Contains(parts[0], p) {
        var i :| 0 <= i < |parts[1..]| && Contains(parts[1..][i], p);
        assert parts[i + 1] == parts[1..][i];
      }
    }
  }

  // ---- decimal numbers ----

  predicate IsDigit(c: char) {
    '0' <= c <= '9'
  }

  function DigitChar(d: nat): (c: char)
    requires d < 10
    ensures IsDigit(c) && c as int - '0' as int == d
  {
    (d + '0' as int) as char
  }

  /** `${n}` for a non-negative integer: its decimal digits, most significant first. */
  function Decimal(n: nat): (s: string)
    ensures |s| > 0
    ensures forall i :: 0 <= i < |s| ==> IsDigit(s[i])
    decreases n
  {
    if n < 10 then [DigitChar(n)] else Decimal(n / 10) + [DigitChar(n % 10)]
  }

  /** Reads a string of decimal digits back as a number. */
  function ParseDecimal(s: string): nat
    decreases |s|
  {
    if |s| == 0 then 0
    else
      var d := s[|s| - 1] as int - '0' as int;
      ParseDecimal(s[..|s| - 1]) * 10 + (if 0 <= d < 10 then d else 0)
  }

  /** Rendering a number in decimal loses nothing: parsing gives the number back. */
  lemma {:induction false} DecimalRoundTrip(n: nat)
    ensures ParseDecimal(Decimal(n)) == n
    decreases n
  {
    if n >= 10 {
      var s := Decimal(n / 10) + [DigitChar(n % 10)];
      assert s[..|s| - 1] == Decimal(n / 10);
      DecimalRoundTrip(n / 10);
    }
  }
}
