/**
 * The handful of Python `str` operations the core relies on: `strip()`, `split(sep)`,
 * `sep.join(...)`, `replace(a, b)`, `isdigit()`, `int(...)`, `str(n)`, `lower()` and the
 * substring test `p in s`. Characters are treated as ASCII (see README, "Left out").
 */
module Text {

  /** Characters Python's `str.strip()` removes (the ASCII ones, plus NEL and NBSP). */
  predicate IsSpace(c: char) {
    c == ' ' || '\t' <= c <= '\r' || '\U{1C}' <= c <= '\U{1F}' || c == '\U{85}' || c == '\U{A0}'
  }

  predicate IsDigitChar(c: char) {
    '0' <= c <= '9'
  }

  /** Python `s.isdigit()` on ASCII: non-empty and every character a decimal digit. */
  predicate IsDigits(s: string) {
    |s| > 0 && forall i :: 0 <= i < |s| ==> IsDigitChar(s[i])
  }

  function TrimStart(s: string): (r: string)
    ensures |r| <= |s| && r == s[|s| - |r|..]
    ensures r != [] ==> !IsSpace(r[0])
    decreases |s|
  {
    if s != [] && IsSpace(s[0]) then TrimStart(s[1..]) else s
  }

  function TrimEnd(s: string): (r: string)
    ensures r <= s
    ensures r != [] ==> !IsSpace(r[|r| - 1])
    decreases |s|
  {
    if s != [] && IsSpace(s[|s| - 1]) then TrimEnd(s[..|s| - 1]) else s
  }

  /** Python `s.strip()`: drops surrounding whitespace, keeps the inside untouched. */
  function Strip(s: string): (r: string)
    ensures r != [] ==> !IsSpace(r[0]) && !IsSpace(r[|r| - 1])
  {
    TrimEnd(TrimStart(s))
  }

  /** Whitespace-only text. */
  predicate AllSpace(s: string) {
    forall i :: 0 <= i < |s| ==> IsSpace(s[i])
  }

  lemma {:induction false} TrimStartPadded(pre: string, t: string)
    requires AllSpace(pre) && (t == [] || !IsSpace(t[0]))
    ensures TrimStart(pre + t) == t
    decreases |pre|
  {
    if pre != [] {
      assert (pre + t)[1..] == pre[1..] + t;
      TrimStartPadded(pre[1..], t);
    } else {
      assert pre + t == t;
    }
  }

  lemma {:induction false} TrimEndPadded(t: string, post: string)
    requires AllSpace(post) && (t == [] || !IsSpace(t[|t| - 1]))
    ensures TrimEnd(t + post) == t
    decreases |post|
  {
    if post != [] {
      assert (t + post)[..|t + post| - 1] == t + post[..|post| - 1];
      TrimEndPadded(t, post[..|post| - 1]);
    } else {
      assert t + post == t;
    }
  }

  /** Whitespace around a token that neither starts nor ends with whitespace is what `strip()` removes. */
  lemma StripPadded(pre: string, t: string, post: string)
    requires AllSpace(pre) && AllSpace(post)
    requires t != [] && !IsSpace(t[0]) && !IsSpace(t[|t| - 1])
    ensures Strip(pre + t + post) == t
  {
    assert pre + t + post == pre + (t + post);
    TrimStartPadded(pre, t + post);
    TrimEndPadded(t, post);
  }

  /** Text that neither starts nor ends with whitespace is left alone by `strip()`. */
  lemma StripUnpadded(t: string)
    requires t != [] && !IsSpace(t[0]) && !IsSpace(t[|t| - 1])
    ensures Strip(t) == t
  {
    assert TrimStart(t) == t;
    assert TrimEnd(t) == t;
  }

  /** Whitespace-only text strips to nothing. */
  lemma StripBlank(s: string)
    requires AllSpace(s)
    ensures Strip(s) == []
  {
    assert s + [] == s;
    TrimStartPadded(s, []);
  }

  /** Python `s.replace(a, b)` for single characters. */
  function Replace(s: string, a: char, b: char): (r: string)
    ensures |r| == |s|
    ensures forall i :: 0 <= i < |s| ==> r[i] == if s[i] == a then b else s[i]
  {
    seq(|s|, i requires 0 <= i < |s| => if s[i] == a then b else s[i])
  }

  /** Position of the first `c` in `s`. */
  function IndexOf(s: string, c: char): (i: nat)
    requires c in s
    ensures i < |s| && s[i] == c && c !in s[..i]
    decreases |s|
  {
    if s[0] == c then 0
    else
      var k := IndexOf(s[1..], c);
      assert s[..k + 1] == [s[0]] + s[1..][..k];
      1 + k
  }

  /** Python `s.split(sep)` for a one-character separator: every separator ends a part. */
  function Split(s: string, sep: char): (parts: seq<string>)
    ensures |parts| >= 1
    ensures forall k :: 0 <= k < |parts| ==> sep !in parts[k]
    decreases |s|
  {
    if sep !in s then [s]
    else
      var i := IndexOf(s, sep);
      [s[..i]] + Split(s[i + 1..], sep)
  }

  /** Python `sep.join(parts)` for a non-empty list. */
  function Join(parts: seq<string>, sep: char): (s: string)
    requires |parts| >= 1
    decreases |parts|
  {
    if |parts| == 1 then parts[0] else parts[0] + [sep] + Join(parts[1..], sep)
  }

  lemma IndexOfPrefix(a: string, sep: char, b: string)
    requires sep !in a
    ensures sep in a + [sep] + b && IndexOf(a + [sep] + b, sep) == |a|
  {
    var s := a + [sep] + b;
    assert s[|a|] == sep;
  }

  lemma IndexOfExtend(a: string, sep: char, x: string)
    requires sep in a
    ensures sep in a + x && IndexOf(a + x, sep) == IndexOf(a, sep)
  {
    var i := IndexOf(a, sep);
    var s := a + x;
    assert s[i] == sep;
    assert s[..i] == a[..i];
  }

  /** Splitting undoes joining, as long as no part holds the separator. */
  lemma {:induction false} SplitJoin(parts: seq<string>, sep: char)
    requires |parts| >= 1
    requires forall k :: 0 <= k < |parts| ==> sep !in parts[k]
    ensures Split(Join(parts, sep), sep) == parts
    decreases |parts|
  {
    if |parts| > 1 {
      SplitJoin(parts[1..], sep);
      SplitAtFirst(parts[0], sep, Join(parts[1..], sep));
      assert parts == [parts[0]] + parts[1..];
    }
  }

  /** Joining undoes splitting. */
  lemma {:induction false} JoinSplit(s: string, sep: char)
    ensures Join(Split(s, sep), sep) == s
    decreases |s|
  {
    if sep in s {
      var i := IndexOf(s, sep);
      var rest := Split(s[i + 1..], sep);
      JoinSplit(s[i + 1..], sep);
      var parts := Split(s, sep);
      assert parts == [s[..i]] + rest;
      assert parts[0] == s[..i] && parts[1..] == rest;
      assert Join(parts, sep) == s[..i] + [sep] + Join(rest, sep);
      assert s == s[..i] + [sep] + s[i + 1..];
    }
  }

  /** A separator between two texts separates their parts. */
  lemma {:induction false} SplitConcat(a: string, sep: char, b: string)
    ensures Split(a + [sep] + b, sep) == Split(a, sep) + Split(b, sep)
    decreases |a|
  {
    if sep !in a {
      SplitAtFirst(a, sep, b);
    } else {
      var i := IndexOf(a, sep);
      var tail := a[i + 1..];
      calc {
        Split(a + [sep] + b, sep);
        { SplitPastFirst(a, sep, b); }
        [a[..i]] + Split(tail + [sep] + b, sep);
        { SplitConcat(tail, sep, b); }
        [a[..i]] + (Split(tail, sep) + Split(b, sep));
        ([a[..i]] + Split(tail, sep)) + Split(b, sep);
        Split(a, sep) + Split(b, sep);
      }
    }
  }

  /** Splitting past the first separator of `a` leaves the rest of `a` glued to `b`. */
  lemma SplitPastFirst(a: string, sep: char, b: string)
    requires sep in a
    ensures Split(a + [sep] + b, sep) == [a[..IndexOf(a, sep)]] + Split(a[IndexOf(a, sep) + 1..] + [sep] + b, sep)
  {
    var i := IndexOf(a, sep);
    var s := a + [sep] + b;
    IndexOfExtend(a, sep, [sep] + b);
    assert s == a + ([sep] + b);
    assert s[i + 1..] == a[i + 1..] + [sep] + b;
    assert s[..i] == a[..i];
  }

  lemma SplitAtFirst(a: string, sep: char, b: string)
    requires sep !in a
    ensures Split(a + [sep] + b, sep) == [a] + Split(b, sep)
  {
    var s := a + [sep] + b;
    IndexOfPrefix(a, sep, b);
    assert s[..|a|] == a;
    assert s[|a| + 1..] == b;
  }

  function DigitChar(d: nat): (c: char)
    requires d < 10
    ensures IsDigitChar(c)
  {
    (48 + d) as char
  }

  function DigitValue(c: char): (d: nat)
    requires IsDigitChar(c)
    ensures d < 10 && DigitChar(d) == c
  {
    c as int - 48
  }

  /** Python `str(n)` for a non-negative integer: its decimal digits, no sign, no leading zero. */
  function NatToString(n: nat): (s: string)
    ensures IsDigits(s)
    ensures |s| > 1 ==> s[0] != '0'
    decreases n
  {
    if n < 10 then [DigitChar(n)] else NatToString(n / 10) + [DigitChar(n % 10)]
  }

  /** Python `int(s)` on a digit string (leading zeros allowed). */
  function DigitsValue(s: string): nat
    requires forall i :: 0 <= i < |s| ==> IsDigitChar(s[i])
    decreases |s|
  {
    if s == [] then 0 else DigitsValue(s[..|s| - 1]) * 10 + DigitValue(s[|s| - 1])
  }

  /** `int(str(n)) == n`. */
  lemma {:induction false} DigitsValueOfNatToString(n: nat)
    ensures DigitsValue(NatToString(n)) == n
    decreases n
  {
    var s := NatToString(n);
    if n >= 10 {
      DigitsValueOfNatToString(n / 10);
      assert s[..|s| - 1] == NatToString(n / 10);
    }
  }

  predicate StartsWith(s: string, p: string) {
    |p| <= |s| && s[..|p|] == p
  }

  /** Python `p in s`: `p` occurs somewhere in `s` as a contiguous piece. */
  predicate Contains(s: string, p: string)
    decreases |s|
  {
    StartsWith(s, p) || (|s| > 0 && Contains(s[1..], p))
  }

  lemma {:induction false} ContainsAt(s: string, p: string, i: nat)
    requires i + |p| <= |s| && s[i..i + |p|] == p
    ensures Contains(s, p)
    decreases i
  {
    if i > 0 {
      assert s[1..][i - 1..i - 1 + |p|] == s[i..i + |p|];
      ContainsAt(s[1..], p, i - 1);
    }
  }

  /** `p in a + p + b`. */
  lemma ContainsInfix(a: string, p: string, b: string)
    ensures Contains(a + p + b, p)
  {
    var s := a + p + b;
    assert s[|a|..|a| + |p|] == p;
    ContainsAt(s, p, |a|);
  }

  /** A piece found in `s` is found at some position (the converse of ContainsAt). */
  lemma {:induction false} ContainsWitness(s: string, p: string) returns (i: nat)
    requires Contains(s, p)
    ensures i + |p| <= |s| && s[i..i + |p|] == p
    decreases |s|
  {
    if StartsWith(s, p) {
      i := 0;
    } else {
      var k := ContainsWitness(s[1..], p);
      assert s[1..][k..k + |p|] == s[k + 1..k + 1 + |p|];
      i := k + 1;
    }
  }

  /** A piece of a piece is a piece. */
  lemma ContainsTransitive(s: string, q: string, p: string)
    requires Contains(s, q) && Contains(q, p)
    ensures Contains(s, p)
  {
    var i := ContainsWitness(s, q);
    var j := ContainsWitness(q, p);
    forall k | 0 <= k < |p| ensures s[i + j + k] == p[k] {
      assert s[i..i + |q|][j + k] == q[j + k];
      assert q[j..j + |p|][k] == q[j + k];
    }
    assert s[i + j..i + j + |p|] == p;
    ContainsAt(s, p, i + j);
  }

  /** A pattern holding a character that `s` lacks does not occur in `s`. */
  lemma NotContainsByChar(s: string, p: string, k: nat)
    requires k < |p| && p[k] !in s
    ensures !Contains(s, p)
  {
    if Contains(s, p) {
      var i := ContainsWitness(s, p);
    }
  }

  /** `c` occurs in `s` at index `at` and nowhere else. */
  predicate OnlyAt(s: string, c: char, at: nat) {
    at < |s| && s[at] == c && forall i :: 0 <= i < |s| && s[i] == c ==> i == at
  }

  lemma OnlyAtJoin(a: string, b: string, c: string, x: char, at: nat)
    requires x !in a && x !in c && OnlyAt(b, x, at)
    ensures OnlyAt(a + b + c, x, |a| + at)
  {
    var s := a + b + c;
    assert forall i :: 0 <= i < |a| ==> s[i] == a[i];
    assert forall i :: |a| <= i < |a| + |b| ==> s[i] == b[i - |a|];
    assert forall i :: |a| + |b| <= i < |s| ==> s[i] == c[i - |a| - |b|];
  }

  /**
   * `p` does not occur in `s` when the only place `p[k]` occurs in `s` is `at` and the
   * occurrence that would put `p[k]` there does not start with `p[0]`.
   */
  lemma NotContainsByAnchor(s: string, p: string, k: nat, at: nat)
    requires k < |p| && k <= at && OnlyAt(s, p[k], at)
    requires s[at - k] != p[0]
    ensures !Contains(s, p)
  {
    if Contains(s, p) {
      AnchorOfContains(s, p, k, at);
    }
  }

  /** Where `p` occurs in `s`, it puts `p[k]` on an occurrence of that character. */
  lemma AnchorOfContains(s: string, p: string, k: nat, at: nat)
    requires k < |p| && OnlyAt(s, p[k], at) && Contains(s, p)
    ensures k <= at && s[at - k] == p[0]
  {
    var i := ContainsWitness(s, p);
    assert s[i..i + |p|][k] == s[i + k];
    assert s[i..i + |p|][0] == s[i];
  }

  function LowerChar(c: char): char {
    if 'A' <= c <= 'Z' then (c as int + 32) as char else c
  }

  /** Python `s.lower()` on ASCII letters. */
  function Lower(s: string): (r: string)
    ensures |r| == |s|
    ensures forall i :: 0 <= i < |s| ==> r[i] == LowerChar(s[i])
  {
    seq(|s|, i requires 0 <= i < |s| => LowerChar(s[i]))
  }

  /** Lexicographic order by code point: how `order by` compares text under the C collation. */
  predicate StrLe(a: string, b: string)
    decreases |a|
  {
    a == [] || (b != [] && (a[0] < b[0] || (a[0] == b[0] && StrLe(a[1..], b[1..]))))
  }

  /** Strictly before in `StrLe`. */
  predicate StrLt(a: string, b: string) {
    StrLe(a, b) && a != b
  }

  lemma {:induction false} StrLeReflexive(a: string)
    ensures StrLe(a, a)
    decreases |a|
  {
    if a != [] {
      StrLeReflexive(a[1..]);
    }
  }

  lemma {:induction false} StrLeTotal(a: string, b: string)
    ensures StrLe(a, b) || StrLe(b, a)
    decreases |a|
  {
    if a != [] && b != [] && a[0] == b[0] {
      StrLeTotal(a[1..], b[1..]);
    }
  }

  lemma {:induction false} StrLeTransitive(a: string, b: string, c: string)
    requires StrLe(a, b) && StrLe(b, c)
    ensures StrLe(a, c)
    decreases |a|
  {
    if a != [] && a[0] == b[0] && b[0] == c[0] {
      StrLeTransitive(a[1..], b[1..], c[1..]);
    }
  }

  lemma {:induction false} StrLeAntisymmetric(a: string, b: string)
    requires StrLe(a, b) && StrLe(b, a)
    ensures a == b
    decreases |a|
  {
    if a != [] {
      StrLeAntisymmetric(a[1..], b[1..]);
      assert a == [a[0]] + a[1..];
      assert b == [b[0]] + b[1..];
    }
  }

  /** Two different strings are strictly ordered one way or the other. */
  lemma StrLtTotal(a: string, b: string)
    ensures a == b || StrLt(a, b) || StrLt(b, a)
  {
    StrLeTotal(a, b);
  }

  lemma StrLtLe(a: string, b: string, c: string)
    requires (StrLt(a, b) && StrLe(b, c)) || (StrLe(a, b) && StrLt(b, c))
    ensures StrLt(a, c)
  {
    StrLeTransitive(a, b, c);
    if a == c {
      StrLeAntisymmetric(a, b);
    }
  }

  /** Lower-casing neither adds nor moves a character that is not a letter. */
  lemma LowerOnlyAt(s: string, c: char, at: nat)
    requires !('A' <= c <= 'Z') && !('a' <= c <= 'z') && OnlyAt(s, c, at)
    ensures OnlyAt(Lower(s), c, at)
  {
  }

  /** A lower-case letter absent from `s` in both cases is absent from `Lower(s)`. */
  lemma LowerLacks(s: string, c: char)
    requires 'a' <= c <= 'z' && c !in s && (c as int - 32) as char !in s
    ensures c !in Lower(s)
  {
    forall i | 0 <= i < |s| ensures Lower(s)[i] != c {
      assert s[i] in s;
    }
  }

  lemma LowerNonLetter(s: string, c: char)
    requires !('A' <= c <= 'Z') && !('a' <= c <= 'z')
    ensures c in Lower(s) <==> c in s
  {
    if c in s {
      var i :| 0 <= i < |s| && s[i] == c;
      assert Lower(s)[i] == c;
    }
    if c in Lower(s) {
      var i :| 0 <= i < |s| && Lower(s)[i] == c;
      assert s[i] == c;
    }
  }
}
