/**
  The two pieces of Ruby's String class that the config parser relies on:
  `String#strip` (drop leading and trailing whitespace) and
  `String#split(sep, 2)` (cut at the first separator only).
 */
module RubyString {

  /** The characters Ruby's `strip` removes: NUL, tab, line feed,
      vertical tab, form feed, carriage return and space. */
  predicate IsSpace(c: char) {
    c == ' ' || c == '\t' || c == '\n' || c == '\r' || c == '\0'
    || c == '\U{000B}' || c == '\U{000C}'
  }

  predicate AllSpace(s: string) {
    forall i :: 0 <= i < |s| ==> IsSpace(s[i])
  }

  /** `s` stripped: the slice `s[i..j]` with only whitespace outside it and
      no whitespace at either end of it. */
  ghost predicate IsStripOf(s: string, i: nat, j: nat) {
    && i <= j <= |s|
    && AllSpace(s[..i])
    && AllSpace(s[j..])
    && (i < j ==> !IsSpace(s[i]) && !IsSpace(s[j - 1]))
  }

  /** `lstrip`: drops the whitespace prefix. */
  function TrimStart(s: string): string {
    if s != [] && IsSpace(s[0]) then TrimStart(s[1..]) else s
  }

  /** `rstrip`: drops the whitespace suffix. */
  function TrimEnd(s: string): string {
    if s != [] && IsSpace(s[|s| - 1]) then TrimEnd(s[..|s| - 1]) else s
  }

  /** `lstrip` removes exactly the whitespace prefix: what remains is a
      suffix that is empty or starts with a non-space character. */
  lemma {:induction false} TrimStartSpec(s: string)
    ensures var r := TrimStart(s);
      && |r| <= |s| && r == s[|s| - |r|..]
      && AllSpace(s[..|s| - |r|])
      && (r == [] || !IsSpace(r[0]))
  {
    if s != [] && IsSpace(s[0]) {
      TrimStartSpec(s[1..]);
      var r := TrimStart(s);
      assert s[..|s| - |r|] == [s[0]] + s[1..][..|s| - 1 - |r|];
    }
  }

  /** `rstrip` removes exactly the whitespace suffix: what remains is a
      prefix that is empty or ends with a non-space character. */
  lemma {:induction false} TrimEndSpec(s: string)
    ensures var r := TrimEnd(s);
      && |r| <= |s| && r == s[..|r|]
      && AllSpace(s[|r|..])
      && (r == [] || !IsSpace(r[|r| - 1]))
  {
    if s != [] && IsSpace(s[|s| - 1]) {
      TrimEndSpec(s[..|s| - 1]);
      var r := TrimEnd(s);
      assert s[|r|..] == s[..|s| - 1][|r|..] + [s[|s| - 1]];
    }
  }

  /** `strip`: `s` without its leading and trailing whitespace. */
  function Strip(s: string): string {
    TrimEnd(TrimStart(s))
  }

  /** What `strip` returns is the slice of `s` left once the whitespace at
      both ends is gone. */
  lemma StripSpec(s: string)
    ensures exists i: nat, j: nat :: IsStripOf(s, i, j) && Strip(s) == s[i..j]
  {
    var t := TrimStart(s);
    TrimStartSpec(s);
    var r := TrimEnd(t);
    TrimEndSpec(t);
    var i := |s| - |t|;
    assert s[i..i + |r|] == r;
    assert s[..i + |r|] == s[..i] + r;
    assert s[i + |r|..] == t[|r|..];
    assert |r| == 0 ==> AllSpace(s[i..]) && s[i..] == s[i + |r|..];
    assert IsStripOf(s, i, i + |r|);
  }

  /** Index of the first `c` in `s`, or `|s|` when there is none. */
  function IndexOf(s: string, c: char): (k: nat)
    ensures k <= |s|
    ensures forall i :: 0 <= i < k ==> s[i] != c
    ensures k < |s| ==> s[k] == c
  {
    if s == [] || s[0] == c then 0 else 1 + IndexOf(s[1..], c)
  }

  /** `s.split(sep, 2)` for a one-character separator: no parts for the
      empty string, the whole string when `sep` does not occur, and
      otherwise two parts, cut at the first `sep` (see `Split2Parts`). */
  function Split2(s: string, sep: char): (parts: seq<string>)
    ensures |parts| <= 2
    ensures |parts| == 0 <==> s == []
    ensures |parts| == 1 <==> s != [] && sep !in s
    ensures |parts| == 1 ==> parts[0] == s
  {
    if s == [] then []
    else
      var k := IndexOf(s, sep);
      if k == |s| then [s] else [s[..k], s[k + 1..]]
  }

  /** The two parts are the text before the first `sep` and everything
      after it, which may be empty and may contain further `sep`s. */
  lemma Split2Parts(s: string, sep: char)
    requires |Split2(s, sep)| == 2
    ensures var parts := Split2(s, sep);
      s == parts[0] + [sep] + parts[1] && sep !in parts[0]
  {
    var k := IndexOf(s, sep);
    assert s == s[..k] + [sep] + s[k + 1..];
  }

  /** The cut is at the first separator. */
  lemma Split2At(s: string, sep: char, k: nat)
    requires k < |s| && s[k] == sep && sep !in s[..k]
    ensures Split2(s, sep) == [s[..k], s[k + 1..]]
  {
    var m := IndexOf(s, sep);
  }

  // Lemmas about Strip

  lemma {:induction false} TrimStartAt(s: string, i: nat)
    requires i <= |s| && AllSpace(s[..i])
    requires i == |s| || !IsSpace(s[i])
    ensures TrimStart(s) == s[i..]
  {
    if i > 0 {
      assert IsSpace(s[..i][0]);
      assert s[1..][..i - 1] == s[1..i];
      assert AllSpace(s[1..][..i - 1]) by {
        forall k | 0 <= k < i - 1 ensures IsSpace(s[1..i][k]) {
          assert s[1..i][k] == s[..i][k + 1];
        }
      }
      TrimStartAt(s[1..], i - 1);
      assert s[1..][i - 1..] == s[i..];
    }
  }

  lemma {:induction false} TrimEndAt(s: string, j: nat)
    requires j <= |s| && AllSpace(s[j..])
    requires j == 0 || !IsSpace(s[j - 1])
    ensures TrimEnd(s) == s[..j]
    decreases |s| - j
  {
    if j < |s| {
      assert IsSpace(s[j..][|s| - 1 - j]);
      var t := s[..|s| - 1];
      assert AllSpace(t[j..]) by {
        forall k | 0 <= k < |t| - j ensures IsSpace(t[j..][k]) {
          assert t[j..][k] == s[j..][k];
        }
      }
      TrimEndAt(t, j);
      assert t[..j] == s[..j];
    } else {
      assert s[..j] == s;
    }
  }

  lemma AllSpaceConcat(a: string, b: string)
    requires AllSpace(a) && AllSpace(b)
    ensures AllSpace(a + b)
  {
    forall k | 0 <= k < |a + b| ensures IsSpace((a + b)[k]) {
      if k < |a| { assert (a + b)[k] == a[k]; } else { assert (a + b)[k] == b[k - |a|]; }
    }
  }

  /** A string of whitespace only strips to the empty string. */
  lemma StripAllSpace(s: string)
    requires AllSpace(s)
    ensures Strip(s) == []
  {
    assert s[..|s|] == s;
    TrimStartAt(s, |s|);
  }

  /** The two ends of the stripped slice are whitespace. */
  lemma StripOfEnds(s: string, i: nat, j: nat)
    requires IsStripOf(s, i, j)
    ensures forall k :: 0 <= k < |s| && (k < i || j <= k) ==> IsSpace(s[k])
  {
    forall k | 0 <= k < |s| && (k < i || j <= k) ensures IsSpace(s[k]) {
      if k < i { assert s[k] == s[..i][k]; } else { assert s[k] == s[j..][k - j]; }
    }
  }

  /** Whatever slice satisfies the description of `strip` is the one `Strip` returns. */
  lemma StripAt(s: string, i: nat, j: nat)
    requires IsStripOf(s, i, j)
    ensures Strip(s) == s[i..j]
  {
    if i == j {
      StripOfEnds(s, i, j);
      StripAllSpace(s);
    } else {
      TrimStartAt(s, i);
      var t := s[i..];
      assert t[j - i..] == s[j..];
      TrimEndAt(t, j - i);
      assert TrimEnd(t) == s[i..j];
    }
  }

  /** Stripping is idempotent. */
  lemma StripIdempotent(s: string)
    ensures Strip(Strip(s)) == Strip(s)
  {
    StripSpec(s);
    var r := Strip(s);
    var i: nat, j: nat :| IsStripOf(s, i, j) && r == s[i..j];
    assert r[..0] == [] && r[|r|..] == [];
    assert 0 < |r| ==> r[0] == s[i] && r[|r| - 1] == s[j - 1];
    StripAt(r, 0, |r|);
    assert r[0..|r|] == r;
  }

  lemma PaddedStripOf(w1: string, s: string, w2: string, i: nat, j: nat)
    requires AllSpace(w1) && AllSpace(w2) && IsStripOf(s, i, j)
    ensures IsStripOf(w1 + s + w2, |w1| + i, |w1| + j)
    ensures (w1 + s + w2)[|w1| + i..|w1| + j] == s[i..j]
  {
    var t := w1 + s + w2;
    var n := |w1|;
    assert t[..n + i] == w1 + s[..i];
    AllSpaceConcat(w1, s[..i]);
    assert t[n + j..] == s[j..] + w2;
    AllSpaceConcat(s[j..], w2);
    assert i < j ==> t[n + i] == s[i] && t[n + j - 1] == s[j - 1];
  }

  lemma PaddedStripAt(w1: string, s: string, w2: string, i: nat, j: nat)
    requires AllSpace(w1) && AllSpace(w2) && IsStripOf(s, i, j)
    ensures Strip(w1 + s + w2) == s[i..j]
  {
    PaddedStripOf(w1, s, w2, i, j);
    StripAt(w1 + s + w2, |w1| + i, |w1| + j);
  }

  /** Whitespace added at either end does not change the stripped text. */
  lemma StripPadding(w1: string, s: string, w2: string)
    requires AllSpace(w1) && AllSpace(w2)
    ensures Strip(w1 + s + w2) == Strip(s)
  {
    StripSpec(s);
    var r := Strip(s);
    var i: nat, j: nat :| IsStripOf(s, i, j) && r == s[i..j];
    PaddedStripAt(w1, s, w2, i, j);
  }

  /** A string strips to nothing exactly when it is all whitespace. */
  lemma StripEmpty(s: string)
    ensures Strip(s) == [] <==> AllSpace(s)
  {
    StripSpec(s);
    var r := Strip(s);
    var i: nat, j: nat :| IsStripOf(s, i, j) && r == s[i..j];
    if i == j {
      StripOfEnds(s, i, j);
    }
  }

  /** A string starting with a non-space character strips to one starting with it. */
  lemma StripHead(s: string)
    requires s != [] && !IsSpace(s[0])
    ensures Strip(s) != [] && Strip(s)[0] == s[0]
  {
    StripSpec(s);
    var r := Strip(s);
    var i: nat, j: nat :| IsStripOf(s, i, j) && r == s[i..j];
    StripOfEnds(s, i, j);
  }

  /** A non-space character occurs in the stripped text exactly when it occurs in the text. */
  lemma StripKeeps(s: string, c: char)
    requires !IsSpace(c)
    ensures c in Strip(s) <==> c in s
  {
    StripSpec(s);
    var r := Strip(s);
    var i: nat, j: nat :| IsStripOf(s, i, j) && r == s[i..j];
    StripOfEnds(s, i, j);
    if c in s {
      var k :| 0 <= k < |s| && s[k] == c;
      assert r[k - i] == c;
    }
    if c in r {
      var k :| 0 <= k < |r| && r[k] == c;
      assert s[i + k] == c;
    }
  }

  /** Cutting at the first separator can be done in only one way. */
  lemma SplitUnique(x: string, y: string, u: string, v: string, sep: char)
    requires x + [sep] + y == u + [sep] + v
    requires sep !in x && sep !in u
    ensures x == u && y == v
  {
    var s := x + [sep] + y;
    assert s[|x|] == sep && s[|u|] == sep;
    assert |x| == |u| by {
      if |x| < |u| {
        assert false;
      } else if |u| < |x| {
        assert false;
      }
    }
    assert x == s[..|x|] && u == s[..|u|];
    assert y == s[|x| + 1..] && v == s[|u| + 1..];
  }

  // Integer#to_s for the non-negative line numbers interpolated into messages

  function DigitChar(d: nat): (c: char)
    requires d < 10
    ensures '0' <= c <= '9' && c as int - '0' as int == d
  {
    ('0' as int + d) as char
  }

  predicate IsDigits(s: string) {
    forall i :: 0 <= i < |s| ==> '0' <= s[i] <= '9'
  }

  /** The number a string of decimal digits denotes. */
  function DecimalValue(s: string): nat
    requires IsDigits(s)
  {
    if s == [] then 0
    else DecimalValue(s[..|s| - 1]) * 10 + (s[|s| - 1] as int - '0' as int)
  }

  /** The decimal digits of `n`, without leading zeros. */
  function NatToString(n: nat): (s: string)
    ensures s != [] && IsDigits(s)
    ensures s[0] == '0' ==> n == 0 && s == "0"
    ensures DecimalValue(s) == n
  {
    if n < 10 then
      assert [DigitChar(n)][..0] == [];
      [DigitChar(n)]
    else
      var s := NatToString(n / 10) + [DigitChar(n % 10)];
      assert s[..|s| - 1] == NatToString(n / 10);
      s
  }
}
