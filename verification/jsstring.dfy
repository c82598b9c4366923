/** The handful of JavaScript string operations the fiscal-document code relies
    on, with their JavaScript edge cases: `substring` clamps and swaps its
    bounds, `padStart` never truncates, `split` always yields at least one part,
    `/^0+/` strips every leading zero and `/\D/g` drops every non-digit. */
module JsString {

  /** `s.substring(a, b)`: both bounds are clamped to the length and swapped
      when given in decreasing order. */
  function Substring(s: string, a: nat, b: nat): (r: string)
    ensures |r| == Clamp(Max(a, b), |s|) - Clamp(Min(a, b), |s|)
    ensures forall i :: 0 <= i < |r| ==> r[i] == s[Clamp(Min(a, b), |s|) + i]
  {
    s[Clamp(Min(a, b), |s|)..Clamp(Max(a, b), |s|)]
  }

  /** `s.substring(a)` */
  function SubFrom(s: string, a: nat): (r: string)
    ensures a <= |s| ==> r == s[a..]
    ensures a >= |s| ==> r == ""
  {
    Substring(s, a, |s|)
  }

  function Min(a: nat, b: nat): nat { if a <= b then a else b }
  function Max(a: nat, b: nat): nat { if a <= b then b else a }
  function Clamp(a: nat, n: nat): nat { if a <= n then a else n }

  /** Adjacent slices glue back together, whatever the length of `s`. */
  lemma SubstringConcat(s: string, a: nat, b: nat, c: nat)
    requires a <= b <= c
    ensures Substring(s, a, b) + Substring(s, b, c) == Substring(s, a, c)
  {
    var lo, mid, hi := Clamp(a, |s|), Clamp(b, |s|), Clamp(c, |s|);
    assert s[lo..mid] + s[mid..hi] == s[lo..hi];
  }

  /** `s.substring(a, b) + s.substring(b)` is `s.substring(a)`. */
  lemma SubFromSplit(s: string, a: nat, b: nat)
    requires a <= b
    ensures Substring(s, a, b) + SubFrom(s, b) == SubFrom(s, a)
  {
    if b <= |s| {
      SubstringConcat(s, a, b, |s|);
    } else {
      assert SubFrom(s, b) == "";
      assert Substring(s, a, b) == Substring(s, a, |s|);
    }
  }

  predicate StartsWith(s: string, prefix: string) {
    |prefix| <= |s| && s[..|prefix|] == prefix
  }

  predicate EndsWith(s: string, suffix: string) {
    |suffix| <= |s| && s[|s| - |suffix|..] == suffix
  }

  /** `s.includes(t)` */
  predicate Contains(s: string, t: string) {
    StartsWith(s, t) || (|s| > 0 && Contains(s[1..], t))
  }

  /** `n` copies of `c`. */
  function Repeat(c: char, n: nat): (r: string)
    ensures |r| == n
    ensures forall i :: 0 <= i < n ==> r[i] == c
  {
    if n == 0 then "" else [c] + Repeat(c, n - 1)
  }

  /** `s.replace(/^0+/, "")` */
  function StripLeadingZeros(s: string): (r: string)
    ensures |r| <= |s|
    ensures r == "" || r[0] != '0'
    ensures s == Repeat('0', |s| - |r|) + r
  {
    if |s| > 0 && s[0] == '0' then
      var r := StripLeadingZeros(s[1..]);
      assert Repeat('0', |s| - |r|) == ['0'] + Repeat('0', |s[1..]| - |r|);
      ConcatAssoc(['0'], Repeat('0', |s[1..]| - |r|), r);
      assert s == [s[0]] + s[1..];
      r
    else s
  }

  /** `s.padStart(n, c)`: left-fills up to width `n` and never truncates. */
  function PadStart(s: string, n: nat, c: char): (r: string)
    ensures |s| >= n ==> r == s
    ensures |s| < n ==> |r| == n
    ensures r == Repeat(c, |r| - |s|) + s
  {
    if |s| >= n then s else Repeat(c, n - |s|) + s
  }

  predicate IsDigit(c: char) {
    '0' <= c <= '9'
  }

  predicate AllDigits(s: string) {
    forall i :: 0 <= i < |s| ==> IsDigit(s[i])
  }

  /** `s.replace(/\D/g, "")`: keeps the digits, in order. */
  function DigitsOnly(s: string): (r: string)
    ensures AllDigits(r)
    ensures |r| <= |s|
  {
    if s == [] then ""
    else if IsDigit(s[0]) then [s[0]] + DigitsOnly(s[1..])
    else DigitsOnly(s[1..])
  }

  /** A string of digits is left alone by `DigitsOnly`, so the clean-up is idempotent. */
  lemma {:induction false} DigitsOnlyKeepsDigits(s: string)
    requires AllDigits(s)
    ensures DigitsOnly(s) == s
  {
    if s != [] {
      DigitsOnlyKeepsDigits(s[1..]);
    }
  }

  /** `s.split(sep)` for a one-character separator. */
  function Split(s: string, sep: char): (parts: seq<string>)
    ensures |parts| >= 1
    ensures forall i :: 0 <= i < |parts| ==> sep !in parts[i]
  {
    if s == [] then [""]
    else
      var rest := Split(s[1..], sep);
      if s[0] == sep then [""] + rest
      else [[s[0]] + rest[0]] + rest[1..]
  }

  /** There is one more part than there are separators. */
  lemma {:induction false} SplitCount(s: string, sep: char)
    ensures |Split(s, sep)| == multiset(s)[sep] + 1
  {
    if s != [] {
      assert s == [s[0]] + s[1..];
      assert multiset(s) == multiset([s[0]]) + multiset(s[1..]);
      SplitCount(s[1..], sep);
    }
  }

  /** `parts.join(sep)` */
  function Join(parts: seq<string>, sep: char): string
    requires |parts| >= 1
  {
    if |parts| == 1 then parts[0] else parts[0] + [sep] + Join(parts[1..], sep)
  }

  /** Splitting loses nothing: joining the parts back gives the original. */
  lemma {:induction false} JoinSplit(s: string, sep: char)
    ensures Join(Split(s, sep), sep) == s
  {
    if s != [] {
      JoinSplit(s[1..], sep);
      var rest := Split(s[1..], sep);
      if s[0] == sep {
        JoinAfterSep(rest, sep);
      } else {
        JoinPrepend(s[0], rest, sep);
      }
      assert s == [s[0]] + s[1..];
    }
  }

  /** A leading empty part joins as a leading separator. */
  lemma JoinAfterSep(parts: seq<string>, sep: char)
    requires |parts| >= 1
    ensures Join([""] + parts, sep) == [sep] + Join(parts, sep)
  {
    assert ([""] + parts)[1..] == parts;
  }

  /** A character put in front of the first part is in front of the join. */
  lemma JoinPrepend(c: char, parts: seq<string>, sep: char)
    requires |parts| >= 1
    ensures Join([[c] + parts[0]] + parts[1..], sep) == [c] + Join(parts, sep)
  {
    var q := [[c] + parts[0]] + parts[1..];
    if |parts| > 1 {
      assert q[1..] == parts[1..];
      ConcatAssoc([c], parts[0], [sep] + Join(parts[1..], sep));
    }
  }

  /** A string without the separator is a single part. */
  lemma {:induction false} SplitNoSep(s: string, sep: char)
    requires sep !in s
    ensures Split(s, sep) == [s]
  {
    if s != [] {
      SplitNoSep(s[1..], sep);
      assert s == [s[0]] + s[1..];
    }
  }

  /** A separator after a separator-free prefix ends the first part there. */
  lemma {:induction false} SplitAt(a: string, sep: char, b: string)
    requires sep !in a
    ensures Split(a + [sep] + b, sep) == [a] + Split(b, sep)
  {
    var s := a + [sep] + b;
    if a == [] {
      assert s == [sep] + b;
      assert s[1..] == b;
    } else {
      assert s[0] == a[0] && s[1..] == a[1..] + [sep] + b;
      SplitAt(a[1..], sep, b);
      assert [a[0]] + a[1..] == a;
    }
  }

  lemma DigitsConcat(a: string, b: string)
    requires AllDigits(a) && AllDigits(b)
    ensures AllDigits(a + b)
  {
    forall i | 0 <= i < |a + b| ensures IsDigit((a + b)[i]) {
      if i < |a| { assert (a + b)[i] == a[i]; } else { assert (a + b)[i] == b[i - |a|]; }
    }
  }

  lemma DigitsSlice(s: string, i: nat, j: nat)
    requires AllDigits(s) && i <= j <= |s|
    ensures AllDigits(s[i..j])
  {
    forall k | 0 <= k < j - i ensures IsDigit(s[i..j][k]) {
      assert s[i..j][k] == s[i + k];
    }
  }

  /** Padding digits with zeros leaves only digits. */
  lemma ZeroPadDigits(s: string, n: nat)
    requires AllDigits(s)
    ensures AllDigits(PadStart(s, n, '0'))
  {
    var z := Repeat('0', |PadStart(s, n, '0')| - |s|);
    assert AllDigits(z) by {
      forall k | 0 <= k < |z| ensures IsDigit(z[k]) { assert z[k] == '0'; }
    }
    DigitsConcat(z, s);
  }

  /** The pieces of a five-part string, read back by position. */
  lemma Parts5<T>(s: seq<T>, a: seq<T>, b: seq<T>, c: seq<T>, d: seq<T>, e: seq<T>)
    requires s == a + b + c + d + e
    ensures var i, j, k, l := |a|, |a| + |b|, |a| + |b| + |c|, |a| + |b| + |c| + |d|;
      s[..i] == a && s[i..j] == b && s[j..k] == c && s[k..l] == d && s[l..] == e
  {
    var i, j, k, l := |a|, |a| + |b|, |a| + |b| + |c|, |a| + |b| + |c| + |d|;
    assert s[..l] == a + b + c + d;
    assert s[..k] == a + b + c;
    assert s[..j] == a + b;
  }

  /** Four trailing pieces regroup into one block. */
  lemma Regroup<T>(h: seq<T>, a: seq<T>, b: seq<T>, c: seq<T>, d: seq<T>)
    ensures h + a + b + c + d == h + (((a + b) + c) + d)
  {
  }

  /** A sequence is the concatenation of its pieces between four cut points. */
  lemma Rejoin<T>(s: seq<T>, i: nat, j: nat, k: nat, l: nat)
    requires i <= j <= k <= l <= |s|
    ensures s == s[..i] + s[i..j] + s[j..k] + s[k..l] + s[l..]
  {
    assert s[..l] == s[..i] + s[i..j] + s[j..k] + s[k..l];
  }

  lemma ConcatAssoc<T>(a: seq<T>, b: seq<T>, c: seq<T>)
    ensures a + b + c == a + (b + c)
  {
  }
}
