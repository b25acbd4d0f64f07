/**
 Character classes and string helpers shared by the G-code transformer and the
 zone listener: Python's `str.strip()`, the `in` substring test, `"".join`,
 `str.rsplit`'s search for the last separator, and decimal integer text.
 Text is ASCII; the non-ASCII whitespace and digit classes Python also accepts
 are not modelled.
 */
module Text {
  import opened Wrappers

  /** The ASCII characters that `str.isspace()` accepts and the regex class `\s` matches:
      tab, line feed, vertical tab, form feed, carriage return, the four
      information separators 0x1C-0x1F, and space. */
  predicate IsSpace(c: char) {
    var n := c as int;
    n == 32 || (9 <= n <= 13) || (28 <= n <= 31)
  }

  /** An ASCII decimal digit (the regex class `\d` on ASCII text). */
  predicate IsDigit(c: char) {
    '0' <= c <= '9'
  }

  predicate AllSpace(s: string) {
    forall k :: 0 <= k < |s| ==> IsSpace(s[k])
  }

  predicate AllDigits(s: string) {
    forall k :: 0 <= k < |s| ==> IsDigit(s[k])
  }

  /** The end of the maximal run of whitespace that starts at `p`. */
  function SkipSpaces(s: string, p: nat): (q: nat)
    requires p <= |s|
    ensures p <= q <= |s|
    ensures forall k :: p <= k < q ==> IsSpace(s[k])
    ensures q == |s| || !IsSpace(s[q])
    decreases |s| - p
  {
    if p == |s| || !IsSpace(s[p]) then p else SkipSpaces(s, p + 1)
  }

  /** The end of the maximal run of digits that starts at `p`. */
  function SkipDigits(s: string, p: nat): (q: nat)
    requires p <= |s|
    ensures p <= q <= |s|
    ensures forall k :: p <= k < q ==> IsDigit(s[k])
    ensures q == |s| || !IsDigit(s[q])
    decreases |s| - p
  {
    if p == |s| || !IsDigit(s[p]) then p else SkipDigits(s, p + 1)
  }

  /** The start of the maximal run of whitespace that ends at `hi`, not going below `lo`. */
  function TrimEnd(s: string, lo: nat, hi: nat): (r: nat)
    requires lo <= hi <= |s|
    ensures lo <= r <= hi
    ensures forall k :: r <= k < hi ==> IsSpace(s[k])
    ensures r == lo || !IsSpace(s[r - 1])
    decreases hi
  {
    if hi == lo || !IsSpace(s[hi - 1]) then hi else TrimEnd(s, lo, hi - 1)
  }

  /** `t` is what is left of `s` once the whitespace on both ends is removed,
      and `t` starts at index `a` of `s`. */
  predicate StripsTo(s: string, a: nat, t: string) {
    && a + |t| <= |s|
    && s[a..a + |t|] == t
    && AllSpace(s[..a])
    && AllSpace(s[a + |t|..])
    && (|t| > 0 ==> !IsSpace(t[0]) && !IsSpace(t[|t| - 1]))
  }

  /** Python's `str.strip()` with no argument. */
  function Strip(s: string): (r: string)
    ensures exists a: nat :: StripsTo(s, a, r)
  {
    var a := SkipSpaces(s, 0);
    var b := TrimEnd(s, a, |s|);
    assert StripsTo(s, a, s[a..b]) by {
      assert s[a..b][..] == s[a..a + (b - a)];
      assert forall k :: 0 <= k < a ==> s[..a][k] == s[k];
      assert forall k :: 0 <= k < |s| - b ==> s[b..][k] == s[b + k];
    }
    s[a..b]
  }

  /** Stripping has exactly one possible outcome: whatever satisfies `StripsTo` is it. */
  lemma {:induction false} StripUnique(s: string, a: nat, t: string)
    requires StripsTo(s, a, t)
    ensures Strip(s) == t
  {
    var a0 := SkipSpaces(s, 0);
    var b0 := TrimEnd(s, a0, |s|);
    if |t| == 0 {
      assert AllSpace(s) by {
        forall k | 0 <= k < |s|
          ensures IsSpace(s[k])
        {
          if k < a {
            assert s[..a][k] == s[k];
          } else {
            assert s[a..][k - a] == s[k];
          }
        }
      }
      assert a0 == |s|;
    } else {
      assert s[a] == t[0];
      assert forall k :: 0 <= k < a ==> s[..a][k] == s[k];
      assert a0 == a;
      var e := a + |t|;
      assert s[e - 1] == t[|t| - 1];
      assert forall k :: e <= k < |s| ==> s[e..][k - e] == s[k];
      assert b0 == e;
    }
  }

  /** Stripping keeps the first `n` characters when the first and the `n`-th are not
      whitespace. */
  lemma StripKeepsHead(s: string, n: nat)
    requires 0 < n <= |s| && !IsSpace(s[0]) && !IsSpace(s[n - 1])
    ensures n <= |Strip(s)| && Strip(s)[..n] == s[..n]
  {
  }

  /** `sub` occurs in `s` starting at index `i`. */
  predicate OccursAt(s: string, sub: string, i: nat) {
    i + |sub| <= |s| && s[i..i + |sub|] == sub
  }

  function ContainsFrom(s: string, sub: string, i: nat): (b: bool)
    ensures b <==> exists j: nat :: i <= j && OccursAt(s, sub, j)
    decreases |s| - i
  {
    if i + |sub| > |s| then false
    else OccursAt(s, sub, i) || ContainsFrom(s, sub, i + 1)
  }

  /** Python's `sub in s`. */
  function Contains(s: string, sub: string): (b: bool)
    ensures b <==> exists j: nat :: OccursAt(s, sub, j)
  {
    ContainsFrom(s, sub, 0)
  }

  lemma AppendAssoc<T>(a: seq<T>, b: seq<T>, c: seq<T>)
    ensures a + (b + c) == (a + b) + c
  {
  }

  /** `f` applied to every element, in order. */
  function Map<A, B>(f: A -> B, xs: seq<A>): (r: seq<B>)
    ensures |r| == |xs| && forall k :: 0 <= k < |xs| ==> r[k] == f(xs[k])
  {
    seq(|xs|, k requires 0 <= k < |xs| => f(xs[k]))
  }

  lemma MapAppend<A, B>(f: A -> B, xs: seq<A>, ys: seq<A>)
    ensures Map(f, xs + ys) == Map(f, xs) + Map(f, ys)
  {
    var whole, parts := Map(f, xs + ys), Map(f, xs) + Map(f, ys);
    forall k | 0 <= k < |whole|
      ensures whole[k] == parts[k]
    {
      if k < |xs| {
        assert (xs + ys)[k] == xs[k];
      } else {
        assert (xs + ys)[k] == ys[k - |xs|];
      }
    }
  }

  /** Concatenation of a sequence of sequences, in order: `"".join(parts)` for strings. */
  function Flatten<T>(xss: seq<seq<T>>): seq<T>
    decreases |xss|
  {
    if |xss| == 0 then [] else Flatten(xss[..|xss| - 1]) + xss[|xss| - 1]
  }

  lemma {:induction false} FlattenAppend<T>(a: seq<seq<T>>, b: seq<seq<T>>)
    ensures Flatten(a + b) == Flatten(a) + Flatten(b)
    decreases |b|
  {
    if |b| == 0 {
      assert a + b == a;
    } else {
      var b' := b[..|b| - 1];
      assert (a + b)[..|a + b| - 1] == a + b';
      FlattenAppend(a, b');
    }
  }

  lemma FlattenSingle<T>(x: seq<T>)
    ensures Flatten([x]) == x
  {
    assert [x][..0] == [];
  }

  /** The first element of a flattened sequence is the first element of its first part. */
  lemma FlattenHead<T>(xss: seq<seq<T>>)
    requires |xss| > 0 && |xss[0]| > 0
    ensures |Flatten(xss)| > 0 && Flatten(xss)[0] == xss[0][0]
  {
    assert xss == [xss[0]] + xss[1..];
    FlattenAppend([xss[0]], xss[1..]);
    FlattenSingle(xss[0]);
  }

  /** Flattening each part and then the results is flattening everything at once. */
  lemma {:induction false} FlattenNested<T>(xsss: seq<seq<seq<T>>>)
    ensures Flatten(seq(|xsss|, k requires 0 <= k < |xsss| => Flatten(xsss[k]))) == Flatten(Flatten(xsss))
    decreases |xsss|
  {
    if |xsss| > 0 {
      var front := xsss[..|xsss| - 1];
      var last := xsss[|xsss| - 1];
      var inner := seq(|xsss|, k requires 0 <= k < |xsss| => Flatten(xsss[k]));
      var innerFront := seq(|front|, k requires 0 <= k < |front| => Flatten(front[k]));
      assert inner[..|inner| - 1] == innerFront;
      FlattenNested(front);
      assert xsss == front + [last];
      FlattenAppend(front, [last]);
      FlattenSingle(last);
      FlattenAppend(Flatten(front), last);
    }
  }

  /** The last position of `c` in `s`: the separator `str.rsplit(c, 1)` and `str.split(c)[-1]` cut at. */
  function LastIndexOf(s: string, c: char): (r: Option<nat>)
    ensures r.Some? ==> r.value < |s| && s[r.value] == c
                        && forall k :: r.value < k < |s| ==> s[k] != c
    ensures r.None? ==> forall k :: 0 <= k < |s| ==> s[k] != c
    decreases |s|
  {
    if |s| == 0 then None
    else if s[|s| - 1] == c then Some(|s| - 1)
    else LastIndexOf(s[..|s| - 1], c)
  }

  /** The last occurrence is pinned down by the character there and those after it. */
  lemma LastIndexOfIs(s: string, c: char, i: nat)
    requires i < |s| && s[i] == c
    requires forall k :: i < k < |s| ==> s[k] != c
    ensures LastIndexOf(s, c) == Some(i)
  {
  }

  lemma LastIndexOfNone(s: string, c: char)
    requires forall k :: 0 <= k < |s| ==> s[k] != c
    ensures LastIndexOf(s, c) == None
  {
  }

  function DigitChar(d: nat): (c: char)
    requires d < 10
    ensures IsDigit(c) && c as int - '0' as int == d
  {
    ('0' as int + d) as char
  }

  /** Python's `str(n)` for a non-negative integer: canonical decimal text. */
  function NatToDecimal(n: nat): (r: string)
    ensures |r| > 0 && AllDigits(r)
    ensures |r| > 1 ==> r[0] != '0'
    decreases n
  {
    if n < 10 then [DigitChar(n)] else NatToDecimal(n / 10) + [DigitChar(n % 10)]
  }

  /** Python's `str(v)` for any integer. */
  function IntToDecimal(v: int): string {
    if v < 0 then "-" + NatToDecimal(-v) else NatToDecimal(v)
  }

  /** The value of a run of decimal digits, as Python's `int()` reads it (leading zeros allowed). */
  function DecimalValue(ds: string): nat
    requires AllDigits(ds)
    decreases |ds|
  {
    if |ds| == 0 then 0
    else 10 * DecimalValue(ds[..|ds| - 1]) + (ds[|ds| - 1] as int - '0' as int)
  }

  /** Reading back the decimal text of `n` gives `n`. */
  lemma {:induction false} DecimalRoundTrip(n: nat)
    ensures DecimalValue(NatToDecimal(n)) == n
    decreases n
  {
    if n >= 10 {
      var r := NatToDecimal(n);
      assert r[..|r| - 1] == NatToDecimal(n / 10);
      DecimalRoundTrip(n / 10);
    }
  }
}
