/** The string conversions the watcher relies on: JavaScript's `String(n)` for the
    non-negative integer ids of the upstream JSON, and `Array.prototype.join`. */
module Strings {

  predicate IsDigit(c: char) { '0' <= c <= '9' }

  predicate IsDecimal(s: string) { forall i :: 0 <= i < |s| ==> IsDigit(s[i]) }

  function DigitChar(d: nat): (c: char)
    requires d < 10
    ensures IsDigit(c) && c as int - '0' as int == d
  {
    ('0' as int + d) as char
  }

  /** `String(n)` for a non-negative integer: its decimal digits, with no leading zero. */
  function NatToString(n: nat): (s: string)
    ensures |s| > 0 && IsDecimal(s)
    ensures (|s| == 1) == (n < 10)
    ensures (s[0] == '0') == (n == 0)
  {
    if n < 10 then [DigitChar(n)] else NatToString(n / 10) + [DigitChar(n % 10)]
  }

  /** The number a string of decimal digits denotes (the reading direction of `NatToString`). */
  function DecimalValue(s: string): nat
    requires IsDecimal(s)
  {
    if s == [] then 0
    else DecimalValue(s[..|s| - 1]) * 10 + (s[|s| - 1] as int - '0' as int)
  }

  /** Reading back what `NatToString` wrote gives the number again. */
  lemma {:induction false} DecimalRoundTrip(n: nat)
    ensures DecimalValue(NatToString(n)) == n
  {
    var s := NatToString(n);
    if n >= 10 {
      DecimalRoundTrip(n / 10);
      assert s[..|s| - 1] == NatToString(n / 10);
    } else {
      assert s[..|s| - 1] == [];
    }
  }

  /** Two different ids never print the same: comparing printed ids compares the ids. */
  lemma NatToStringInjective(a: nat, b: nat)
    ensures NatToString(a) == NatToString(b) <==> a == b
  {
    DecimalRoundTrip(a);
    DecimalRoundTrip(b);
  }

  /** `xs.join(sep)`: the elements in order with `sep` between consecutive ones. */
  function Join(xs: seq<string>, sep: string): string
  {
    if |xs| == 0 then ""
    else if |xs| == 1 then xs[0]
    else Join(xs[..|xs| - 1], sep) + sep + xs[|xs| - 1]
  }

  /** The total length of the strings in `xs`. */
  function TotalLength(xs: seq<string>): nat
  {
    if xs == [] then 0 else TotalLength(xs[..|xs| - 1]) + |xs[|xs| - 1]|
  }

  /** Where `xs[i]` starts inside `Join(xs, sep)`. */
  function JoinOffset(xs: seq<string>, sep: string, i: nat): nat
    requires i <= |xs|
  {
    TotalLength(xs[..i]) + i * |sep|
  }

  /** A joined string is as long as its parts plus one separator between each two. */
  lemma {:induction false} JoinLength(xs: seq<string>, sep: string)
    requires |xs| > 0
    ensures |Join(xs, sep)| == TotalLength(xs) + (|xs| - 1) * |sep|
  {
    if |xs| > 1 {
      JoinLength(xs[..|xs| - 1], sep);
      assert (|xs| - 2) * |sep| + |sep| == (|xs| - 1) * |sep|;
    } else {
      assert xs[..0] == [];
    }
  }

  /** A slice that lies inside the left part of a concatenation. */
  lemma SliceOfLeft(a: string, b: string, k: nat, m: nat)
    requires k <= m <= |a|
    ensures (a + b)[k..m] == a[k..m]
  {
    assert forall j :: k <= j < m ==> (a + b)[j] == a[j];
  }

  /** A slice that starts where the left part of a concatenation ends. */
  lemma SliceOfRight(a: string, b: string)
    ensures (a + b)[|a|..|a| + |b|] == b
  {
    assert forall j :: 0 <= j < |b| ==> (a + b)[|a| + j] == b[j];
  }

  /** The last element of a joined list starts after the rest and one separator. */
  lemma JoinOffsetLast(xs: seq<string>, sep: string)
    requires |xs| > 1
    ensures JoinOffset(xs, sep, |xs| - 1) == |Join(xs[..|xs| - 1], sep) + sep|
  {
    var n := |xs|;
    JoinLength(xs[..n - 1], sep);
    assert xs[..n - 1][..n - 1] == xs[..n - 1];
    assert (n - 2) * |sep| + |sep| == (n - 1) * |sep|;
  }

  /** Dropping the last element moves none of the others. */
  lemma JoinOffsetInit(xs: seq<string>, sep: string, i: nat)
    requires i < |xs| - 1
    ensures JoinOffset(xs[..|xs| - 1], sep, i) == JoinOffset(xs, sep, i)
  {
    assert xs[..|xs| - 1][..i] == xs[..i];
  }

  /** Between element i and element i + 1 of a joined list stands exactly `sep`. */
  lemma {:induction false} JoinSeparatorAt(xs: seq<string>, sep: string, i: nat)
    requires i + 1 < |xs|
    ensures JoinOffset(xs, sep, i) + |xs[i]| + |sep| <= |Join(xs, sep)|
    ensures Join(xs, sep)[JoinOffset(xs, sep, i) + |xs[i]|..JoinOffset(xs, sep, i) + |xs[i]| + |sep|] == sep
  {
    var n := |xs|;
    var init := xs[..n - 1];
    var left := Join(init, sep) + sep;
    assert Join(xs, sep) == left + xs[n - 1];
    JoinLength(init, sep);
    if i == n - 2 {
      JoinElementAt(init, sep, i);
      JoinOffsetInit(xs, sep, i);
      JoinOffsetLast(xs, sep);
      assert JoinOffset(xs, sep, i) + |xs[i]| == |Join(init, sep)| by {
        JoinOffsetAfter(init, sep);
      }
      SliceOfRight(Join(init, sep), sep);
      SliceOfLeft(left, xs[n - 1], |Join(init, sep)|, |left|);
    } else {
      JoinSeparatorAt(init, sep, i);
      JoinOffsetInit(xs, sep, i);
      var k := JoinOffset(init, sep, i) + |xs[i]|;
      SliceOfLeft(Join(init, sep), sep, k, k + |sep|);
      SliceOfLeft(left, xs[n - 1], k, k + |sep|);
    }
  }

  /** The last element of a joined list ends where the joined string ends. */
  lemma JoinOffsetAfter(xs: seq<string>, sep: string)
    requires |xs| > 0
    ensures JoinOffset(xs, sep, |xs| - 1) + |xs[|xs| - 1]| == |Join(xs, sep)|
  {
    var n := |xs|;
    JoinLength(xs, sep);
    assert xs[..n][..n - 1] == xs[..n - 1];
    assert TotalLength(xs) == TotalLength(xs[..n - 1]) + |xs[n - 1]|;
  }

  /** Every element of `xs` appears, unchanged, in `Join(xs, sep)` at `JoinOffset(xs, sep, i)`. */
  lemma {:induction false} JoinElementAt(xs: seq<string>, sep: string, i: nat)
    requires i < |xs|
    ensures JoinOffset(xs, sep, i) + |xs[i]| <= |Join(xs, sep)|
    ensures Join(xs, sep)[JoinOffset(xs, sep, i)..JoinOffset(xs, sep, i) + |xs[i]|] == xs[i]
  {
    var n := |xs|;
    if n == 1 {
      assert xs[..0] == [];
    } else {
      var init := xs[..n - 1];
      var left := Join(init, sep) + sep;
      assert Join(xs, sep) == left + xs[n - 1];
      if i == n - 1 {
        JoinOffsetLast(xs, sep);
        SliceOfRight(left, xs[n - 1]);
      } else {
        JoinElementAt(init, sep, i);
        JoinOffsetInit(xs, sep, i);
        var k := JoinOffset(init, sep, i);
        SliceOfLeft(Join(init, sep), sep, k, k + |xs[i]|);
        SliceOfLeft(left, xs[n - 1], k, k + |xs[i]|);
      }
    }
  }
}
