/** Octets, octet strings and the big-endian numbers they spell. */
module Octets {
  type byte = x: int | 0 <= x < 256

  type Bytes = seq<byte>

  datatype Option<+T> = None | Some(value: T)

  function Max(a: int, b: int): int {
    if a < b then b else a
  }

  lemma Assoc<T>(a: seq<T>, b: seq<T>, c: seq<T>)
    ensures (a + b) + c == a + (b + c)
  {
  }

  lemma Rejoin<T>(front: seq<T>, s: seq<T>)
    requires front <= s
    ensures s == front + s[|front|..]
  {
  }

  lemma FrontOfSlice<T>(s: seq<T>, i: nat, j: nat, n: nat)
    requires i + n <= j <= |s|
    ensures s[i..j][..n] == s[i..i + n]
  {
  }

  lemma GrowBy<T>(s: seq<T>, i: nat, block: seq<T>)
    requires i + |block| <= |s| && forall k :: 0 <= k < |block| ==> s[i + k] == block[k]
    ensures s[..i + |block|] == s[..i] + block
  {
    assert s[i..i + |block|] == block;
  }

  lemma Grow<T>(s: seq<T>, i: nat)
    requires i < |s|
    ensures s[..i + 1] == s[..i] + [s[i]]
  {
  }

  lemma SameHead<T>(a: seq<T>, b: seq<T>, r: seq<T>, s: seq<T>)
    requires |a| == |b| && a + r == b + s
    ensures a == b && r == s
  {
    assert a == (a + r)[..|a|] && r == (a + r)[|a|..];
    assert b == (b + s)[..|a|] && s == (b + s)[|a|..];
  }

  lemma Slices<T>(s: seq<T>, i: nat, j: nat, k: nat)
    requires i <= j <= k <= |s|
    ensures s[i..k] == s[i..j] + s[j..k]
    ensures s[j..k] == s[i..k][j - i..]
    ensures s[j..] == s[j..k] + s[k..] && s[j..][..k - j] == s[j..k]
  {
  }

  /** The number whose base-256 digits are s, most significant first. */
  function BigEndian(s: Bytes): nat {
    if s == [] then 0 else 256 * BigEndian(s[..|s| - 1]) + s[|s| - 1]
  }

  /** What comes later weighs less. */
  lemma {:induction false} BigEndianConcat(a: Bytes, b: Bytes)
    ensures BigEndian(a + b) == BigEndian(a) * Pow256(|b|) + BigEndian(b)
    decreases |b|
  {
    if b == [] {
      assert a + b == a;
    } else {
      var (front, last) := (b[..|b| - 1], b[|b| - 1]);
      BigEndianConcat(a, front);
      assert (a + b)[..|a + b| - 1] == a + front;
      assert BigEndian(a + b) == 256 * BigEndian(a + front) + last;
      assert 256 * (BigEndian(a) * Pow256(|front|)) == BigEndian(a) * Pow256(|b|);
    }
  }

  /** A prefix never spells a larger number than the whole. */
  lemma {:induction false} BigEndianPrefix(s: Bytes, i: nat)
    requires i <= |s|
    ensures BigEndian(s[..i]) <= BigEndian(s)
  {
    if i < |s| {
      assert s[..|s| - 1][..i] == s[..i];
      BigEndianPrefix(s[..|s| - 1], i);
    } else {
      assert s[..i] == s;
    }
  }

  /** The n-digit base-256 numeral of x, most significant digit first; high digits are lost. */
  function Digits(n: nat, x: nat): (s: Bytes)
    ensures |s| == n
  {
    if n == 0 then [] else Digits(n - 1, x / 256) + [x % 256]
  }

  function Pow256(n: nat): nat {
    if n == 0 then 1 else 256 * Pow256(n - 1)
  }

  /** Numerals read back as the number, as long as it fits in n octets. */
  lemma {:induction false} DigitsRoundTrip(n: nat, x: nat)
    requires x < Pow256(n)
    ensures BigEndian(Digits(n, x)) == x
  {
    if n > 0 {
      DigitsRoundTrip(n - 1, x / 256);
      var s := Digits(n, x);
      assert s[..|s| - 1] == Digits(n - 1, x / 256);
    }
  }

  /** And every string of octets is the numeral of the number it spells. */
  lemma {:induction false} NumberRoundTrip(s: Bytes)
    ensures BigEndian(s) < Pow256(|s|) && Digits(|s|, BigEndian(s)) == s
  {
    if s != [] {
      var (front, last) := (s[..|s| - 1], s[|s| - 1]);
      NumberRoundTrip(front);
      assert BigEndian(s) == 256 * BigEndian(front) + last;
      assert s == front + [last];
    }
  }
}
