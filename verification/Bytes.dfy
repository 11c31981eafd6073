/** Byte strings, fixed-width big-endian numbers, and the bytewise order in which the
    key-value store iterates its keys. */
module Bytes {
  type Byte = x: int | 0 <= x < 256
  type ByteString = seq<Byte>

  /** The number of values that fit in `n` bytes. */
  function Pow256(n: nat): (p: nat)
    ensures p > 0
  {
    if n == 0 then 1 else 256 * Pow256(n - 1)
  }

  /** `to_be_bytes` at a given width. */
  function ToBigEndian(x: nat, width: nat): (s: ByteString)
    requires x < Pow256(width)
    ensures |s| == width
  {
    if width == 0 then [] else ToBigEndian(x / 256, width - 1) + [x % 256]
  }

  /** `from_be_bytes`. */
  function FromBigEndian(s: ByteString): (x: nat)
    ensures x < Pow256(|s|)
  {
    if s == [] then 0 else FromBigEndian(s[..|s| - 1]) * 256 + s[|s| - 1]
  }

  lemma {:induction false} FromTo(x: nat, width: nat)
    requires x < Pow256(width)
    ensures FromBigEndian(ToBigEndian(x, width)) == x
  {
    if width > 0 {
      FromTo(x / 256, width - 1);
      assert ToBigEndian(x, width)[..width - 1] == ToBigEndian(x / 256, width - 1);
    }
  }

  lemma DigitsSplit(x: nat, d: Byte)
    ensures (x * 256 + d) / 256 == x && (x * 256 + d) % 256 == d
  {
  }

  lemma {:induction false} ToFrom(s: ByteString)
    ensures ToBigEndian(FromBigEndian(s), |s|) == s
  {
    if s != [] {
      var front, last := s[..|s| - 1], s[|s| - 1];
      ToFrom(front);
      DigitsSplit(FromBigEndian(front), last);
      assert s == front + [last];
      hide Pow256;
    }
  }

  /** The order of RocksDB's default comparator: bytewise, a proper prefix first. */
  predicate LexLess(a: ByteString, b: ByteString) {
    b != [] && (a == [] || a[0] < b[0] || (a[0] == b[0] && LexLess(a[1..], b[1..])))
  }

  lemma {:induction false} LexTotal(a: ByteString, b: ByteString)
    ensures LexLess(a, b) || a == b || LexLess(b, a)
    ensures !(LexLess(a, b) && LexLess(b, a))
    ensures a == b ==> !LexLess(a, b)
  {
    if a != [] && b != [] {
      LexTotal(a[1..], b[1..]);
      assert a == [a[0]] + a[1..] && b == [b[0]] + b[1..];
    }
  }

  lemma {:induction false} LexTransitive(a: ByteString, b: ByteString, c: ByteString)
    requires LexLess(a, b) && LexLess(b, c)
    ensures LexLess(a, c)
  {
    if a != [] && a[0] == b[0] == c[0] {
      LexTransitive(a[1..], b[1..], c[1..]);
    }
  }

  /** Appending a zero byte yields the immediate successor: nothing lies strictly between. */
  lemma {:induction false} ZeroByteIsImmediateSuccessor(a: ByteString, b: ByteString)
    ensures LexLess(b, a + [0]) <==> LexLess(b, a) || b == a
  {
    if a != [] && b != [] {
      ZeroByteIsImmediateSuccessor(a[1..], b[1..]);
      assert (a + [0])[1..] == a[1..] + [0];
      assert a == [a[0]] + a[1..] && b == [b[0]] + b[1..];
    }
  }

  lemma FromBigEndianStep(s: ByteString)
    requires s != []
    ensures FromBigEndian(s) == FromBigEndian(s[..|s| - 1]) * 256 + s[|s| - 1]
    ensures |s| > 1 ==> Pow256(|s| - 1) == 256 * Pow256(|s| - 2)
    ensures |s| == 1 ==> Pow256(|s| - 1) == 1 && FromBigEndian(s[..|s| - 1]) == FromBigEndian(s[1..]) == 0
  {
  }

  lemma {:induction false} FromBigEndianHead(s: ByteString)
    requires s != []
    ensures FromBigEndian(s) == s[0] * Pow256(|s| - 1) + FromBigEndian(s[1..])
  {
    hide FromBigEndian, Pow256;
    var n := |s|;
    FromBigEndianStep(s);
    if n > 1 {
      var front := s[..n - 1];
      FromBigEndianHead(front);
      FromBigEndianStep(s[1..]);
      assert front[1..] == s[1..][..n - 2];
      assert s[0] * (256 * Pow256(n - 2)) == (s[0] * Pow256(n - 2)) * 256;
    }
  }

  /** A smaller leading digit decides the comparison whatever the rest is. */
  lemma {:induction false} LeadingDigitDecides(a: nat, b: nat, p: nat, u: nat, v: nat)
    requires a < b && u < p
    ensures a * p + u < b * p + v
    decreases b
  {
    assert b * p == (b - 1) * p + p;
    if a < b - 1 {
      LeadingDigitDecides(a, b - 1, p, u, v);
    }
  }

  /** Between strings of one length the bytewise order is the numeric order. */
  lemma {:induction false} BigEndianKeepsOrder(s: ByteString, t: ByteString)
    requires |s| == |t|
    ensures LexLess(s, t) <==> FromBigEndian(s) < FromBigEndian(t)
  {
    if s != [] {
      var p, u, v := Pow256(|s| - 1), FromBigEndian(s[1..]), FromBigEndian(t[1..]);
      FromBigEndianHead(s);
      FromBigEndianHead(t);
      if s[0] < t[0] {
        LeadingDigitDecides(s[0], t[0], p, u, v);
      } else if t[0] < s[0] {
        LeadingDigitDecides(t[0], s[0], p, v, u);
      } else {
        BigEndianKeepsOrder(s[1..], t[1..]);
      }
    }
  }

  lemma Pow256Of8()
    ensures Pow256(8) == 0x1_0000_0000_0000_0000
  {
  }
}
