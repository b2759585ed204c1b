/** Byte strings as numbers, in both byte orders. */
module Bytes {
  import opened Words

  const ZERO32: seq<byte> := [
    0, 0, 0, 0, 0, 0, 0, 0, 0, 0, 0, 0, 0, 0, 0, 0,
    0, 0, 0, 0, 0, 0, 0, 0, 0, 0, 0, 0, 0, 0, 0, 0]

  type Bytes32 = s: seq<byte> | |s| == 32 witness ZERO32

  /** A string with data in place of what stood at an offset. */
  function Spliced(s: seq<byte>, at: nat, data: seq<byte>): (r: seq<byte>)
    requires at + |data| <= |s|
    ensures |r| == |s|
  {
    s[..at] + data + s[at + |data|..]
  }

  function FromBE(s: seq<byte>): nat {
    if |s| == 0 then 0 else 256 * FromBE(s[..|s| - 1]) + s[|s| - 1]
  }

  function ToBE(x: nat, n: nat): (s: seq<byte>)
    ensures |s| == n
  {
    if n == 0 then [] else ToBE(x / 256, n - 1) + [x % 256]
  }

  function FromLE(s: seq<byte>): nat {
    if |s| == 0 then 0 else s[0] + 256 * FromLE(s[1..])
  }

  function ToLE(x: nat, n: nat): (s: seq<byte>)
    ensures |s| == n
  {
    if n == 0 then [] else [x % 256] + ToLE(x / 256, n - 1)
  }

  /** Eight bits at once. */
  lemma Shl8(x: nat, q: nat)
    ensures Shl(x, q + 8) == 256 * Shl(x, q)
    ensures Pow2(q + 8) == 256 * Pow2(q)
    ensures Low(x, q + 8) == x % 256 + 256 * Low(x / 256, q)
    ensures Shr(x, q + 8) == Shr(x / 256, q)
  {
    hide *;
    Shl4(x, q + 4);
    Shl4(x, q);
    Shr4(x, q + 4);
    Shr4(x / 16, q);
    SixteenTwice(x);
  }

  lemma SixteenTwice(x: nat)
    ensures x / 16 / 16 == x / 256 && x % 16 + 16 * (x / 16 % 16) == x % 256
  {
  }

  lemma Shl4(x: nat, q: nat)
    ensures Shl(x, q + 4) == 16 * Shl(x, q) && Pow2(q + 4) == 16 * Pow2(q)
  {
    assert Shl(x, q + 4) == 2 * Shl(x, q + 3) == 4 * Shl(x, q + 2);
    assert Shl(x, q + 2) == 2 * Shl(x, q + 1) == 4 * Shl(x, q);
    assert Pow2(q + 4) == 2 * Pow2(q + 3) == 4 * Pow2(q + 2);
    assert Pow2(q + 2) == 2 * Pow2(q + 1) == 4 * Pow2(q);
  }

  lemma Shr4(x: nat, q: nat)
    ensures Low(x, q + 4) == x % 16 + 16 * Low(x / 16, q)
    ensures Shr(x, q + 4) == Shr(x / 16, q)
  {
    var a, b, c := x / 2, x / 4, x / 8;
    assert a / 2 == b && b / 2 == c && c / 2 == x / 16;
    assert Low(x, q + 4) == x % 2 + 2 * Low(a, q + 3);
    assert Low(a, q + 3) == a % 2 + 2 * Low(b, q + 2);
    assert Low(b, q + 2) == b % 2 + 2 * Low(c, q + 1);
    assert Low(c, q + 1) == c % 2 + 2 * Low(x / 16, q);
    assert Shr(x, q + 4) == Shr(a, q + 3) == Shr(b, q + 2) == Shr(c, q + 1);
  }

  lemma {:induction false} FromBEBound(s: seq<byte>)
    ensures FromBE(s) < Pow2(8 * |s|)
  {
    if |s| > 0 {
      FromBEBound(s[..|s| - 1]);
      Shl8(0, 8 * (|s| - 1));
    }
  }

  lemma {:induction false} FromLEBound(s: seq<byte>)
    ensures FromLE(s) < Pow2(8 * |s|)
  {
    if |s| > 0 {
      FromLEBound(s[1..]);
      Shl8(0, 8 * (|s| - 1));
    }
  }

  /** Concatenation puts the left string in the high digits. */
  lemma {:induction false} FromBEConcat(a: seq<byte>, b: seq<byte>)
    ensures FromBE(a + b) == Shl(FromBE(a), 8 * |b|) + FromBE(b)
    decreases |b|
  {
    if |b| == 0 {
      assert a + b == a;
    } else {
      var b' := b[..|b| - 1];
      assert (a + b)[..|a + b| - 1] == a + b';
      FromBEConcat(a, b');
      Shl8(FromBE(a), 8 * |b'|);
    }
  }

  lemma {:induction false} BERoundTrip(s: seq<byte>)
    ensures ToBE(FromBE(s), |s|) == s
  {
    if |s| > 0 {
      var n := |s| - 1;
      var high, low := FromBE(s[..n]), s[n];
      BERoundTrip(s[..n]);
      hide *;
      FromBEStep(s);
      ToBEStep(high, low, n);
      assert s == s[..n] + [low];
    }
  }

  lemma FromBEStep(s: seq<byte>)
    requires |s| > 0
    ensures FromBE(s) == 256 * FromBE(s[..|s| - 1]) + s[|s| - 1]
  {
  }

  lemma ToBEStep(x: nat, b: byte, n: nat)
    ensures ToBE(256 * x + b, n + 1) == ToBE(x, n) + [b]
  {
    assert (256 * x + b) / 256 == x && (256 * x + b) % 256 == b;
  }

  lemma {:induction false} BEValue(x: nat, n: nat)
    ensures FromBE(ToBE(x, n)) == Low(x, 8 * n)
    decreases n
  {
    if n > 0 {
      BEValue(x / 256, n - 1);
      Shl8(x, 8 * (n - 1));
      var s := ToBE(x, n);
      assert s[..n - 1] == ToBE(x / 256, n - 1);
    }
  }

  /** Numbers that fit survive the trip through n big-endian bytes. */
  lemma BEFits(x: nat, n: nat)
    requires x < Pow2(8 * n)
    ensures FromBE(ToBE(x, n)) == x
  {
    BEValue(x, n);
    LowSmall(x, 8 * n);
  }

  /** Two strings of one length with the same value are the same string. */
  lemma BEInjective(a: seq<byte>, b: seq<byte>)
    requires |a| == |b| && FromBE(a) == FromBE(b)
    ensures a == b
  {
    BERoundTrip(a);
    BERoundTrip(b);
  }

  /** The k low bytes of a little-endian number are a prefix of its bytes. */
  lemma {:induction false} ToLEPrefix(x: nat, k: nat, n: nat)
    requires k <= n
    ensures ToLE(x, n)[..k] == ToLE(x, k)
    ensures ToLE(x, n)[k..] == ToLE(Shr(x, 8 * k), n - k)
    decreases k
  {
    if k > 0 {
      ToLEPrefix(x / 256, k - 1, n - 1);
      Shl8(x, 8 * (k - 1));
      assert ToLE(x, n)[..k] == [x % 256] + ToLE(x / 256, n - 1)[..k - 1];
      assert ToLE(x, n)[k..] == ToLE(x / 256, n - 1)[k - 1..];
    }
  }

  lemma {:induction false} ToLEAt(x: nat, n: nat, k: nat)
    requires k < n
    ensures ToLE(x, n)[k] == Shr(x, 8 * k) % 256
  {
    ToLEPrefix(x, k, n);
    assert ToLE(x, n)[k] == ToLE(x, n)[k..][0];
  }
}
