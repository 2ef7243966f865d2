/** Bytes, and numbers as big-endian byte strings. */
module BigEndian {
  type byte = x: int | 0 <= x < 256

  /** The unsigned big-endian value of a byte string. */
  function Value(bs: seq<byte>): nat {
    if bs == [] then 0 else Value(bs[..|bs| - 1]) * 256 + bs[|bs| - 1]
  }

  function Power(n: nat): (p: nat)
    ensures p >= 1
  {
    if n == 0 then 1 else 256 * Power(n - 1)
  }

  lemma {:induction false} ValueConcat(b: byte, bs: seq<byte>)
    ensures Value([b] + bs) == b * Power(|bs|) + Value(bs)
  {
    if bs == [] {
      assert Value([b] + bs) == Value([]) * 256 + b;
    } else {
      var init := bs[..|bs| - 1];
      ValueConcat(b, init);
      assert ([b] + bs)[..|bs|] == [b] + init;
      assert (b * Power(|init|)) * 256 == b * Power(|bs|);
    }
  }

  lemma {:induction false} ValueBound(bs: seq<byte>)
    ensures Value(bs) < Power(|bs|)
  {
    if bs == [] {
    } else {
      ValueBound(bs[..|bs| - 1]);
    }
  }

  lemma {:induction false} PowerMonotone(m: nat, n: nat)
    requires m <= n
    ensures Power(m) <= Power(n)
  {
    if m == n {
    } else {
      PowerMonotone(m, n - 1);
    }
  }

  lemma Powers()
    ensures Power(0) == 1 && Power(1) == 0x100 && Power(2) == 0x1_0000 && Power(3) == 0x100_0000
    ensures Power(4) == 0x1_0000_0000
    ensures Power(7) == 0x100_0000_0000_0000 && Power(8) == 0x1_0000_0000_0000_0000
  {
    assert Power(4) == 256 * Power(3) && Power(3) == 256 * Power(2);
    assert Power(2) == 256 * Power(1) && Power(1) == 256 * Power(0);
    assert Power(8) == 256 * Power(7) && Power(7) == 256 * Power(6);
    assert Power(6) == 256 * Power(5) && Power(5) == 256 * Power(4);
  }

  /** The low n bytes of a number. */
  function LowBytes(v: nat, n: nat): (bs: seq<byte>)
    ensures |bs| == n
  {
    if n == 0 then [] else LowBytes(v / 256, n - 1) + [v % 256]
  }

  lemma {:induction false} LowBytesSuffix(v: nat, n: nat, k: nat)
    requires k <= n
    ensures LowBytes(v, n)[n - k..] == LowBytes(v, k)
  {
    if k == 0 {
    } else {
      LowBytesSuffix(v / 256, n - 1, k - 1);
    }
  }

  lemma ModTower(v: nat, p: nat)
    requires p > 0
    ensures v % (256 * p) == (v / 256) % p * 256 + v % 256
  {
    var q, r := (v / 256) / p, (v / 256) % p;
    assert v == 256 * (p * q + r) + v % 256;
    assert 256 * (p * q) == (256 * p) * q;
    ModUnique(v, 256 * p, q, r * 256 + v % 256);
  }

  lemma ModUnique(v: nat, m: nat, q: nat, r: nat)
    requires r < m && v == m * q + r
    ensures v % m == r
  {
    var d := v / m - q;
    Multiple(m, d);
    Multiple(m, -d);
    assert m * d == r - v % m by {
      assert m * d == m * (v / m) - m * q;
    }
  }

  lemma Multiple(m: nat, d: int)
    ensures d >= 1 ==> m * d >= m
  {
    if d >= 1 {
      assert m * d == m + m * (d - 1);
    }
  }

  /** Reading n bytes back gives the number modulo 256 to the n. */
  lemma {:induction false} LowBytesValue(v: nat, n: nat)
    ensures Value(LowBytes(v, n)) == v % Power(n)
  {
    if n == 0 {
    } else {
      LowBytesValue(v / 256, n - 1);
      assert LowBytes(v, n)[..n - 1] == LowBytes(v / 256, n - 1);
      ModTower(v, Power(n - 1));
    }
  }

  lemma {:induction false} SmallMod(v: nat, n: nat)
    requires v < Power(n)
    ensures v % Power(n) == v
  {
    ModUnique(v, Power(n), 0, v);
  }
}
