/**
  DER contents of INTEGER values as the CRL generator uses them: SEC_ASN1EncodeInteger
  (lib/util/secasn1e.c) makes the key of a serial number, and DER_GetInteger (lib/util/dersubr.c)
  reads the serial numbers of an existing CRL. Values are 64-bit words.
  */
module DerInteger {
  import opened BigEndian

  const WORD: nat := 0x1_0000_0000_0000_0000
  const LONG_LIMIT: nat := 0x8000_0000_0000_0000

  /** The shortest unsigned big-endian byte string, of at least one byte. */
  function Bytes(v: nat): (bs: seq<byte>)
    ensures bs != []
  {
    if v < 256 then [v] else Bytes(v / 256) + [v % 256]
  }

  /** SEC_ASN1EncodeInteger: a leading zero byte keeps a non-negative long from reading as negative. */
  function Encode(v: nat): (bs: seq<byte>)
    requires v < WORD
  {
    if Bytes(v)[0] >= 128 && v < LONG_LIMIT then [0] + Bytes(v) else Bytes(v)
  }

  /** Shifts the bytes into a 64-bit word. */
  function ShiftIn(word: nat, bs: seq<byte>): (r: nat)
    requires word < WORD
    ensures r < WORD
  {
    if bs == [] then word else (ShiftIn(word, bs[..|bs| - 1]) * 256 + bs[|bs| - 1]) % WORD
  }

  function StripLeading(bs: seq<byte>, b: byte): seq<byte> {
    if bs != [] && bs[0] == b then StripLeading(bs[1..], b) else bs
  }

  /** DER_GetInteger, its long result converted to PRUint64. */
  function GetInteger(bs: seq<byte>): (v: nat)
    ensures v < WORD
  {
    if bs == [] then 0
    else
      var negative := bs[0] >= 128;
      var rest := StripLeading(bs, if negative then 255 else 0);
      if |rest| > 8 || (|rest| == 8 && (rest[0] >= 128) != negative) then
        if negative then LONG_LIMIT else LONG_LIMIT - 1
      else
        ShiftIn(if negative then WORD - 1 else 0, rest)
  }

  lemma {:induction false} ValueOfBytes(v: nat)
    ensures Value(Bytes(v)) == v
  {
    if v >= 256 {
      ValueOfBytes(v / 256);
      assert Bytes(v)[..|Bytes(v)| - 1] == Bytes(v / 256);
    } else {
      assert Value([v]) == Value([]) * 256 + v;
    }
  }

  lemma EncodeValue(v: nat)
    requires v < WORD
    ensures Value(Encode(v)) == v
  {
    ValueOfBytes(v);
    ValueConcat(0, Bytes(v));
  }

  /** Distinct 64-bit words have distinct encodings. */
  lemma EncodeInjective(v: nat, w: nat)
    requires v < WORD && w < WORD && Encode(v) == Encode(w)
    ensures v == w
  {
    EncodeValue(v);
    EncodeValue(w);
  }

  lemma {:induction false} BytesLength(v: nat, n: nat)
    requires 1 <= n && v < Power(n)
    ensures |Bytes(v)| <= n
  {
    if v < 256 {
    } else {
      assert n > 1 by {
        assert Power(1) == 256 * Power(0);
      }
      BytesLength(v / 256, n - 1);
    }
  }

  lemma ModShift(x: nat, b: byte)
    ensures (x % WORD * 256 + b) % WORD == (x * 256 + b) % WORD
  {
    var q, r := x / WORD, x % WORD;
    assert x * 256 + b == (r * 256 + b) + (q * 256) * WORD;
    ModAddMultiple(r * 256 + b, q * 256);
  }

  lemma {:induction false} ModAddMultiple(x: nat, k: nat)
    ensures (x + k * WORD) % WORD == x % WORD
  {
    if k == 0 {
    } else {
      ModAddMultiple(x, k - 1);
      assert x + k * WORD == (x + (k - 1) * WORD) + WORD;
    }
  }

  lemma Distribute(w: nat, p: nat, v: nat, b: nat)
    ensures (w * p + v) * 256 + b == w * (256 * p) + (v * 256 + b)
  {
  }

  lemma ShiftInByte(word: nat, p: nat, v: nat, b: byte, p': nat, v': nat)
    requires p' == 256 * p && v' == v * 256 + b
    ensures ((word * p + v) % WORD * 256 + b) % WORD == (word * p' + v') % WORD
  {
    ModShift(word * p + v, b);
    Distribute(word, p, v, b);
  }

  lemma ShiftInNone(word: nat, p: nat)
    requires word < WORD && p == 1
    ensures (word * p + 0) % WORD == word
  {
  }

  lemma {:induction false} ShiftInValue(word: nat, bs: seq<byte>)
    requires word < WORD
    ensures ShiftIn(word, bs) == (word * Power(|bs|) + Value(bs)) % WORD
  {
    if bs == [] {
      ShiftInNone(word, Power(|bs|));
    } else {
      var init, b := bs[..|bs| - 1], bs[|bs| - 1];
      ShiftInValue(word, init);
      assert ShiftIn(word, bs) == (ShiftIn(word, init) * 256 + b) % WORD;
      ShiftInByte(word, Power(|init|), Value(init), b, Power(|bs|), Value(bs));
    }
  }

  /** A leading 0xff does not change what is shifted into a word of ones. */
  lemma OnesAbsorbed(bs: seq<byte>)
    ensures ShiftIn(WORD - 1, [255] + bs) == ShiftIn(WORD - 1, bs)
  {
    var p := Power(|bs|);
    ShiftInValue(WORD - 1, [255] + bs);
    ShiftInValue(WORD - 1, bs);
    ValueConcat(255, bs);
    assert (WORD - 1) * Power(|[255] + bs|) == (WORD - 1) * (256 * p);
    assert (WORD - 1) * (256 * p) + 255 * p == (WORD - 1) * p + (255 * p) * WORD;
    ModAddMultiple((WORD - 1) * p + Value(bs), 255 * p);
  }

  lemma {:induction false} StripOnes(bs: seq<byte>)
    ensures ShiftIn(WORD - 1, StripLeading(bs, 255)) == ShiftIn(WORD - 1, bs)
    ensures |StripLeading(bs, 255)| <= |bs| && (|StripLeading(bs, 255)| == |bs| ==> StripLeading(bs, 255) == bs)
  {
    if bs == [] || bs[0] != 255 {
    } else {
      StripOnes(bs[1..]);
      OnesAbsorbed(bs[1..]);
      assert bs == [255] + bs[1..];
    }
  }

  lemma Bounds(b: nat, p: nat, t: nat)
    requires t < p
    ensures b * p <= b * p + t < (b + 1) * p
  {
  }

  /** The first byte of the shortest encoding bounds the value. */
  lemma FirstByte(v: nat)
    ensures var bs := Bytes(v);
            bs[0] * Power(|bs| - 1) <= v < (bs[0] + 1) * Power(|bs| - 1)
  {
    var bs := Bytes(v);
    ValueOfBytes(v);
    assert bs == [bs[0]] + bs[1..];
    ValueConcat(bs[0], bs[1..]);
    ValueBound(bs[1..]);
    Bounds(bs[0], Power(|bs| - 1), Value(bs[1..]));
  }

  lemma {:induction false} FirstByteNonZero(v: nat)
    ensures v > 0 ==> Bytes(v)[0] > 0
  {
    if v < 256 {
    } else {
      FirstByteNonZero(v / 256);
    }
  }

  /** Eight bytes are needed exactly from 2^56 on, and their top bit is set exactly from 2^63 on. */
  lemma EightBytes(v: nat)
    requires v < WORD
    ensures |Bytes(v)| <= 8
    ensures |Bytes(v)| == 8 ==> (Bytes(v)[0] >= 128 <==> v >= LONG_LIMIT)
    ensures v >= LONG_LIMIT ==> |Bytes(v)| == 8
  {
    var bs := Bytes(v);
    Powers();
    BytesLength(v, 8);
    ValueOfBytes(v);
    ValueBound(bs);
    if |bs| == 8 {
      FirstByte(v);
    } else {
      PowerMonotone(|bs|, 7);
    }
  }

  lemma DecodeZero()
    ensures GetInteger(Encode(0)) == 0
  {
    assert Encode(0) == [0] && StripLeading([0], 0) == StripLeading([0][1..], 0) == [];
  }

  /** A leading zero byte is stripped and no other byte is. */
  lemma StripZero(v: nat)
    requires 0 < v < LONG_LIMIT
    ensures Encode(v)[0] < 128 && StripLeading(Encode(v), 0) == Bytes(v)
  {
    var bs := Bytes(v);
    FirstByteNonZero(v);
    assert StripLeading(bs, 0) == bs && ([0] + bs)[1..] == bs;
  }

  lemma DecodeNonNegative(v: nat)
    requires v < LONG_LIMIT
    ensures GetInteger(Encode(v)) == v
  {
    if v == 0 {
      DecodeZero();
    } else {
      StripZero(v);
      EightBytes(v);
      ValueOfBytes(v);
      ShiftInValue(0, Bytes(v));
    }
  }

  lemma ShiftInNegative(v: nat)
    requires v < WORD && |Bytes(v)| == 8
    ensures ShiftIn(WORD - 1, Bytes(v)) == v
  {
    Powers();
    ValueOfBytes(v);
    ShiftInValue(WORD - 1, Bytes(v));
    ModAddMultiple(v, WORD - 1);
  }

  lemma DecodeNegative(v: nat)
    requires LONG_LIMIT <= v < WORD
    ensures GetInteger(Encode(v)) == v
  {
    EightBytes(v);
    StripOnes(Bytes(v));
    ShiftInNegative(v);
  }

  /** DER_GetInteger undoes SEC_ASN1EncodeInteger on every 64-bit word. */
  lemma DecodeEncode(v: nat)
    requires v < WORD
    ensures GetInteger(Encode(v)) == v
  {
    if v < LONG_LIMIT {
      DecodeNonNegative(v);
    } else {
      DecodeNegative(v);
    }
  }
}
