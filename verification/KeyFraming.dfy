/**
  Key files of the cryptographic test driver (cmd/bltest/blapitest.c): every item of a key is a byte string with its
  length in four bytes in front of it.
  */
module KeyFraming {
  import opened BigEndian
  import opened Options
  import opened VectorCoding

  const INT_LIMIT: nat := 0x8000_0000

  function LengthBytes(len: nat): seq<byte> {
    [len / 0x100_0000 % 256, len / 0x1_0000 % 256, len / 0x100 % 256, len % 256]
  }

  lemma LengthIsLowBytes(len: nat)
    ensures LengthBytes(len) == LowBytes(len, 4)
  {
    var a := len / 256;
    var b := a / 256;
    var c := b / 256;
    assert LowBytes(c, 1) == LowBytes(c / 256, 0) + [c % 256] == [c % 256];
    assert LowBytes(b, 2) == LowBytes(c, 1) + [b % 256];
    assert LowBytes(a, 3) == LowBytes(b, 2) + [a % 256];
    assert LowBytes(len, 4) == LowBytes(a, 3) + [len % 256];
    assert b == len / 0x1_0000 && c == len / 0x100_0000;
  }

  lemma {:induction false} VectorsSnoc(items: seq<seq<byte>>, item: seq<byte>, n: nat)
    ensures Vectors(items + [item], n) == Vectors(items, n) + Vector(item, n)
    decreases |items|
  {
    if items == [] {
      assert Vectors(items + [item], n) == Vector(item, n) + Vectors((items + [item])[1..], n);
    } else {
      assert (items + [item])[1..] == items[1..] + [item];
      VectorsSnoc(items[1..], item, n);
    }
  }

  /** Writes the first ni items; `out` is what the base64 encoder is given. */
  method SerializeKey(it: array<seq<byte>>, ni: nat) returns (out: seq<byte>)
    requires ni <= it.Length
    ensures out == Vectors(it[..ni], 4)
  {
    out := [];
    for i := 0 to ni
      invariant out == Vectors(it[..i], 4)
    {
      LengthIsLowBytes(|it[i]|);
      VectorsSnoc(it[..i], it[i], 4);
      assert it[..i] + [it[i]] == it[..i + 1];
      out := out + LengthBytes(|it[i]|);
      out := out + it[i];
    }
  }

  /** The file holds ni items whose lengths are not negative as an int. */
  ghost predicate Readable(s: seq<byte>, ni: nat) {
    ReadAll(s, 4, ni).Some? && forall b :: b in Items(s, ni) ==> |b| < INT_LIMIT
  }

  ghost function Items(s: seq<byte>, ni: nat): (r: seq<seq<byte>>)
    requires ReadAll(s, 4, ni).Some?
    ensures |r| == ni
  {
    ReadAll(s, 4, ni).value.0
  }

  /** The first item, and the items behind it. */
  lemma ItemsStep(s: seq<byte>, k: nat)
    requires k > 0 && ReadAll(s, 4, k).Some?
    ensures var items := Items(s, k);
            && items != [] && 4 + |items[0]| <= |s|
            && Value(s[..4]) == |items[0]| && s[4..4 + |items[0]|] == items[0]
            && ReadAll(s[4 + |items[0]|..], 4, k - 1).Some? && Items(s[4 + |items[0]|..], k - 1) == items[1..]
  {
    var first := ReadVector(s, 4);
    assert first.rest == s[4 + |first.body.value|..];
  }

  lemma ValueOfFour(s: seq<byte>)
    requires |s| == 4
    ensures Value(s) == s[0] as int * 0x100_0000 + s[1] as int * 0x1_0000 + s[2] as int * 0x100 + s[3]
  {
    var three := s[..3];
    var two := three[..2];
    var one := two[..1];
    assert one[..0] == [] && Value(one) == s[0];
    assert Value(two) == Value(one) * 256 + s[1];
    assert Value(three) == Value(two) * 256 + s[2];
  }

  /** A 32-bit word as an int. */
  function Signed(word: nat): int {
    if word < INT_LIMIT then word else word - 0x1_0000_0000
  }

  /** Reads the four bytes of a length into an int. */
  method ReadLength(buf: array<byte>, fpos: nat) returns (len: int)
    requires fpos + 4 <= buf.Length
    ensures len == Signed(Value(buf[..][fpos..][..4]))
  {
    len := Signed(buf[fpos] as int * 0x100_0000);
    len := len + buf[fpos + 1] as int * 0x1_0000;
    len := len + buf[fpos + 2] as int * 0x100;
    len := len + buf[fpos + 3];
    ValueOfFour(buf[..][fpos..][..4]);
  }

  /** The items of `left`, and nothing else, are still to be read from fpos on. */
  ghost predicate Holds(s: seq<byte>, fpos: nat, left: seq<seq<byte>>) {
    fpos <= |s| && ReadAll(s[fpos..], 4, |left|).Some? && Items(s[fpos..], |left|) == left
  }

  /** Reads the item at fpos. */
  lemma SliceOfSlice(s: seq<byte>, from: nat, i: nat, n: nat)
    requires from + i + n <= |s|
    ensures s[from..][i..i + n] == s[from + i..from + i + n] && s[from..][i + n..] == s[from + i + n..]
  {
  }

  lemma HoldsStep(s: seq<byte>, fpos: nat, left: seq<seq<byte>>)
    requires left != [] && Holds(s, fpos, left)
    ensures var next := fpos + 4 + |left[0]|;
            && next <= |s| && Value(s[fpos..][..4]) == |left[0]|
            && s[fpos + 4..next] == left[0] && Holds(s, next, left[1..])
  {
    ItemsStep(s[fpos..], |left|);
    SliceOfSlice(s, fpos, 4, |left[0]|);
  }

  method ReadItem(buf: array<byte>, fpos: nat, ghost left: seq<seq<byte>>) returns (item: seq<byte>, next: nat)
    requires left != [] && |left[0]| < INT_LIMIT && Holds(buf[..], fpos, left)
    ensures item == left[0] && Holds(buf[..], next, left[1..])
  {
    HoldsStep(buf[..], fpos, left);
    var len := ReadLength(buf, fpos);
    next := fpos + 4;
    item := if len > 0 then buf[next..next + len] else [];
    next := next + len;
  }

  /** One turn of the loop: an item that is wanted goes to the next place. */
  method TakeItem(buf: array<byte>, fpos: nat, it: array<seq<byte>>, j: nat, wanted: bool, ghost left: seq<seq<byte>>)
    returns (fpos': nat, j': nat)
    requires left != [] && |left[0]| < INT_LIMIT && Holds(buf[..], fpos, left) && (wanted ==> j < it.Length)
    modifies it
    ensures Holds(buf[..], fpos', left[1..]) && buf[..] == old(buf[..])
    ensures j' == if wanted then j + 1 else j
    ensures forall k :: 0 <= k < it.Length ==> it[k] == if wanted && k == j then left[0] else old(it[k])
  {
    var item;
    item, fpos' := ReadItem(buf, fpos, left);
    j' := j;
    if wanted {
      it[j] := item;
      j' := j + 1;
    }
  }

  /** Reads the items from ns up to ni into consecutive places from `at` on. */
  method KeyFromFiledata(buf: array<byte>, it: array<seq<byte>>, at: nat, ns: nat, ni: nat)
    requires Readable(buf[..], ni) && ns <= ni && at + ni - ns <= it.Length
    modifies it
    ensures it[at..at + ni - ns] == Items(buf[..], ni)[ns..ni]
    ensures forall j :: 0 <= j < it.Length && !(at <= j < at + ni - ns) ==> it[j] == old(it[j])
  {
    ghost var s, items := buf[..], Items(buf[..], ni);
    var fpos: nat, j := 0, at;
    assert s[0..] == s;
    for i := 0 to ni
      invariant buf[..] == s && Holds(buf[..], fpos, items[i..])
      invariant j == at + (if ns <= i then i - ns else 0)
      invariant forall k :: at <= k < j ==> it[k] == items[ns + k - at]
      invariant forall k :: 0 <= k < it.Length && !(at <= k < at + ni - ns) ==> it[k] == old(it[k])
    {
      assert items[i] in items && items[i..][1..] == items[i + 1..];
      fpos, j := TakeItem(buf, fpos, it, j, ns <= i, items[i..]);
    }
  }

  /** The first k of n items. */
  lemma PrefixCons(item: seq<byte>, items: seq<seq<byte>>, k: nat)
    requires 0 < k <= |items| + 1
    ensures ([item] + items)[..k] == [item] + items[..k - 1]
  {
  }

  lemma {:induction false} ItemsPrefix(s: seq<byte>, k: nat, n: nat)
    requires k <= n && ReadAll(s, 4, n).Some?
    ensures ReadAll(s, 4, k).Some? && Items(s, k) == Items(s, n)[..k]
    decreases k
  {
    if k == 0 {
    } else {
      var first := ReadVector(s, 4);
      ItemsPrefix(first.rest, k - 1, n - 1);
      PrefixCons(first.body.value, Items(first.rest, n - 1), k);
    }
  }

  /** Whatever items are serialized, and whatever follows them, they can be read back. */
  lemma SerializedReads(items: seq<seq<byte>>, rest: seq<byte>)
    requires forall i :: 0 <= i < |items| ==> |items[i]| < INT_LIMIT
    ensures Readable(Vectors(items, 4) + rest, |items|) && Items(Vectors(items, 4) + rest, |items|) == items
  {
    Powers();
    ReadAllVectors(items, 4, rest);
  }

  /** Reading up to k and then from k on is the same as reading everything. */
  lemma ReadInParts(s: seq<byte>, k: nat, n: nat)
    requires k <= n && Readable(s, n)
    ensures Readable(s, k) && Items(s, k)[0..k] + Items(s, n)[k..n] == Items(s, n)
  {
    ItemsPrefix(s, k, n);
  }

  /** The three items of an EC key are read in two parts. */
  method EcKeyFromFiledata(buf: array<byte>) returns (key: array<seq<byte>>)
    requires Readable(buf[..], 3)
    ensures key[..] == Items(buf[..], 3)
  {
    key := new seq<byte>[3](_ => []);
    ReadInParts(buf[..], 1, 3);
    KeyFromFiledata(buf, key, 0, 0, 1);
    ghost var first := key[0];
    KeyFromFiledata(buf, key, 1, 1, 3);
    assert key[..] == [first] + key[1..3];
  }
}
