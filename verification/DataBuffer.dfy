/**
  The growable byte buffer of the TLS test library (cpputil/databuffer.h, cpputil/databuffer.cc). A pointer argument is
  an array together with the offset it points to.
  */
module DataBuffer {
  import opened BigEndian
  import opened Options

  function Min(a: nat, b: nat): nat {
    if a <= b then a else b
  }

  function Zeros(n: nat): (r: seq<byte>)
    ensures |r| == n && forall i :: 0 <= i < n ==> r[i] == 0
  {
    if n == 0 then [] else Zeros(n - 1) + [0]
  }

  /** s with zeros behind it up to a length of n. */
  function ZeroPad(s: seq<byte>, n: nat): (r: seq<byte>)
    ensures |r| >= n && |r| >= |s|
  {
    if n <= |s| then s else s + Zeros(n - |s|)
  }

  /** s with v written over it from `index` on; zeros fill a gap. */
  function Overwrite(s: seq<byte>, index: nat, v: seq<byte>): (r: seq<byte>)
    decreases index
  {
    if index == 0 then v + s[Min(|v|, |s|)..]
    else if s == [] then [0] + Overwrite([], index - 1, v)
    else [s[0]] + Overwrite(s[1..], index - 1, v)
  }

  /** Every byte of the result. */
  lemma {:induction false} OverwriteByte(s: seq<byte>, index: nat, v: seq<byte>, i: nat)
    ensures var r := Overwrite(s, index, v);
            && |r| == (if index + |v| <= |s| then |s| else index + |v|)
            && (i < |r| ==> r[i] == if index <= i < index + |v| then v[i - index] else if i < |s| then s[i] else 0)
    decreases index
  {
    if index == 0 {
    } else {
      OverwriteByte(if s == [] then [] else s[1..], index - 1, v, if i == 0 then 0 else i - 1);
    }
  }

  /** Bytes that differ only where v stands. */
  lemma Patched(s: seq<byte>, r: seq<byte>, index: nat, v: seq<byte>)
    requires |r| == |s| && index + |v| <= |s|
    requires forall i :: 0 <= i < |r| ==> r[i] == if index <= i < index + |v| then v[i - index] else s[i]
    ensures r == s[..index] + v + s[index + |v|..]
  {
  }

  /** The same: s is padded to take v, and then overwritten with it. */
  lemma OverwritePads(s: seq<byte>, index: nat, v: seq<byte>)
    ensures var p := ZeroPad(s, index + |v|);
            Overwrite(s, index, v) == p[..index] + v + p[index + |v|..]
  {
    var r, p := Overwrite(s, index, v), ZeroPad(s, index + |v|);
    OverwriteByte(s, index, v, 0);
    forall i | 0 <= i < |r| ensures r[i] == if index <= i < index + |v| then v[i - index] else p[i] {
      OverwriteByte(s, index, v, i);
    }
    Patched(p, r, index, v);
  }

  /** Writing at the end appends. */
  lemma OverwriteEnd(s: seq<byte>, v: seq<byte>)
    ensures Overwrite(s, |s|, v) == s + v
  {
    OverwritePads(s, |s|, v);
  }

  /** What is written can be read back, and nothing before it changes. */
  lemma OverwriteAt(s: seq<byte>, index: nat, v: seq<byte>)
    ensures var r := Overwrite(s, index, v);
            && |r| == (if index + |v| <= |s| then |s| else index + |v|)
            && r[index..index + |v|] == v
            && r[..Min(index, |s|)] == s[..Min(index, |s|)]
  {
    OverwritePads(s, index, v);
  }

  /** A number that is written as n bytes reads back modulo 256 to the n. */
  lemma WriteReadInt(s: seq<byte>, index: nat, val: nat, n: nat)
    ensures var r := Overwrite(s, index, LowBytes(val, n));
            index + n <= |r| && Value(r[index..index + n]) == val % Power(n)
  {
    OverwriteAt(s, index, LowBytes(val, n));
    LowBytesValue(val, n);
  }

  lemma OverwriteInside(s: seq<byte>, index: nat, v: seq<byte>)
    requires index + |v| <= |s|
    ensures var r := Overwrite(s, index, v);
            |r| == |s| && r[..index + |v|] == s[..index] + v
  {
    OverwritePads(s, index, v);
  }

  /** What Splice makes of a buffer: the head, the new bytes, and the tail behind the removed ones. */
  function Spliced(s: seq<byte>, v: seq<byte>, index: nat, remove: nat): seq<byte>
    requires index <= |s|
  {
    s[..index] + v + s[Min(|s|, index + remove)..]
  }

  /** Splicing the removed bytes back in undoes a Splice. */
  lemma SpliceBack(s: seq<byte>, v: seq<byte>, index: nat, remove: nat)
    requires index <= |s|
    ensures Spliced(Spliced(s, v, index, remove), s[index..Min(|s|, index + remove)], index, |v|) == s
  {
    var t := Spliced(s, v, index, remove);
    assert t[..index] == s[..index];
    assert t[index + |v|..] == s[Min(|s|, index + remove)..];
  }

  class DataBuffer {
    var data: array?<byte>
    var len: nat

    ghost predicate Valid()
      reads this
    {
      if data == null then len == 0 else len <= data.Length
    }

    ghost function Contents(): (r: seq<byte>)
      requires Valid()
      reads this, data
      ensures |r| == len
    {
      if data == null then [] else data[..len]
    }

    constructor ()
      ensures Valid() && data == null && Contents() == []
    {
      data, len := null, 0;
    }

    method Allocate(l: nat)
      modifies this
      ensures Valid() && data != null && fresh(data) && Contents() == Zeros(l)
    {
      data := new byte[if l == 0 then 1 else l](_ => 0);
      len := l;
    }

    method Truncate(l: nat)
      requires Valid()
      modifies this`len
      ensures Valid() && Contents() == old(Contents())[..Min(old(len), l)]
    {
      len := Min(len, l);
    }

    /** Takes a copy of l bytes. */
    method Assign(d: array?<byte>, from: nat, l: nat)
      requires if d == null then l == 0 else from + l <= d.Length && d != data
      modifies this
      ensures Valid() && (data == null || fresh(data))
      ensures Contents() == if d == null then [] else d[from..from + l]
    {
      if d != null {
        Allocate(l);
        forall i | 0 <= i < l {
          data[i] := d[from + i];
        }
        assert data[..len] == d[from..from + l];
      } else {
        data, len := null, 0;
      }
    }

    /** Gives the buffer room for n bytes, with zeros from its end up to `index`. */
    method Grow(index: nat, n: nat)
      requires Valid() && len < n && index <= n
      modifies this
      ensures Valid() && data != null && fresh(data) && data.Length == len == n
      ensures Contents()[..index] == ZeroPad(old(Contents()), n)[..index]
    {
      ghost var was := Contents();
      var tmp := new byte[n];
      if data != null {
        forall i | 0 <= i < len {
          tmp[i] := data[i];
        }
      }
      if index > len {
        forall i | len <= i < index {
          tmp[i] := 0;
        }
      }
      data, len := tmp, n;
      assert data[..index] == ZeroPad(was, n)[..index];
      assert Contents()[..index] == data[..index];
    }

    /** Copies bytes over bytes of the buffer. */
    method Put(index: nat, val: array<byte>, from: nat, count: nat)
      requires Valid() && from + count <= val.Length && index + count <= len
      requires val == data ==> from + count <= index || index + count <= from
      modifies data
      ensures Contents() == old(Contents()[..index]) + old(val[from..from + count]) + old(Contents()[index + count..])
    {
      ghost var s, v := Contents(), val[from..from + count];
      if data != null {
        forall i | 0 <= i < count {
          data[index + i] := val[from + i];
        }
      }
      Patched(s, Contents(), index, v);
    }

    /**
      Copies bytes into the buffer, which grows if it has to. Its own bytes can be copied as long as it need not grow.
      */
    method Write(index: nat, val: array<byte>, from: nat, count: nat) returns (end: nat)
      requires Valid() && from + count <= val.Length
      requires val == data ==> index + count <= len && (from + count <= index || index + count <= from)
      modifies this, data
      ensures Valid() && end == index + count
      ensures Contents() == Overwrite(old(Contents()), index, old(val[from..from + count]))
      ensures if end <= old(len) then unchanged(this) else fresh(data)
    {
      ghost var p := ZeroPad(Contents(), index + count);
      OverwritePads(Contents(), index, val[from..from + count]);
      if index + count > len {
        Grow(index, index + count);
      }
      assert Contents()[..index] == p[..index];
      assert Contents()[index + count..] == p[index + count..];
      Put(index, val, from, count);
      end := index + count;
    }

    /** Writes the low `count` bytes of a 32-bit number, the most significant one first. */
    method WriteInt(index: nat, val: nat, count: nat) returns (end: nat)
      requires Valid() && count <= 4 && val < 0x1_0000_0000
      modifies this, data
      ensures Valid() && end == index + count
      ensures Contents() == Overwrite(old(Contents()), index, LowBytes(val, count))
      ensures if end <= old(len) then unchanged(this) else fresh(data)
    {
      var nvalue := NetworkOrder(val);
      LowBytesSuffix(val, 4, count);
      assert nvalue[4 - count..4 - count + count] == nvalue[..][4 - count..];
      end := Write(index, nvalue, 4 - count, count);
    }

    /** A write of the bytes v that fits does not move the buffer; `done` is what stands before it. */
    method WriteInside(index: nat, val: array<byte>, from: nat, count: nat, ghost done: seq<byte>, ghost v: seq<byte>)
      requires Valid() && from + count <= val.Length && val != data && index + count <= len
      requires Contents()[..index] == done && val[from..from + count] == v
      modifies this, data
      ensures unchanged(this) && Contents()[..index + count] == done + v
    {
      ghost var s := Contents();
      var _ := Write(index, val, from, count);
      OverwriteInside(s, index, v);
    }

    /** Fills the new array of a Splice: head, new bytes and tail. */
    method Fill(oldValue: array?<byte>, ins: array<byte>, from: nat, insLen: nat, index: nat, tailFrom: nat,
        tailLen: nat, ghost head: seq<byte>, ghost v: seq<byte>, ghost tail: seq<byte>)
      requires Valid() && data != null && data != oldValue && data != ins && len == index + insLen + tailLen
      requires from + insLen <= ins.Length && ins[from..from + insLen] == v
      requires if oldValue == null then index == 0 && head == []
               else index <= oldValue.Length && oldValue[..index] == head
      requires if tailLen == 0 then tail == []
               else
                 && oldValue != null && tailFrom + tailLen <= oldValue.Length
                 && oldValue[tailFrom..tailFrom + tailLen] == tail
      modifies this, data
      ensures unchanged(this) && Contents() == head + v + tail
    {
      if oldValue != null {
        WriteInside(0, oldValue, 0, index, [], head);
      }
      WriteInside(index, ins, from, insLen, head, v);
      if tailLen > 0 {
        WriteInside(index + insLen, oldValue, tailFrom, tailLen, head + v, tail);
      }
      assert Contents() == Contents()[..len];
    }

    /** Replaces `remove` bytes at `index`; the new bytes may be the buffer's own. */
    method Splice(ins: array<byte>, from: nat, insLen: nat, index: nat, remove: nat)
      requires Valid() && index <= len && from + insLen <= ins.Length
      modifies this
      ensures Valid() && data != null && fresh(data) && data.Length == (if len == 0 then 1 else len)
      ensures Contents() == Spliced(old(Contents()), ins[from..from + insLen], index, remove)
    {
      var oldValue, oldLen := data, len;
      var tailLen := oldLen - Min(oldLen, index + remove);
      ghost var head, v, tail := Contents()[..index], ins[from..from + insLen], Contents()[oldLen - tailLen..];
      len := index + insLen + tailLen;
      data := new byte[if len == 0 then 1 else len];
      Fill(oldValue, ins, from, insLen, Min(oldLen, index), index + remove, tailLen, head, v, tail);
    }

    /** Adds the contents of a buffer, which may be this one. */
    method Append(buf: DataBuffer)
      requires Valid() && buf.Valid() && buf.data != null
      modifies this
      ensures Valid() && data != null && fresh(data)
      ensures Contents() == old(Contents()) + old(buf.Contents())
    {
      ghost var s := Contents();
      Splice(buf.data, 0, buf.len, len, 0);
      assert s[|s|..] == [];
    }

    /** Reads a big-endian number of at most eight bytes, if the buffer has them. */
    method Read(index: nat, count: nat) returns (r: Option<nat>)
      requires Valid() && count <= 8
      ensures r == if index + count <= len then Some(Value(Contents()[index..index + count])) else None
    {
      if index > len || count > len - index {
        return None;
      }
      var val: nat := 0;
      for i := 0 to count
        invariant val == Value(Contents()[index..][..i])
      {
        ShiftIn(Contents()[index..], i, 8);
        Powers();
        val := val * 256 % 0x1_0000_0000_0000_0000 + data[index + i];
      }
      assert Contents()[index..][..count] == Contents()[index..index + count];
      r := Some(val);
    }
  }

  /** The bytes of htonl(val). */
  method NetworkOrder(val: nat) returns (a: array<byte>)
    ensures fresh(a) && a.Length == 4 && a[..] == LowBytes(val, 4)
  {
    var bytes := LowBytes(val, 4);
    a := new byte[4](i requires 0 <= i < 4 => bytes[i]);
  }

  /** One more byte of a number that is built up in a word of n bytes: the shift loses nothing. */
  lemma ShiftIn(s: seq<byte>, i: nat, n: nat)
    requires i < |s| && i < n
    ensures Value(s[..i + 1]) == Value(s[..i]) * 256 % Power(n) + s[i]
  {
    assert s[..i + 1][..i] == s[..i];
    ValueBound(s[..i]);
    PowerMonotone(i + 1, n);
    SmallMod(Value(s[..i]) * 256, n);
  }

  /** The comparison of two buffers. */
  method Equal(a: DataBuffer, b: DataBuffer) returns (r: bool)
    requires a.Valid() && b.Valid()
    ensures r <==> a.Contents() == b.Contents()
  {
    if a.len == 0 && b.len == 0 {
      return true;
    }
    if a.len != b.len {
      return false;
    }
    var i := 0;
    while i < a.len && a.data[i] == b.data[i]
      invariant 0 <= i <= a.len && a.Contents()[..i] == b.Contents()[..i]
    {
      i := i + 1;
    }
    r := i == a.len;
    assert i < a.len ==> a.Contents()[i] != b.Contents()[i];
  }
}
