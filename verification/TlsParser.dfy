/**
  TLS vectors (section 3.4 of RFC 8446) as the test library writes and parses them (cpputil/tls_parser.h,
  cpputil/tls_parser.cc).
  */
module TlsParser {
  import opened BigEndian
  import opened DataBuffer
  import opened VectorCoding
  import opened Options
  import opened Sequences

  // ------------------------------------------------------------------ what is written

  /** The contents of a buffer after a body is written as a vector at `index`. */
  function PutVector(s: seq<byte>, index: nat, body: seq<byte>, n: nat): seq<byte> {
    Overwrite(Overwrite(s, index, LowBytes(|body| % 0x1_0000_0000, n)), index + n, body)
  }

  /** The contents of a buffer after the bodies are written as vectors, one behind the other from `index` on. */
  function WriteAll(s: seq<byte>, index: nat, bodies: seq<seq<byte>>, n: nat): seq<byte>
    decreases |bodies|
  {
    if bodies == [] then s
    else WriteAll(PutVector(s, index, bodies[0], n), index + n + |bodies[0]|, bodies[1..], n)
  }

  lemma FitsInWord(len: nat, n: nat)
    requires n <= 4 && len < Power(n)
    ensures len % 0x1_0000_0000 == len
  {
    Powers();
    PowerMonotone(n, 4);
  }

  lemma PutVectorEnd(s: seq<byte>, body: seq<byte>, n: nat)
    requires n <= 4 && |body| < Power(n)
    ensures PutVector(s, |s|, body, n) == s + Vector(body, n)
  {
    FitsInWord(|body|, n);
    var len := LowBytes(|body|, n);
    OverwriteEnd(s, len);
    OverwriteEnd(s + len, body);
    Assoc(s, len, body);
  }

  /** Vectors written at the end of a buffer are appended to it. */
  lemma {:induction false} WriteAllAppends(s: seq<byte>, bodies: seq<seq<byte>>, n: nat)
    requires n <= 4 && forall i :: 0 <= i < |bodies| ==> |bodies[i]| < Power(n)
    ensures WriteAll(s, |s|, bodies, n) == s + Vectors(bodies, n)
    decreases |bodies|
  {
    if bodies != [] {
      var v := Vector(bodies[0], n);
      PutVectorEnd(s, bodies[0], n);
      WriteAllAppends(s + v, bodies[1..], n);
      Assoc(s, v, Vectors(bodies[1..], n));
    } else {
      assert s + [] == s;
    }
  }

  /** Vectors written back to back into an empty buffer are read back in order, with nothing left over. */
  lemma WriteThenRead(bodies: seq<seq<byte>>, n: nat)
    requires n <= 4 && forall i :: 0 <= i < |bodies| ==> |bodies[i]| < Power(n)
    ensures ReadAll(WriteAll([], 0, bodies, n), n, |bodies|) == Some((bodies, []))
  {
    var v := Vectors(bodies, n);
    assert WriteAll([], 0, bodies, n) == v by {
      WriteAllAppends([], bodies, n);
      assert [] + v == v;
    }
    ReadAllVectors(bodies, n, []);
    assert v + [] == v;
  }

  // ------------------------------------------------------------------ writing and parsing

  /** Writes a buffer as a vector. */
  method WriteVariable(target: DataBuffer, index: nat, buf: DataBuffer, lenSize: nat) returns (end: nat)
    requires target.Valid() && buf.Valid() && buf.data != null && lenSize <= 4
    requires target != buf && target.data != buf.data
    modifies target, target.data
    ensures target.Valid() && (target.data == old(target.data) || fresh(target.data))
    ensures end == index + lenSize + |old(buf.Contents())|
    ensures target.Contents() == PutVector(old(target.Contents()), index, old(buf.Contents()), lenSize)
  {
    ghost var body := buf.Contents();
    end := target.WriteInt(index, buf.len % 0x1_0000_0000, lenSize);
    assert buf.data[0..0 + buf.len] == body;
    end := target.Write(end, buf.data, 0, buf.len);
  }

  lemma ShiftInWord(s: seq<byte>, i: nat)
    requires i < |s| && i < 4
    ensures Value(s[..i + 1]) == Value(s[..i]) * 256 % 0x1_0000_0000 + s[i]
  {
    ShiftIn(s, i, 4);
    Powers();
  }

  class TlsParser {
    const buffer: DataBuffer
    var offset: nat

    ghost predicate Valid()
      reads this, buffer
    {
      buffer.Valid() && offset <= buffer.len
    }

    ghost function Rest(): (r: seq<byte>)
      requires Valid()
      reads this, buffer, buffer.data
    {
      buffer.Contents()[offset..]
    }

    constructor (data: array?<byte>, from: nat, len: nat)
      requires if data == null then len == 0 else from + len <= data.Length
      ensures Valid() && fresh(buffer) && (buffer.data == null || fresh(buffer.data)) && offset == 0
      ensures Rest() == if data == null then [] else data[from..from + len]
    {
      var copy := new DataBuffer();
      copy.Assign(data, from, len);
      buffer, offset := copy, 0;
    }

    method ReadByte() returns (r: Option<byte>)
      requires Valid()
      modifies this`offset
      ensures Valid()
      ensures r == if old(Rest()) == [] then None else Some(old(Rest())[0])
      ensures Rest() == if old(Rest()) == [] then [] else old(Rest())[1..]
    {
      if buffer.len - offset < 1 {
        return None;
      }
      r := Some(buffer.data[offset]);
      offset := offset + 1;
    }

    /** A number of at most four bytes. A read that runs out of bytes still takes those there are. */
    method ReadInt(size: nat) returns (r: Option<nat>)
      requires Valid()
      modifies this`offset
      ensures Valid()
      ensures r == if size > 4 || size > |old(Rest())| then None else Some(Value(old(Rest())[..size]))
      ensures Rest() == if size > 4 then old(Rest()) else old(Rest())[Min(size, |old(Rest())|)..]
    {
      if size > 4 {
        return None;
      }
      ghost var s := Rest();
      var v: nat := 0;
      for i := 0 to size
        invariant Valid() && i <= |s| && Rest() == s[i..] && v == Value(s[..i])
      {
        var tmp := ReadByte();
        if tmp.None? {
          return None;
        }
        ShiftInWord(s, i);
        v := v * 256 % 0x1_0000_0000 + tmp.value;
      }
      r := Some(v);
    }

    /** The next n bytes. */
    method ReadBuffer(val: DataBuffer, n: nat) returns (ok: bool)
      requires Valid() && val.Valid() && val != buffer && (val.data == null || val.data != buffer.data)
      modifies this`offset, val
      ensures Valid() && val.Valid() && (val.data == null || val.data != buffer.data)
      ensures ok == (n <= |old(Rest())|)
      ensures Rest() == if ok then old(Rest())[n..] else old(Rest())
      ensures val.Contents() == if ok then old(Rest())[..n] else old(val.Contents())
    {
      if buffer.len - offset < n {
        return false;
      }
      ghost var s := Rest();
      assert if buffer.data == null then s[..n] == [] else buffer.data[offset..offset + n] == s[..n];
      val.Assign(buffer.data, offset, n);
      assert val.Contents() == s[..n];
      offset := offset + n;
      assert Rest() == s[n..];
      ok := true;
    }

    /** n bytes from a place marked before; the position stays where it is. */
    method ReadFromMark(val: DataBuffer, n: nat, mark: nat) returns (ok: bool)
      requires Valid() && val.Valid() && val != buffer && (val.data == null || val.data != buffer.data)
      requires mark <= buffer.len
      modifies this`offset, val
      ensures Valid() && val.Valid() && offset == old(offset)
      ensures ok == (n <= |buffer.Contents()| - mark)
      ensures val.Contents() == if ok then buffer.Contents()[mark..mark + n] else old(val.Contents())
    {
      var saved := offset;
      offset := mark;
      if buffer.len - offset < n {
        offset := saved;
        return false;
      }
      ghost var s := buffer.Contents()[mark..mark + n];
      assert buffer.data != null ==> buffer.data[..buffer.len][mark..mark + n] == buffer.data[offset..offset + n];
      val.Assign(buffer.data, offset, n);
      assert val.Contents() == s;
      offset := saved;
      ok := true;
    }

    /** A vector whose length takes lenSize bytes. */
    method ReadVariable(val: DataBuffer, lenSize: nat) returns (ok: bool)
      requires Valid() && val.Valid() && val != buffer && (val.data == null || val.data != buffer.data)
      modifies this`offset, val
      ensures Valid() && val.Valid() && (val.data == null || val.data != buffer.data)
      ensures var p := ReadVector(old(Rest()), lenSize);
              && ok == p.body.Some? && Rest() == p.rest
              && val.Contents() == if ok then p.body.value else old(val.Contents())
    {
      var len := ReadInt(lenSize);
      if len.None? {
        return false;
      }
      ok := ReadBuffer(val, len.value);
    }

    method Skip(len: nat) returns (ok: bool)
      requires Valid()
      modifies this`offset
      ensures Valid() && ok == (len <= |old(Rest())|)
      ensures Rest() == if ok then old(Rest())[len..] else old(Rest())
    {
      if len > buffer.len - offset {
        return false;
      }
      offset := offset + len;
      ok := true;
    }

    /** Moves and fails as ReadVariable does. */
    method SkipVariable(lenSize: nat) returns (ok: bool)
      requires Valid()
      modifies this`offset
      ensures Valid()
      ensures ok == ReadVector(old(Rest()), lenSize).body.Some? && Rest() == ReadVector(old(Rest()), lenSize).rest
    {
      var len := ReadInt(lenSize);
      if len.None? {
        return false;
      }
      ok := Skip(len.value);
    }
  }

  // ------------------------------------------------------------------ several vectors

  /** The buffers hold the bodies, apart from the target's storage. */
  ghost predicate Hold(bufs: seq<DataBuffer>, bodies: seq<seq<byte>>, target: DataBuffer)
    reads target, bufs, set i | 0 <= i < |bufs| && bufs[i].data != null :: bufs[i].data
  {
    && |bufs| == |bodies| && target !in bufs
    && forall i :: 0 <= i < |bufs| ==>
         && bufs[i].Valid() && bufs[i].data != null && bufs[i].data != target.data
         && bufs[i].Contents() == bodies[i]
  }

  /** Writes buffers one behind the other. */
  method WriteVariables(target: DataBuffer, index: nat, bufs: seq<DataBuffer>, lenSize: nat,
      ghost bodies: seq<seq<byte>>)
    requires target.Valid() && Hold(bufs, bodies, target) && lenSize <= 4
    modifies target, target.data
    ensures target.Valid() && target.Contents() == WriteAll(old(target.Contents()), index, bodies, lenSize)
  {
    ghost var all := WriteAll(target.Contents(), index, bodies, lenSize);
    var end := index;
    assert bodies[0..] == bodies;
    for i := 0 to |bufs|
      invariant target.Valid() && (target.data == old(target.data) || fresh(target.data))
      invariant all == WriteAll(target.Contents(), end, bodies[i..], lenSize)
    {
      assert bodies[i..][1..] == bodies[i + 1..];
      assert bufs[i].Contents() == bodies[i];
      end := WriteVariable(target, end, bufs[i], lenSize);
    }
  }

  /** Reads one vector into a buffer of its own. */
  method ReadBody(parser: TlsParser, lenSize: nat) returns (r: Option<seq<byte>>)
    requires parser.Valid()
    modifies parser`offset
    ensures parser.Valid()
    ensures ReadVector(old(parser.Rest()), lenSize) == Parsed(r, parser.Rest())
  {
    var val := new DataBuffer();
    var ok := parser.ReadVariable(val, lenSize);
    r := if !ok then None else if val.data == null then Some([]) else Some(val.data[..val.len]);
  }

  /** Reads k vectors; None if one of them fails. */
  method ReadVariables(parser: TlsParser, k: nat, lenSize: nat) returns (r: Option<seq<seq<byte>>>)
    requires parser.Valid()
    modifies parser`offset
    ensures parser.Valid()
    ensures var p := ReadAll(old(parser.Rest()), lenSize, k);
            if p.None? then r == None else r == Some(p.value.0) && parser.Rest() == p.value.1
  {
    ghost var all := ReadAll(parser.Rest(), lenSize, k);
    var bodies: seq<seq<byte>> := [];
    BehindNone(all);
    for i := 0 to k
      invariant parser.Valid()
      invariant all == Behind(bodies, ReadAll(parser.Rest(), lenSize, k - i))
    {
      BehindOne(bodies, parser.Rest(), lenSize, k - i);
      var body := ReadBody(parser, lenSize);
      if body.None? {
        return None;
      }
      bodies := bodies + [body.value];
    }
    BehindAll(bodies, parser.Rest(), lenSize);
    r := Some(bodies);
  }

  /** What is written into an empty buffer, a parser of that buffer reads back, and then it is at the end. */
  method WriteAndReadBack(bufs: seq<DataBuffer>, lenSize: nat, ghost bodies: seq<seq<byte>>)
    returns (parser: TlsParser, r: Option<seq<seq<byte>>>)
    requires |bufs| == |bodies| && lenSize <= 4
    requires forall i :: 0 <= i < |bufs| ==>
      bufs[i].Valid() && bufs[i].data != null && bufs[i].Contents() == bodies[i] && |bodies[i]| < Power(lenSize)
    ensures parser.Valid() && r == Some(bodies) && parser.Rest() == []
  {
    var target := new DataBuffer();
    WriteVariables(target, 0, bufs, lenSize, bodies);
    WriteThenRead(bodies, lenSize);
    parser := new TlsParser(target.data, 0, target.len);
    r := ReadVariables(parser, |bufs|, lenSize);
  }
}
