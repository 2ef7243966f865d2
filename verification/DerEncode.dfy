/**
  The DER encoder of the test library (cpputil/der_encode.h): tag, length and contents (sections 8.1.3 and 10.1 of
  ITU-T X.690), nested.
  */
module DerEncode {
  import opened BigEndian
  import opened Options
  import opened Sequences

  /** The length octets of n; three octets hold the low 24 bits. */
  function DerLen(n: nat): seq<byte> {
    if n < 0x80 then [n]
    else if n < 0x100 then [0x81, n]
    else if n < 0x1_0000 then [0x82, n / 0x100, n % 0x100]
    else [0x83, n / 0x1_0000 % 0x100, n / 0x100 % 0x100, n % 0x100]
  }

  function Tagged(tag: byte, body: seq<byte>): (r: seq<byte>) {
    [tag] + (DerLen(|body|) + body)
  }

  method Cat(parts: seq<seq<byte>>) returns (r: seq<byte>)
    ensures r == Concat(parts)
  {
    r := [];
    for i := 0 to |parts|
      invariant r == Concat(parts[..i])
    {
      assert parts[..i + 1][..i] == parts[..i];
      r := r + parts[i];
    }
    assert parts[..|parts|] == parts;
  }

  // ------------------------------------------------------------------ reading lengths

  datatype Length = Length(value: nat, rest: seq<byte>)

  /** Length octets in the definite form, short or long, as section 8.1.3 of X.690 allows them. */
  function ReadLength(s: seq<byte>): (r: Option<Length>)
    ensures r.Some? ==> |r.value.rest| < |s|
  {
    if s == [] then None
    else if s[0] < 0x80 then Some(Length(s[0], s[1..]))
    else
      var k := s[0] as int - 0x80;
      if k == 0 || k == 0x7f || |s| < 1 + k then None
      else Some(Length(Value(s[1..1 + k]), s[1 + k..]))
  }

  lemma {:induction false} ValueInjective(a: seq<byte>, b: seq<byte>)
    requires |a| == |b| && Value(a) == Value(b)
    ensures a == b
    decreases |a|
  {
    if a == [] {
    } else {
      ValueInjective(a[..|a| - 1], b[..|b| - 1]);
      assert a == a[..|a| - 1] + [a[|a| - 1]] && b == b[..|b| - 1] + [b[|b| - 1]];
    }
  }

  lemma ValueShort(a: byte, b: byte, c: byte)
    ensures Value([a]) == a && Value([a, b]) == a as int * 0x100 + b
    ensures Value([a, b, c]) == a as int * 0x1_0000 + b as int * 0x100 + c
  {
    assert [a][..0] == [];
    assert [a, b][..1] == [a];
    assert [a, b, c][..2] == [a, b];
  }

  lemma LowThree(n: nat)
    ensures n / 0x1_0000 % 0x100 * 0x1_0000 + n / 0x100 % 0x100 * 0x100 + n % 0x100 == n % 0x100_0000
  {
    ModTower(n, 0x1_0000);
    ModTower(n / 0x100, 0x100);
    assert n / 0x100 / 0x100 == n / 0x1_0000;
  }

  /** The octets behind the first one hold the length. */
  lemma LongForm(n: nat)
    requires 0x80 <= n
    ensures Value(DerLen(n)[1..]) == if n < 0x1_0000 then n else n % 0x100_0000
  {
    var octets := DerLen(n)[1..];
    if n < 0x100 {
      assert octets == [n];
      ValueShort(n, 0, 0);
    } else if n < 0x1_0000 {
      assert octets == [n / 0x100, n % 0x100];
      ValueShort(n / 0x100, n % 0x100, 0);
    } else {
      assert octets == [n / 0x1_0000 % 0x100, n / 0x100 % 0x100, n % 0x100];
      ValueShort(n / 0x1_0000 % 0x100, n / 0x100 % 0x100, n % 0x100);
      LowThree(n);
    }
  }

  /** The value that comes back from the length octets. */
  lemma ReadLengthBack(n: nat, rest: seq<byte>)
    ensures ReadLength(DerLen(n) + rest) == Some(Length(if n < 0x1_0000 then n else n % 0x100_0000, rest))
  {
    var d := DerLen(n);
    var s := d + rest;
    assert s[0] == d[0] && s[1..|d|] == d[1..] && s[|d|..] == rest;
    if n >= 0x80 {
      LongForm(n);
      assert d[0] == 0x80 + |d[1..]|;
    }
  }

  /** As many octets in the long form hold a length in one way only. */
  lemma LongFormUnique(n: nat, e: seq<byte>)
    requires 0x80 <= n < 0x100_0000 && |e| == |DerLen(n)| && e[0] == DerLen(n)[0] && Value(e[1..]) == n
    ensures e == DerLen(n)
  {
    var d := DerLen(n);
    LongForm(n);
    ValueInjective(d[1..], e[1..]);
    assert d == [d[0]] + d[1..] && e == [e[0]] + e[1..];
  }

  /** No other length octets of n are as short. */
  lemma DerLenShortest(n: nat, e: seq<byte>)
    requires n < 0x100_0000 && ReadLength(e) == Some(Length(n, []))
    ensures |DerLen(n)| < |e| || DerLen(n) == e
  {
    if e[0] < 0x80 {
      assert e == [e[0]] + e[1..];
    } else {
      assert e[1..|e|] == e[1..];
      ValueBound(e[1..]);
      Powers();
      assert |DerLen(n)| <= |e| && e[0] == 0x80 + (|e| - 1);
      if |DerLen(n)| == |e| {
        LongFormUnique(n, e);
      }
    }
  }

  // ------------------------------------------------------------------ reading elements

  datatype Element = Element(tag: byte, body: seq<byte>, rest: seq<byte>)

  function ReadElement(s: seq<byte>): (r: Option<Element>)
    ensures r.Some? ==> |r.value.body| < |s| && |r.value.rest| < |s|
  {
    if s == [] then None
    else
      var len := ReadLength(s[1..]);
      if len.None? || len.value.value > |len.value.rest| then None
      else Some(Element(s[0], len.value.rest[..len.value.value], len.value.rest[len.value.value..]))
  }

  /** An element reads back, with what follows left over, exactly if its body is shorter than 2 to the 24. */
  lemma ReadElementBack(tag: byte, body: seq<byte>, rest: seq<byte>)
    ensures ReadElement(Tagged(tag, body) + rest) == Some(Element(tag, body, rest)) <==> |body| < 0x100_0000
  {
    var s := Tagged(tag, body) + rest;
    assert s[1..] == DerLen(|body|) + (body + rest);
    ReadLengthBack(|body|, body + rest);
    if |body| < 0x100_0000 {
      assert (body + rest)[..|body|] == body && (body + rest)[|body|..] == rest;
    }
  }

  /**
    DerTagged: the element, which can be read back whatever follows it, exactly if its body is shorter than 2 to the 24.
    */
  method DerTagged(tag: byte, body: seq<byte>) returns (r: seq<byte>)
    ensures r == Tagged(tag, body)
    ensures forall rest :: ReadElement(r + rest) == Some(Element(tag, body, rest)) <==> |body| < 0x100_0000
  {
    r := [tag];
    var len := DerLen(|body|);
    r := r + len;
    r := r + body;
    assert r == Tagged(tag, body);
    forall rest ensures ReadElement(r + rest) == Some(Element(tag, body, rest)) <==> |body| < 0x100_0000 {
      ReadElementBack(tag, body, rest);
    }
  }

  // ------------------------------------------------------------------ nested elements

  const SEQUENCE: byte := 0x30
  const CONTEXT_0: byte := 0xa0
  const OCTET_STRING: byte := 0x04
  const OID: byte := 0x06

  datatype Tree = Seq(children: Trees) | Ctx0(children: Trees) | OctetStr(bytes: seq<byte>) | OidVal(bytes: seq<byte>)

  datatype Trees = Nil | Cons(head: Tree, tail: Trees)

  function Tag(t: Tree): byte {
    match t
    case Seq(_) => SEQUENCE
    case Ctx0(_) => CONTEXT_0
    case OctetStr(_) => OCTET_STRING
    case OidVal(_) => OID
  }

  function Body(t: Tree): seq<byte>
    decreases t, 0
  {
    match t
    case Seq(ts) => EncodeAll(ts)
    case Ctx0(ts) => EncodeAll(ts)
    case OctetStr(bytes) => bytes
    case OidVal(bytes) => bytes
  }

  function Encode(t: Tree): seq<byte>
    decreases t, 1
  {
    Tagged(Tag(t), Body(t))
  }

  function EncodeAll(ts: Trees): seq<byte>
    decreases ts, 0
  {
    match ts
    case Nil => []
    case Cons(t, others) => Encode(t) + EncodeAll(others)
  }

  /** The parts that Cat is given for the contents of a constructed element. */
  function Encodings(ts: Trees): seq<seq<byte>> {
    match ts
    case Nil => []
    case Cons(t, others) => [Encode(t)] + Encodings(others)
  }

  /** Cat of the encodings is the encoding of the list. */
  lemma {:induction false} CatEncodes(ts: Trees)
    ensures Concat(Encodings(ts)) == EncodeAll(ts)
  {
    if ts.Nil? {
    } else {
      ConcatFront(Encode(ts.head), Encodings(ts.tail));
      CatEncodes(ts.tail);
    }
  }

  /** Every body is shorter than 2 to the 24. */
  predicate Fits(t: Tree) {
    |Body(t)| < 0x100_0000 && (t.Seq? || t.Ctx0? ==> AllFit(t.children))
  }

  predicate AllFit(ts: Trees) {
    ts.Cons? ==> Fits(ts.head) && AllFit(ts.tail)
  }

  function Decode(tag: byte, body: seq<byte>): Option<Tree>
    decreases |body|, 1
  {
    if tag == OCTET_STRING then Some(OctetStr(body))
    else if tag == OID then Some(OidVal(body))
    else if tag == SEQUENCE || tag == CONTEXT_0 then
      var ts := DecodeAll(body);
      if ts.None? then None else Some(if tag == SEQUENCE then Seq(ts.value) else Ctx0(ts.value))
    else None
  }

  /** The elements that a byte string consists of; None if it does not consist of elements. */
  function DecodeAll(s: seq<byte>): Option<Trees>
    decreases |s|, 0
  {
    if s == [] then Some(Nil)
    else
      var e := ReadElement(s);
      if e.None? then None
      else
        var t, ts := Decode(e.value.tag, e.value.body), DecodeAll(e.value.rest);
        if t.None? || ts.None? then None else Some(Cons(t.value, ts.value))
  }

  /** Decoding undoes encoding. */
  lemma {:induction false} DecodeEncode(t: Tree)
    requires Fits(t)
    ensures Decode(Tag(t), Body(t)) == Some(t)
    decreases t
  {
    if t.Seq? || t.Ctx0? {
      DecodeEncodeAll(t.children);
    }
  }

  lemma {:induction false} DecodeEncodeAll(ts: Trees)
    requires AllFit(ts)
    ensures DecodeAll(EncodeAll(ts)) == Some(ts)
    decreases ts
  {
    if ts.Nil? {
    } else {
      ReadElementBack(Tag(ts.head), Body(ts.head), EncodeAll(ts.tail));
      DecodeEncode(ts.head);
      DecodeEncodeAll(ts.tail);
    }
  }

  /** Lists of elements with the same encoding are the same. */
  lemma EncodeAllInjective(ts: Trees, us: Trees)
    requires AllFit(ts) && AllFit(us) && EncodeAll(ts) == EncodeAll(us)
    ensures ts == us
  {
    DecodeEncodeAll(ts);
    DecodeEncodeAll(us);
  }

  /** No encoding of an element is a proper prefix of another one's. */
  lemma PrefixFree(t: Tree, u: Tree, more: seq<byte>)
    requires Fits(t) && Fits(u) && Encode(t) + more == Encode(u)
    ensures t == u && more == []
  {
    ReadElementBack(Tag(t), Body(t), more);
    ReadElementBack(Tag(u), Body(u), []);
    assert Encode(u) + [] == Encode(u);
    DecodeEncode(t);
    DecodeEncode(u);
  }
}
