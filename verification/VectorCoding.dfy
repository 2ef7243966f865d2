/** Byte strings with their length in front: TLS vectors (section 3.4 of RFC 8446), and the items of a key file. */
module VectorCoding {
  import opened BigEndian
  import opened Options

  /** A vector: its length in n bytes, then its body. */
  function Vector(body: seq<byte>, n: nat): seq<byte> {
    LowBytes(|body|, n) + body
  }

  /** What one read of a vector returns, and what it leaves unread. */
  datatype Parsed = Parsed(body: Option<seq<byte>>, rest: seq<byte>)

  function ReadVector(s: seq<byte>, n: nat): Parsed {
    if n > 4 then Parsed(None, s)
    else if n > |s| then Parsed(None, [])
    else
      var len, behind := Value(s[..n]), s[n..];
      if len > |behind| then Parsed(None, behind) else Parsed(Some(behind[..len]), behind[len..])
  }

  function Vectors(bodies: seq<seq<byte>>, n: nat): seq<byte> {
    if bodies == [] then [] else Vector(bodies[0], n) + Vectors(bodies[1..], n)
  }

  /** k reads of a vector in a row; None if one of them fails. */
  function ReadAll(s: seq<byte>, n: nat, k: nat): (r: Option<(seq<seq<byte>>, seq<byte>)>)
    ensures r.Some? ==> |r.value.0| == k
  {
    if k == 0 then Some(([], s))
    else
      var first := ReadVector(s, n);
      if first.body.None? then None
      else
        var others := ReadAll(first.rest, n, k - 1);
        if others.None? then None else Some(([first.body.value] + others.value.0, others.value.1))
  }

  /** What the first reads returned, in front of what the later ones do. */
  function Behind(bodies: seq<seq<byte>>, later: Option<(seq<seq<byte>>, seq<byte>)>)
    : Option<(seq<seq<byte>>, seq<byte>)>
  {
    if later.None? then None else Some((bodies + later.value.0, later.value.1))
  }

  lemma BehindNone(later: Option<(seq<seq<byte>>, seq<byte>)>)
    ensures Behind([], later) == later
  {
    assert later.Some? ==> [] + later.value.0 == later.value.0;
  }

  /** One of k reads. */
  lemma BehindOne(bodies: seq<seq<byte>>, s: seq<byte>, n: nat, k: nat)
    requires k > 0
    ensures var first := ReadVector(s, n);
            Behind(bodies, ReadAll(s, n, k)) ==
            if first.body.None? then None else Behind(bodies + [first.body.value], ReadAll(first.rest, n, k - 1))
  {
    var first := ReadVector(s, n);
    var later := ReadAll(first.rest, n, k - 1);
    if first.body.Some? && later.Some? {
      assert bodies + ([first.body.value] + later.value.0) == (bodies + [first.body.value]) + later.value.0;
    }
  }

  lemma BehindAll(bodies: seq<seq<byte>>, s: seq<byte>, n: nat)
    ensures Behind(bodies, ReadAll(s, n, 0)) == Some((bodies, s))
  {
    assert bodies + [] == bodies;
  }

  /**
    A vector reads back as its body, with what follows left unread, exactly if the body is shorter than 256 to the n.
    */
  lemma ReadVectorBack(body: seq<byte>, n: nat, rest: seq<byte>)
    requires n <= 4
    ensures ReadVector(Vector(body, n) + rest, n) == Parsed(Some(body), rest) <==> |body| < Power(n)
  {
    var s := Vector(body, n) + rest;
    assert s[..n] == LowBytes(|body|, n) && s[n..] == body + rest;
    LowBytesValue(|body|, n);
    if |body| < Power(n) {
      SmallMod(|body|, n);
      assert (body + rest)[..|body|] == body && (body + rest)[|body|..] == rest;
    }
  }

  /** The first of several vectors leaves the others unread. */
  lemma ReadFirst(body: seq<byte>, bodies: seq<seq<byte>>, n: nat, rest: seq<byte>)
    requires n <= 4 && |body| < Power(n)
    ensures ReadVector(Vectors([body] + bodies, n) + rest, n) == Parsed(Some(body), Vectors(bodies, n) + rest)
  {
    assert ([body] + bodies)[1..] == bodies;
    var others := Vectors(bodies, n);
    assert Vector(body, n) + others + rest == Vector(body, n) + (others + rest);
    ReadVectorBack(body, n, others + rest);
  }

  lemma ReadAllCons(s: seq<byte>, n: nat, k: nat, body: seq<byte>, behind: seq<byte>)
    requires ReadVector(s, n) == Parsed(Some(body), behind) && ReadAll(behind, n, k).Some?
    ensures var (others, rest) := ReadAll(behind, n, k).value;
            ReadAll(s, n, k + 1) == Some(([body] + others, rest))
  {
  }

  lemma {:induction false} ReadAllVectors(bodies: seq<seq<byte>>, n: nat, rest: seq<byte>)
    requires n <= 4 && forall i :: 0 <= i < |bodies| ==> |bodies[i]| < Power(n)
    ensures ReadAll(Vectors(bodies, n) + rest, n, |bodies|) == Some((bodies, rest))
    decreases |bodies|
  {
    if bodies == [] {
      assert Vectors(bodies, n) + rest == rest;
    } else {
      var body, others := bodies[0], bodies[1..];
      ReadAllVectors(others, n, rest);
      ReadFirst(body, others, n, rest);
      ReadAllCons(Vectors([body] + others, n) + rest, n, |others|, body, Vectors(others, n) + rest);
      assert [body] + others == bodies;
    }
  }
}
