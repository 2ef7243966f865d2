/**
  The restart checks of the hash functions (md5_restart and its siblings in cmd/bltest/blapitest.c): the message goes
  into the hash in up to four parts, with 32-bit unsigned arithmetic.
  */
module HashRestart {
  import opened BigEndian
  import opened Sequences

  const WORD: nat := 0x1_0000_0000

  /** One update: where its bytes start and how many they are. */
  datatype Part = Part(from: nat, len: nat)

  function Quarter(n: nat): nat {
    (n + 3) % WORD / 4
  }

  function Sub(a: nat, b: nat): nat
    requires a < WORD && b < WORD
  {
    if b <= a then a - b else a + WORD - b
  }

  /** The updates from number i on, with `left` as the value of src_length. */
  function PartsFrom(i: nat, quarter: nat, left: nat): seq<Part>
    requires i <= 4 && quarter < WORD && left < WORD
    decreases 4 - i
  {
    if i == 4 || left == 0 then []
    else
      var part := Part(i * quarter % WORD, if quarter < left then quarter else left);
      [part] + PartsFrom(i + 1, quarter, Sub(left, quarter))
  }

  /** The updates that are made for a message of n bytes. */
  method Restart(n: nat) returns (parts: seq<Part>)
    requires n < WORD
    ensures parts == PartsFrom(0, Quarter(n), n)
    ensures Tiles(parts, 0, n) <==> n != 5 && n <= WORD - 4
  {
    parts := [];
    var quarter: nat, left: nat := (n + 3) % WORD / 4, n;
    var i := 0;
    while i < 4 && left > 0
      invariant 0 <= i <= 4 && left < WORD
      invariant parts + PartsFrom(i, quarter, left) == PartsFrom(0, quarter, n)
      decreases 4 - i
    {
      var part := Part(i * quarter % WORD, if quarter < left then quarter else left);
      Assoc(parts, [part], PartsFrom(i + 1, quarter, Sub(left, quarter)));
      parts := parts + [part];
      left := Sub(left, quarter);
      i := i + 1;
    }
    RestartTiles(n);
  }

  /** The parts cover the bytes from `at` up to n once each, in order. */
  predicate Tiles(parts: seq<Part>, at: nat, n: nat)
    decreases |parts|
  {
    if parts == [] then at == n else parts[0].from == at && Tiles(parts[1..], at + parts[0].len, n)
  }

  /** All parts lie within the message. */
  predicate Within(parts: seq<Part>, n: nat) {
    forall i :: 0 <= i < |parts| ==> parts[i].from + parts[i].len <= n
  }

  lemma {:induction false} TilesWithin(parts: seq<Part>, at: nat, n: nat)
    requires Tiles(parts, at, n)
    ensures at <= n && Within(parts, n)
    decreases |parts|
  {
    if parts == [] {
    } else {
      TilesWithin(parts[1..], at + parts[0].len, n);
      assert forall i :: 1 <= i < |parts| ==> parts[i] == parts[1..][i - 1];
    }
  }

  lemma TilesStep(p: Part, rest: seq<Part>, at: nat, n: nat)
    ensures Tiles([p] + rest, at, n) <==> p.from == at && Tiles(rest, at + p.len, n)
  {
    assert ([p] + rest)[1..] == rest;
  }

  // A part that is cut short by the end of the message is the last one only if it is the fourth: any other one makes
  // src_length wrap around. The lemmas go from the fourth part to the first.

  lemma TilesFrom3(q: nat, n: nat)
    requires 0 < q && 4 * q < WORD + 4 && 3 * q <= n <= 4 * q && n < WORD
    ensures Tiles(PartsFrom(3, q, n - 3 * q), 3 * q, n)
  {
    if n > 3 * q {
      TilesStep(Part(3 * q, n - 3 * q), [], 3 * q, n);
    }
  }

  lemma TilesFrom2(q: nat, n: nat)
    requires 0 < q && 4 * q < WORD + 4 && 2 * q <= n <= 4 * q && n < WORD
    ensures Tiles(PartsFrom(2, q, n - 2 * q), 2 * q, n) <==> n == 2 * q || 3 * q <= n
  {
    var left := n - 2 * q;
    if left > 0 {
      var rest := PartsFrom(3, q, Sub(left, q));
      TilesStep(Part(2 * q, if q < left then q else left), rest, 2 * q, n);
      if q <= left {
        TilesFrom3(q, n);
      } else {
        assert rest[0].from == 3 * q;
      }
    }
  }

  lemma TilesFrom1(q: nat, n: nat)
    requires 0 < q && 4 * q < WORD + 4 && q <= n <= 4 * q && n < WORD
    ensures Tiles(PartsFrom(1, q, n - q), q, n) <==> n == q || n == 2 * q || 3 * q <= n
  {
    var left := n - q;
    if left > 0 {
      var rest := PartsFrom(2, q, Sub(left, q));
      TilesStep(Part(q, if q < left then q else left), rest, q, n);
      if q <= left {
        TilesFrom2(q, n);
      } else {
        assert rest[0].from == 2 * q;
      }
    }
  }

  lemma {:induction false} ZeroParts(i: nat, n: nat)
    requires i <= 4 && 0 < n < WORD
    ensures !Tiles(PartsFrom(i, 0, n), 0, n)
    decreases 4 - i
  {
    if i == 4 {
    } else {
      ZeroParts(i + 1, n);
      TilesStep(Part(0, 0), PartsFrom(i + 1, 0, n), 0, n);
    }
  }

  lemma QuarterBounds(n: nat)
    requires 0 < n <= WORD - 4
    ensures var q := Quarter(n);
            && 0 < q <= n <= 4 * q <= n + 3
            && (n == q || n == 2 * q || 3 * q <= n <==> n != 5)
  {
    assert (n + 3) % WORD == n + 3;
  }

  /**
    The updates cover the message exactly, unless it has five bytes or its length plus three does not fit in 32 bits.
    */
  lemma RestartTiles(n: nat)
    requires n < WORD
    ensures Tiles(PartsFrom(0, Quarter(n), n), 0, n) <==> n != 5 && n <= WORD - 4
  {
    var q := Quarter(n);
    if n > WORD - 4 {
      ZeroParts(0, n);
    } else if n > 0 {
      QuarterBounds(n);
      TilesStep(Part(0, if q < n then q else n), PartsFrom(1, q, Sub(n, q)), 0, n);
      TilesFrom1(q, n);
    }
  }

  /** With five bytes the last update is made of bytes behind the message. */
  lemma FiveBytes()
    ensures PartsFrom(0, Quarter(5), 5) == [Part(0, 2), Part(2, 2), Part(4, 1), Part(6, 2)]
  {
    assert PartsFrom(3, 2, WORD - 1) == [Part(6, 2)];
    assert PartsFrom(2, 2, 1) == [Part(4, 1)] + PartsFrom(3, 2, WORD - 1);
    assert PartsFrom(1, 2, 3) == [Part(2, 2)] + PartsFrom(2, 2, 1);
  }

  // ------------------------------------------------------------------ the hash

  /** A hash that takes its message byte by byte. */
  function Fold<S>(step: (S, byte) -> S, s: S, msg: seq<byte>): S {
    if msg == [] then s else step(Fold(step, s, msg[..|msg| - 1]), msg[|msg| - 1])
  }

  /** The state after one update for every part. */
  function Feed<S>(step: (S, byte) -> S, s: S, msg: seq<byte>, parts: seq<Part>): S
    requires Within(parts, |msg|)
    decreases |parts|
  {
    if parts == [] then s
    else Feed(step, Fold(step, s, msg[parts[0].from..parts[0].from + parts[0].len]), msg, parts[1..])
  }

  lemma {:induction false} FoldConcat<S>(step: (S, byte) -> S, s: S, a: seq<byte>, b: seq<byte>)
    ensures Fold(step, s, a + b) == Fold(step, Fold(step, s, a), b)
    decreases |b|
  {
    if b == [] {
      assert a + b == a;
    } else {
      FoldConcat(step, s, a, b[..|b| - 1]);
      assert (a + b)[..|a + b| - 1] == a + b[..|b| - 1];
    }
  }

  /** Updates that tile a message hash it. */
  lemma {:induction false} FeedTiles<S>(step: (S, byte) -> S, s: S, msg: seq<byte>, parts: seq<Part>, at: nat)
    requires Tiles(parts, at, |msg|)
    ensures at <= |msg| && Within(parts, |msg|)
    ensures Feed(step, Fold(step, s, msg[..at]), msg, parts) == Fold(step, s, msg)
    decreases |parts|
  {
    TilesWithin(parts, at, |msg|);
    if parts == [] {
      assert msg[..at] == msg;
    } else {
      var next := at + parts[0].len;
      TilesWithin(parts[1..], next, |msg|);
      assert msg[..at] + msg[at..next] == msg[..next];
      FoldConcat(step, s, msg[..at], msg[at..next]);
      FeedTiles(step, s, msg, parts[1..], next);
    }
  }

  /** The hash with restarts is the hash of the message, whatever the hash is. */
  lemma RestartedHash<S>(step: (S, byte) -> S, begin: S, msg: seq<byte>)
    requires |msg| != 5 && |msg| <= WORD - 4
    ensures var parts := PartsFrom(0, Quarter(|msg|), |msg|);
            Within(parts, |msg|) && Feed(step, begin, msg, parts) == Fold(step, begin, msg)
  {
    RestartTiles(|msg|);
    FeedTiles(step, begin, msg, PartsFrom(0, Quarter(|msg|), |msg|), 0);
    assert msg[..0] == [];
  }
}
