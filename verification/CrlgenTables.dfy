/**
  The tables flex generated for CRL generation scripts (cmd/crlutil/crlgen_lex.c), and the way the scanner looks a
  transition up in them: a state owns some entries of yy_nxt, marked with its number in yy_chk, and takes all others
  from its default state. States 67 to 71 are templates, which are entered with the class of a class.
  */
module CrlgenTables {
  import opened Characters
  import opened Tokenizer

  const STATES: int := 66
  const JAM: int := 66
  const CLASSES: int := 30

  // ------------------------------------------------------------------ the tables

  /** The i-th of ten entries. */
  function Pick(i: int, a: nat, b: nat, c: nat, d: nat, e: nat, f: nat, g: nat, h: nat, j: nat, k: nat): nat {
    if i < 5 then
      if i <= 0 then a else if i == 1 then b else if i == 2 then c else if i == 3 then d else e
    else
      if i == 5 then f else if i == 6 then g else if i == 7 then h else if i == 8 then j else k
  }

  /** yy_accept */
  function Accept(i: int): nat {
    if i <= 0 then 0
    else if i <= 10 then Pick(i - 1, 0, 0, 18, 16, 14, 15, 16, 11, 12, 2)
    else if i <= 20 then Pick(i - 11, 10, 9, 9, 9, 9, 9, 13, 14, 15, 11)
    else if i <= 30 then Pick(i - 21, 12, 0, 12, 2, 9, 9, 9, 9, 9, 13)
    else if i <= 40 then Pick(i - 31, 3, 4, 2, 9, 9, 9, 9, 2, 9, 9)
    else if i <= 50 then Pick(i - 41, 9, 9, 2, 2, 9, 9, 8, 9, 2, 5)
    else if i <= 60 then Pick(i - 51, 9, 6, 2, 9, 2, 9, 2, 9, 2, 7)
    else Pick(i - 61, 2, 2, 2, 2, 1, 0, 0, 0, 0, 0)
  }

  /** yy_meta */
  function Meta(i: int): nat {
    if i <= 0 then 0
    else if i <= 10 then Pick(i - 1, 1, 1, 2, 1, 3, 1, 1, 4, 5, 5)
    else if i <= 20 then Pick(i - 11, 5, 5, 5, 4, 1, 4, 4, 4, 4, 4)
    else Pick(i - 21, 4, 4, 4, 4, 4, 4, 4, 4, 4, 0)
  }

  /** yy_base */
  function Base(i: int): nat {
    if i <= 0 then 0
    else if i <= 10 then Pick(i - 1, 0, 149, 154, 205, 138, 205, 103, 0, 0, 23)
    else if i <= 20 then Pick(i - 11, 205, 29, 30, 31, 32, 33, 0, 99, 205, 0)
    else if i <= 30 then Pick(i - 21, 0, 0, 50, 55, 34, 61, 41, 63, 64, 0)
    else if i <= 40 then Pick(i - 31, 0, 0, 79, 65, 68, 86, 66, 99, 105, 88)
    else if i <= 50 then Pick(i - 41, 106, 90, 118, 76, 107, 110, 89, 125, 43, 91)
    else if i <= 60 then Pick(i - 51, 127, 128, 138, 144, 113, 129, 154, 160, 160, 130)
    else if i <= 70 then Pick(i - 61, 172, 166, 177, 144, 0, 205, 190, 192, 194, 199)
    else Pick(i - 71, 76, 0, 0, 0, 0, 0, 0, 0, 0, 0)
  }

  /** yy_def */
  function Def(i: int): nat {
    if i <= 0 then 0
    else if i <= 10 then Pick(i - 1, 66, 1, 66, 66, 66, 66, 66, 67, 68, 68)
    else if i <= 20 then Pick(i - 11, 66, 69, 69, 69, 69, 69, 70, 66, 66, 67)
    else if i <= 30 then Pick(i - 21, 68, 71, 68, 10, 69, 69, 69, 69, 69, 70)
    else if i <= 40 then Pick(i - 31, 71, 23, 10, 69, 69, 69, 69, 10, 69, 69)
    else if i <= 50 then Pick(i - 41, 69, 69, 10, 38, 69, 69, 69, 69, 38, 69)
    else if i <= 60 then Pick(i - 51, 69, 69, 38, 69, 38, 69, 38, 69, 38, 69)
    else if i <= 70 then Pick(i - 61, 38, 38, 38, 38, 68, 0, 66, 66, 66, 66)
    else Pick(i - 71, 66, 0, 0, 0, 0, 0, 0, 0, 0, 0)
  }

  /** yy_nxt */
  function Nxt(i: int): nat {
    if i <= 0 then 0
    else if i <= 10 then Pick(i - 1, 4, 5, 6, 7, 8, 4, 4, 9, 10, 10)
    else if i <= 20 then Pick(i - 11, 10, 10, 10, 9, 11, 12, 12, 12, 12, 12)
    else if i <= 30 then Pick(i - 21, 12, 13, 14, 12, 15, 12, 12, 16, 12, 22)
    else if i <= 40 then Pick(i - 31, 23, 24, 24, 24, 24, 24, 21, 21, 21, 21)
    else if i <= 50 then Pick(i - 41, 21, 21, 21, 21, 21, 21, 21, 21, 21, 28)
    else if i <= 60 then Pick(i - 51, 27, 53, 53, 53, 21, 26, 29, 32, 32, 32)
    else if i <= 70 then Pick(i - 61, 32, 32, 32, 33, 33, 33, 33, 33, 21, 35)
    else if i <= 80 then Pick(i - 71, 21, 21, 21, 21, 21, 21, 21, 21, 21, 21)
    else if i <= 90 then Pick(i - 81, 31, 21, 37, 42, 44, 36, 34, 38, 38, 38)
    else if i <= 100 then Pick(i - 91, 38, 38, 39, 21, 40, 21, 21, 21, 21, 21)
    else if i <= 110 then Pick(i - 101, 18, 21, 21, 21, 21, 19, 41, 43, 44, 44)
    else if i <= 120 then Pick(i - 111, 44, 44, 21, 21, 21, 46, 48, 21, 21, 21)
    else if i <= 130 then Pick(i - 121, 21, 57, 57, 21, 45, 47, 49, 49, 49, 49)
    else if i <= 140 then Pick(i - 131, 49, 50, 21, 51, 21, 21, 21, 21, 21, 18)
    else if i <= 150 then Pick(i - 141, 21, 21, 21, 21, 52, 54, 55, 55, 55, 55)
    else if i <= 160 then Pick(i - 151, 55, 21, 44, 66, 17, 58, 66, 21, 66, 66)
    else if i <= 170 then Pick(i - 161, 65, 56, 59, 59, 59, 59, 59, 21, 61, 61)
    else if i <= 180 then Pick(i - 171, 61, 61, 66, 21, 63, 63, 63, 63, 66, 60)
    else if i <= 190 then Pick(i - 181, 62, 62, 62, 62, 62, 64, 64, 64, 64, 64)
    else if i <= 200 then Pick(i - 191, 20, 20, 66, 20, 20, 21, 21, 25, 25, 30)
    else if i <= 210 then Pick(i - 201, 66, 30, 30, 30, 3, 66, 66, 66, 66, 66)
    else if i <= 220 then Pick(i - 211, 66, 66, 66, 66, 66, 66, 66, 66, 66, 66)
    else if i <= 230 then Pick(i - 221, 66, 66, 66, 66, 66, 66, 66, 66, 66, 66)
    else Pick(i - 231, 66, 66, 66, 66, 0, 0, 0, 0, 0, 0)
  }

  /** yy_chk */
  function Chk(i: int): nat {
    if i <= 0 then 0
    else if i <= 10 then Pick(i - 1, 1, 1, 1, 1, 1, 1, 1, 1, 1, 1)
    else if i <= 20 then Pick(i - 11, 1, 1, 1, 1, 1, 1, 1, 1, 1, 1)
    else if i <= 30 then Pick(i - 21, 1, 1, 1, 1, 1, 1, 1, 1, 1, 10)
    else if i <= 40 then Pick(i - 31, 10, 10, 10, 10, 10, 10, 12, 13, 14, 15)
    else if i <= 50 then Pick(i - 41, 16, 25, 12, 13, 14, 15, 16, 25, 27, 15)
    else if i <= 60 then Pick(i - 51, 14, 49, 49, 49, 27, 13, 16, 23, 23, 23)
    else if i <= 70 then Pick(i - 61, 23, 23, 23, 24, 24, 24, 24, 24, 26, 27)
    else if i <= 80 then Pick(i - 71, 28, 29, 34, 37, 26, 35, 28, 29, 34, 37)
    else if i <= 90 then Pick(i - 81, 71, 35, 29, 37, 44, 28, 26, 33, 33, 33)
    else if i <= 100 then Pick(i - 91, 33, 33, 34, 36, 35, 40, 47, 42, 50, 36)
    else if i <= 110 then Pick(i - 101, 18, 40, 47, 42, 50, 7, 36, 38, 38, 38)
    else if i <= 120 then Pick(i - 111, 38, 38, 39, 41, 45, 40, 42, 46, 39, 41)
    else if i <= 130 then Pick(i - 121, 45, 55, 55, 46, 39, 41, 43, 43, 43, 43)
    else if i <= 140 then Pick(i - 131, 43, 45, 48, 46, 51, 52, 56, 60, 48, 5)
    else if i <= 150 then Pick(i - 141, 51, 52, 56, 60, 48, 51, 53, 53, 53, 53)
    else if i <= 160 then Pick(i - 151, 53, 54, 64, 3, 2, 56, 0, 54, 0, 0)
    else if i <= 170 then Pick(i - 161, 64, 54, 57, 57, 57, 57, 57, 58, 59, 59)
    else if i <= 180 then Pick(i - 171, 59, 59, 0, 58, 62, 62, 62, 62, 0, 58)
    else if i <= 190 then Pick(i - 181, 61, 61, 61, 61, 61, 63, 63, 63, 63, 63)
    else if i <= 200 then Pick(i - 191, 67, 67, 0, 67, 67, 68, 68, 69, 69, 70)
    else if i <= 210 then Pick(i - 201, 0, 70, 70, 70, 66, 66, 66, 66, 66, 66)
    else if i <= 220 then Pick(i - 211, 66, 66, 66, 66, 66, 66, 66, 66, 66, 66)
    else if i <= 230 then Pick(i - 221, 66, 66, 66, 66, 66, 66, 66, 66, 66, 66)
    else Pick(i - 231, 66, 66, 66, 66, 0, 0, 0, 0, 0, 0)
  }

  /** yy_ec: the equivalence class of a character. */
  function Class(c: char): int {
    if c == NUL then 0
    else if c == '\t' || c == ' ' then 2
    else if c == '\n' then 3
    else if c == '\r' then 4
    else if c == '\"' then 5
    else if c == '#' then 6
    else if c == '-' then 7
    else if c == '.' then 8
    else if '0' <= c <= '9' then Digit(c)
    else if c == ':' || c == '|' then 14
    else if c == '=' then 15
    else if 'A' <= c <= 'Z' then if c == 'Z' then 17 else 16
    else if 'a' <= c <= 'z' then SmallLetter(c)
    else 1
  }

  function Digit(c: char): int {
    if c <= '1' then 9
    else if c == '2' then 10
    else if c == '3' then 11
    else if c <= '6' then 12
    else 13
  }

  function SmallLetter(c: char): int {
    if c == 'a' then 18
    else if c == 'd' then 19
    else if c == 'e' then 20
    else if c == 'g' then 21
    else if c == 'i' then 22
    else if c == 'n' then 23
    else if c == 'p' then 24
    else if c == 'r' then 25
    else if c == 's' then 26
    else if c == 't' then 27
    else if c == 'u' then 28
    else if c == 'x' then 29
    else 16
  }

  lemma ClassBound(c: char)
    ensures 0 <= Class(c) < CLASSES && (Class(c) == 0 <==> c == NUL)
  {
  }

  // ------------------------------------------------------------------ looking up a transition

  /** How many defaults lie before the jam state, at most. */
  function Rank(q: int): nat {
    if q == JAM then 0
    else if q > STATES then 1
    else if q == 1 || q == 10 || q == 23 then 2
    else if q == 38 then 3
    else 4
  }

  lemma DefaultRank(q: int)
    requires 1 <= q <= 71 && q != JAM
    ensures 1 <= Def(q) <= 71 && Rank(Def(q)) < Rank(q)
  {
  }

  lemma JamOwnsAll(k: int)
    requires 0 <= k < CLASSES
    ensures Chk(Base(JAM) + k) == JAM
  {
  }

  /** The class with which the default state of q is asked. */
  function Passed(q: int, k: int): int {
    if Def(q) > STATES then Meta(k) else k
  }

  function Lookup(q: int, k: int): int
    requires 1 <= q <= 71 && 0 <= k < CLASSES
    decreases Rank(q)
  {
    if Chk(Base(q) + k) == q || q == JAM then Nxt(Base(q) + k)
    else
      DefaultRank(q);
      Lookup(Def(q), Passed(q, k))
  }

  lemma OwnEntry(q: int, k: int)
    requires 1 <= q <= 71 && 0 <= k < CLASSES && Chk(Base(q) + k) == q
    ensures Lookup(q, k) == Nxt(Base(q) + k)
  {
  }

  /** An entry that is not a state's own is that of its default state. */
  lemma DefaultEntry(q: int, k: int)
    requires 1 <= q <= 71 && 0 <= k < CLASSES && Chk(Base(q) + k) != q
    ensures q != JAM && 1 <= Def(q) <= 71 && Rank(Def(q)) < Rank(q) && 0 <= Passed(q, k) < CLASSES
    ensures Lookup(q, k) == Lookup(Def(q), Passed(q, k))
  {
    JamOwnsAll(k);
    DefaultRank(q);
  }

  /** The loop that finds the next state. */
  method NextState(q: int, c: char) returns (next: int)
    requires 1 <= q <= 71
    ensures next == Lookup(q, Class(c))
  {
    ClassBound(c);
    var state, k := q, Class(c);
    ghost var goal := Lookup(q, Class(c));
    while Chk(Base(state) + k) != state
      invariant 1 <= state <= 71 && 0 <= k < CLASSES && Lookup(state, k) == goal
      decreases Rank(state)
    {
      DefaultEntry(state, k);
      state := Def(state);
      if state > STATES {
        k := Meta(k);
      }
    }
    OwnEntry(state, k);
    next := Nxt(Base(state) + k);
  }

  // ------------------------------------------------------------------ the automaton

  /** d is the automaton of the tables; the scanner stops in the states whose base is 205. */
  ghost predicate IsTables(d: Dfa) {
    && d.first == 1 && d.firstAtBol == 2 && d.eob == 3 && d.jam == JAM && |d.next| == |d.stops| == STATES + 1
    && (forall q, c: char {:trigger d.Step(q, c)} :: 1 <= q <= STATES && c as int < 256 ==> d.Step(q, c) == At(q, c))
    && (forall q {:trigger d.Accept(q)} :: 1 <= q <= STATES ==> d.Accept(q) == Accept(q))
    && (forall q {:trigger d.Stop(q)} :: 1 <= q <= STATES ==> (d.Stop(q) <==> Base(q) == 205))
  }

  function Row(q: int): (r: seq<int>)
    requires 1 <= q <= STATES
    ensures |r| == 256 && forall c: char :: c as int < 256 ==> r[c as int] == At(q, c)
  {
    seq(256, c requires 0 <= c < 256 => At(q, c as char))
  }

  function At(q: int, c: char): int
    requires 1 <= q <= STATES
  {
    ClassBound(c);
    Lookup(q, Class(c))
  }

  lemma NxtBound(i: int)
    requires 1 <= i < 235
    ensures 3 <= Nxt(i) <= STATES && (Nxt(i) == 3 <==> i == 205)
  {
  }

  /** Only the jam state has the end-of-buffer state among its entries, for NUL. */
  lemma EntryOfText(q: int, k: int)
    requires 1 <= q <= 71 && 1 <= k < CLASSES && Chk(Base(q) + k) == q
    ensures 4 <= Nxt(Base(q) + k) <= STATES
  {
    assert Base(q) <= 205;
    NxtBound(Base(q) + k);
    assert Chk(205) == JAM && Base(JAM) == 205;
  }

  lemma {:induction false} LookupText(q: int, k: int)
    requires 1 <= q <= 71 && 1 <= k < CLASSES
    ensures 4 <= Lookup(q, k) <= STATES
    decreases Rank(q)
  {
    if Chk(Base(q) + k) == q {
      EntryOfText(q, k);
    } else {
      DefaultEntry(q, k);
      LookupText(Def(q), Passed(q, k));
    }
  }

  lemma NulOwner(q: int)
    requires 1 <= q <= 71
    ensures Chk(Base(q)) == q <==> q == 3 || q == JAM
  {
  }

  /** On NUL, every state but the end-of-buffer state itself goes to the end-of-buffer state. */
  lemma {:induction false} LookupNul(q: int)
    requires 1 <= q <= 71
    ensures Lookup(q, 0) == if q == 3 then JAM else 3
    decreases Rank(q)
  {
    NulOwner(q);
    if q == 3 || q == JAM {
    } else {
      DefaultRank(q);
      LookupNul(Def(q));
    }
  }

  lemma StopRow(q: int, k: int)
    requires 1 <= q <= STATES && Base(q) == 205 && 1 <= k < CLASSES
    ensures Lookup(q, k) == JAM
  {
    JamOwnsAll(k);
    if q != JAM {
      assert Def(q) == JAM;
    }
  }

  /** In the start states, every character begins a token; a comment can only begin at the beginning of a line. */
  lemma StartRow(k: int)
    requires 1 <= k < CLASSES
    ensures Lookup(1, k) == FirstState(k) && Lookup(2, k) == if k == 6 then 17 else FirstState(k)
  {
    assert Chk(k) == 1;
    assert Chk(149 + k) == 2 <==> k == 6;
  }

  function FirstState(k: int): int {
    if k == 2 then 5
    else if k == 3 then 6
    else if k == 4 then 7
    else if k == 5 then 8
    else if k == 8 || k == 14 then 9
    else if 9 <= k <= 13 then 10
    else if k == 15 then 11
    else if k < 16 then 4
    else if k == 22 then 13
    else if k == 23 then 14
    else if k == 25 then 15
    else if k == 28 then 16
    else 12
  }

  lemma {:induction false} RowsFine(d: Dfa, n: nat)
    requires IsTables(d) && n <= STATES + 1
    ensures d.RowsOk(n)
  {
    if n <= 1 {
    } else {
      RowFine(d, n - 1);
      RowsFine(d, n - 1);
    }
  }

  /** A character takes no state to the end-of-buffer state, and a stop state to the jam state. */
  lemma TextFine(q: nat, c: char)
    requires 1 <= q <= STATES && IsText(c)
    ensures 4 <= At(q, c) <= STATES && (Base(q) == 205 ==> At(q, c) == JAM)
  {
    ClassBound(c);
    LookupText(q, Class(c));
    if Base(q) == 205 {
      StopRow(q, Class(c));
    }
  }

  /** A character takes a start state to an accepting state. */
  lemma FirstFine(q: nat, c: char)
    requires (q == 1 || q == 2) && IsText(c)
    ensures Accept(At(q, c)) != 0
  {
    ClassBound(c);
    StartRow(Class(c));
    FirstAccepts(Class(c));
  }

  lemma FirstAccepts(k: int)
    ensures Accept(FirstState(k)) != 0 && Accept(17) != 0
  {
  }

  lemma AcceptBound(q: int)
    requires 1 <= q <= STATES
    ensures Accept(q) == END_OF_BUFFER <==> q == 3
    ensures Accept(JAM) == 0 && Base(JAM) == 205
  {
  }

  lemma RowFine(d: Dfa, q: nat)
    requires IsTables(d) && 1 <= q <= STATES
    ensures d.RowOk(q)
  {
    LookupNul(q);
    AcceptBound(q);
    forall c | IsText(c)
      ensures d.Step(q, c) == At(q, c) && d.Step(q, c) != d.eob && d.Accept(d.Step(q, c)) != END_OF_BUFFER
      ensures d.Stop(q) ==> d.Stop(d.Step(q, c)) && d.Accept(d.Step(q, c)) == 0
      ensures q <= 2 ==> d.Accept(d.Step(q, c)) != 0
    {
      TextFine(q, c);
      AcceptBound(At(q, c));
      if q <= 2 {
        FirstFine(q, c);
      }
    }
  }

  lemma StartFine(d: Dfa)
    requires IsTables(d)
    ensures !d.Stop(1) && d.Accept(1) == 0 && !d.Stop(2) && d.Accept(2) == 0
    ensures !d.Stop(3) && d.Accept(3) == END_OF_BUFFER && d.Stop(JAM) && d.Accept(JAM) == 0
  {
  }

  lemma EofByteFine(c: char, bol: int)
    requires c == EOF_BYTE && bol == 2
    ensures Accept(At(bol, c)) == 16
  {
    ClassBound(c);
    var k := Class(c);
    assert k == 1;
    StartRow(k);
  }

  /** The tables keep what the scanner relies on. */
  lemma TablesWellFormed(d: Dfa)
    requires IsTables(d)
    ensures d.WellFormed()
  {
    RowsFine(d, |d.next|);
    StartFine(d);
    LookupNul(d.eob);
    EofByteFine(EOF_BYTE, d.firstAtBol);
    TextFine(d.firstAtBol, EOF_BYTE);
  }

  /** The automaton of the tables. */
  function Tables(): (d: Dfa)
    ensures IsTables(d) && d.WellFormed()
  {
    var d := Dfa(seq(STATES + 1, q => if 1 <= q <= STATES then Row(q) else []), seq(STATES + 1, q => Accept(q)),
                 seq(STATES + 1, q => Base(q) == 205), 1, 2, 3, JAM);
    TablesWellFormed(d);
    d
  }
}
