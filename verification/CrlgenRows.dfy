/** What the compressed tables say, state by state, for every class but that of NUL. */
module CrlgenRows {
  import opened CrlgenTables

  const BLANK: int := 2
  const NEWLINE: int := 3
  const QUOTE: int := 5
  const HASH: int := 6
  const DASH: int := 7
  const DOT: int := 8
  const COLON: int := 14
  const CAPITAL_Z: int := 17

  predicate IsClass(k: int) {
    1 <= k < CLASSES
  }

  predicate DigitClass(k: int) {
    9 <= k <= 13
  }

  predicate LetterClass(k: int) {
    16 <= k < CLASSES
  }

  predicate NameClass(k: int) {
    k == DOT || k == COLON || DigitClass(k) || LetterClass(k)
  }

  lemma MetaIs(k: int)
    requires IsClass(k)
    ensures 1 <= Meta(k) <= 5
    ensures (Meta(k) == 2 <==> k == NEWLINE) && (Meta(k) == 3 <==> k == QUOTE)
    ensures (Meta(k) >= 4 <==> NameClass(k)) && (Meta(k) == 5 <==> DigitClass(k))
  {
  }

  lemma JamRow(k: int)
    requires IsClass(k)
    ensures Lookup(JAM, k) == JAM
  {
    JamOwnsAll(k);
  }

  lemma TemplateEntries(t: int, m: int)
    requires 67 <= t <= 71 && 1 <= m <= 5
    ensures Def(t) == JAM
    ensures Chk(Base(t) + m) == t <==>
            if t == 67 then m != 3 else if t == 70 then m != 2 else if t == 71 then m == 5 else m >= 4
    ensures Chk(Base(t) + m) == t ==>
            Nxt(Base(t) + m) ==
            if t == 67 then 20 else if t == 68 then 21 else if t == 69 then 25 else if t == 70 then 30 else 31
  {
  }

  /** The templates. */
  lemma TemplateRow(t: int, m: int)
    requires 67 <= t <= 71 && 1 <= m <= 5
    ensures Lookup(t, m) ==
            if t == 67 && m != 3 then 20
            else if t == 68 && m >= 4 then 21
            else if t == 69 && m >= 4 then 25
            else if t == 70 && m != 2 then 30
            else if t == 71 && m == 5 then 31
            else JAM
  {
    TemplateEntries(t, m);
    if Chk(Base(t) + m) == t {
      OwnEntry(t, m);
    } else {
      DefaultEntry(t, m);
      JamRow(m);
    }
  }

  /** A state without entries of its own, or with others than k. */
  lemma FromTemplate(q: int, k: int)
    requires 1 <= q < JAM && IsClass(k) && Chk(Base(q) + k) != q && 67 <= Def(q) <= 71
    ensures Lookup(q, k) ==
            if Def(q) == 67 && k != QUOTE then 20
            else if Def(q) == 68 && NameClass(k) then 21
            else if Def(q) == 69 && NameClass(k) then 25
            else if Def(q) == 70 && k != NEWLINE then 30
            else if Def(q) == 71 && DigitClass(k) then 31
            else JAM
  {
    MetaIs(k);
    DefaultEntry(q, k);
    TemplateRow(Def(q), Meta(k));
  }

  // ------------------------------------------------------------------ rows

  lemma QuotedRow(q: int, k: int)
    requires (q == 8 || q == 20) && IsClass(k)
    ensures Lookup(q, k) == if k == QUOTE then JAM else 20
  {
    FromTemplate(q, k);
  }

  lemma CommentRow(q: int, k: int)
    requires (q == 17 || q == 30) && IsClass(k)
    ensures Lookup(q, k) == if k == NEWLINE then JAM else 30
  {
    FromTemplate(q, k);
  }

  lemma BlankRow(q: int, k: int)
    requires (q == 5 || q == 18) && IsClass(k)
    ensures Lookup(q, k) == if k == BLANK then 18 else JAM
  {
    JamRow(k);
    assert (Chk(138 + k) == 5 <==> k == BLANK) && (Chk(99 + k) == 18 <==> k == BLANK);
  }

  lemma ReturnRow(k: int)
    requires IsClass(k)
    ensures Lookup(7, k) == if k == NEWLINE then 19 else JAM
  {
    JamRow(k);
    assert Chk(103 + k) == 7 <==> k == NEWLINE;
  }

  lemma NameRow(q: int, k: int)
    requires (q == 9 || q == 21 || q == 65) && IsClass(k)
    ensures Lookup(q, k) == if NameClass(k) then 21 else JAM
  {
    FromTemplate(q, k);
  }

  lemma RangeRow(q: int, k: int)
    requires (q == 22 || q == 31) && IsClass(k)
    ensures Lookup(q, k) == if DigitClass(k) then 31 else JAM
  {
    FromTemplate(q, k);
  }

  lemma OidRow(q: int, k: int)
    requires (q == 23 || q == 32) && IsClass(k)
    ensures Lookup(q, k) == if k == DOT || DigitClass(k) then 32 else if NameClass(k) then 21 else JAM
    decreases q
  {
    OidEntries(k);
    if q == 32 {
      DefaultEntry(q, k);
      OidRow(23, k);
    } else if 8 <= k <= 13 {
      OwnEntry(q, k);
    } else {
      FromTemplate(q, k);
    }
  }

  lemma OidEntries(k: int)
    requires IsClass(k)
    ensures Base(23) == 50 && Def(23) == 68 && Def(32) == 23 && Chk(Base(32) + k) != 32
    ensures (Chk(50 + k) == 23 <==> 8 <= k <= 13) && (8 <= k <= 13 ==> Nxt(50 + k) == 32)
  {
  }

  /** The row of a word: `key` leads on to `next` in a keyword. */
  function WordRow(k: int, key: int, next: int): int {
    if k == key then next
    else if LetterClass(k) || DigitClass(k) then 25
    else if NameClass(k) then 21
    else JAM
  }

  /** The keyword that begins with a letter, if there is one. */
  function Keyword(first: char): string {
    if first == 'i' then "issuer"
    else if first == 'u' then "update"
    else if first == 'n' then "nextupdate"
    else if first == 'r' then "range"
    else ""
  }

  /** The state after n letters of that keyword. */
  function Chain(first: char, n: nat): nat {
    if first == 'i' then Pick(n - 1, 13, 26, 34, 39, 45, 50, 0, 0, 0, 0)
    else if first == 'u' then Pick(n - 1, 16, 29, 37, 42, 48, 52, 0, 0, 0, 0)
    else if first == 'n' then Pick(n - 1, 14, 27, 35, 40, 46, 51, 54, 56, 58, 60)
    else Pick(n - 1, 15, 28, 36, 41, 47, 0, 0, 0, 0, 0)
  }

  /** The class of the next letter of the keyword, or none. */
  function Key(first: char, n: nat): int {
    if n < |Keyword(first)| then Class(Keyword(first)[n]) else 0
  }

  /** q is the state of a word: its own entries are those for '.', for ':' and for the letter a keyword goes on with. */
  predicate InWord(q: int, base: int, key: int, next: int, k: int) {
    && 1 <= q < JAM && Base(q) == base && Def(q) == 69
    && (Chk(base + k) == q <==> k == DOT || k == COLON || k == key)
    && (k == DOT || k == COLON ==> Nxt(base + k) == 21)
    && (k == key ==> LetterClass(k) && Nxt(base + k) == next)
  }

  lemma InWordRow(q: int, key: int, next: int, k: int)
    requires IsClass(k) && InWord(q, Base(q), key, next, k)
    ensures Lookup(q, k) == WordRow(k, key, next)
  {
    if k == DOT || k == COLON || k == key {
      OwnEntry(q, k);
    } else {
      FromTemplate(q, k);
    }
  }

  lemma PlainWord(q: int, k: int)
    requires (q == 12 || q == 25) && IsClass(k)
    ensures InWord(q, Base(q), 0, 0, k)
  {
    if q == 12 {
      assert InWord(12, 29, 0, 0, k);
    } else {
      assert InWord(25, 34, 0, 0, k);
    }
  }

  predicate IssuerEntry(q: int, key: int, next: int) {
    || (q == 13 && key == 26 && next == 26)
    || (q == 26 && key == 26 && next == 34)
    || (q == 34 && key == 28 && next == 39)
    || (q == 39 && key == 20 && next == 45)
    || (q == 45 && key == 25 && next == 50)
    || (q == 50 && key == 0)
  }

  lemma IssuerChain(n: nat)
    requires 1 <= n <= 6
    ensures Keyword('i') == "issuer" && IssuerEntry(Chain('i', n), Key('i', n), Chain('i', n + 1))
  {
  }

  lemma IssuerStates(q: int, key: int, next: int, k: int)
    requires IsClass(k) && IssuerEntry(q, key, next)
    ensures InWord(q, Base(q), key, next, k)
  {
    if q == 13 {
      assert InWord(13, 30, 26, 26, k);
    } else if q == 26 {
      assert InWord(26, 61, 26, 34, k);
    } else if q == 34 {
      assert InWord(34, 65, 28, 39, k);
    } else if q == 39 {
      assert InWord(39, 105, 20, 45, k);
    } else if q == 45 {
      assert InWord(45, 107, 25, 50, k);
    } else {
      assert InWord(50, 91, 0, 0, k);
    }
  }

  predicate UpdateEntry(q: int, key: int, next: int) {
    || (q == 16 && key == 24 && next == 29)
    || (q == 29 && key == 19 && next == 37)
    || (q == 37 && key == 18 && next == 42)
    || (q == 42 && key == 27 && next == 48)
    || (q == 48 && key == 20 && next == 52)
    || (q == 52 && key == 0)
  }

  lemma UpdateChain(n: nat)
    requires 1 <= n <= 6
    ensures Keyword('u') == "update" && UpdateEntry(Chain('u', n), Key('u', n), Chain('u', n + 1))
  {
  }

  lemma UpdateStates(q: int, key: int, next: int, k: int)
    requires IsClass(k) && UpdateEntry(q, key, next)
    ensures InWord(q, Base(q), key, next, k)
  {
    if q == 16 {
      assert InWord(16, 33, 24, 29, k);
    } else if q == 29 {
      assert InWord(29, 64, 19, 37, k);
    } else if q == 37 {
      assert InWord(37, 66, 18, 42, k);
    } else if q == 42 {
      assert InWord(42, 90, 27, 48, k);
    } else if q == 48 {
      assert InWord(48, 125, 20, 52, k);
    } else {
      assert InWord(52, 128, 0, 0, k);
    }
  }

  predicate NextUpdateEntry(q: int, key: int, next: int) {
    || (q == 14 && key == 20 && next == 27)
    || (q == 27 && key == 29 && next == 35)
    || (q == 35 && key == 27 && next == 40)
    || (q == 40 && key == 28 && next == 46)
    || (q == 46 && key == 24 && next == 51)
    || (q == 51 && key == 19 && next == 54)
    || (q == 54 && key == 18 && next == 56)
    || (q == 56 && key == 27 && next == 58)
    || (q == 58 && key == 20 && next == 60)
    || (q == 60 && key == 0)
  }

  lemma NextUpdateChain(n: nat)
    requires 1 <= n <= 10
    ensures Keyword('n') == "nextupdate" && NextUpdateEntry(Chain('n', n), Key('n', n), Chain('n', n + 1))
  {
  }

  lemma NextStates(q: int, key: int, next: int, k: int)
    requires IsClass(k) && NextUpdateEntry(q, key, next) && q <= 46
    ensures InWord(q, Base(q), key, next, k)
  {
    if q == 14 {
      assert InWord(14, 31, 20, 27, k);
    } else if q == 27 {
      assert InWord(27, 41, 29, 35, k);
    } else if q == 35 {
      assert InWord(35, 68, 27, 40, k);
    } else if q == 40 {
      assert InWord(40, 88, 28, 46, k);
    } else {
      assert InWord(46, 110, 24, 51, k);
    }
  }

  lemma NextUpdateStates(q: int, key: int, next: int, k: int)
    requires IsClass(k) && NextUpdateEntry(q, key, next)
    ensures InWord(q, Base(q), key, next, k)
  {
    if q <= 46 {
      NextStates(q, key, next, k);
    } else if q == 51 {
      assert InWord(51, 127, 19, 54, k);
    } else if q == 54 {
      assert InWord(54, 144, 18, 56, k);
    } else if q == 56 {
      assert InWord(56, 129, 27, 58, k);
    } else if q == 58 {
      assert InWord(58, 160, 20, 60, k);
    } else {
      assert InWord(60, 130, 0, 0, k);
    }
  }

  predicate RangeWordEntry(q: int, key: int, next: int) {
    || (q == 15 && key == 18 && next == 28)
    || (q == 28 && key == 23 && next == 36)
    || (q == 36 && key == 21 && next == 41)
    || (q == 41 && key == 20 && next == 47)
    || (q == 47 && key == 0)
  }

  lemma RangeWordChain(n: nat)
    requires 1 <= n <= 5
    ensures Keyword('r') == "range" && RangeWordEntry(Chain('r', n), Key('r', n), Chain('r', n + 1))
  {
  }

  lemma RangeWordStates(q: int, key: int, next: int, k: int)
    requires IsClass(k) && RangeWordEntry(q, key, next)
    ensures InWord(q, Base(q), key, next, k)
  {
    if q == 15 {
      assert InWord(15, 32, 18, 28, k);
    } else if q == 28 {
      assert InWord(28, 63, 23, 36, k);
    } else if q == 36 {
      assert InWord(36, 86, 21, 41, k);
    } else if q == 41 {
      assert InWord(41, 106, 20, 47, k);
    } else {
      assert InWord(47, 89, 0, 0, k);
    }
  }

  // ------------------------------------------------------------------ numbers

  /** The state after n digits that may begin a date. */
  function DateState(n: nat): nat {
    if n <= 10 then Pick(n - 1, 10, 24, 33, 38, 43, 49, 53, 55, 57, 59)
    else Pick(n - 11, 61, 62, 63, 64, 0, 0, 0, 0, 0, 0)
  }

  /** The class of the largest digit a date can have behind n digits. */
  function Top(n: nat): int {
    if n == 4 then 9 else if n == 6 then 11 else if n == 8 then 10 else if n == 10 || n == 12 then 12 else 13
  }

  /** The row of a number: the digits up to `top` lead on to `next` in a date. */
  function NumberRow(k: int, top: int, next: int): int {
    if 9 <= k <= top then next
    else if DigitClass(k) then 44
    else if k == DASH then 22
    else if k == DOT then 23
    else if NameClass(k) then 21
    else JAM
  }

  lemma FirstDigitRow(k: int)
    requires IsClass(k)
    ensures Lookup(10, k) == NumberRow(k, 13, 24)
  {
    assert Chk(23 + k) == 10 <==> 7 <= k <= 13;
    if !(7 <= k <= 13) {
      FromTemplate(10, k);
    }
  }

  lemma FourDigitsRow(k: int)
    requires IsClass(k)
    ensures Lookup(38, k) == NumberRow(k, 9, 43)
  {
    assert Chk(99 + k) == 38 <==> DigitClass(k);
    if !DigitClass(k) {
      DefaultEntry(38, k);
      FirstDigitRow(k);
    }
  }

  /** q is the state of a date: its own entries are those for the digits it can go on with. */
  predicate InDate(q: int, base: int, top: int, next: int, k: int) {
    && 1 <= q < JAM && Base(q) == base && (Def(q) == 38 || (Def(q) == 10 && top == 13)) && 9 <= top <= 13
    && (Chk(base + k) == q <==> 9 <= k <= top)
    && (9 <= k <= top ==> Nxt(base + k) == next)
  }

  lemma InDateRow(q: int, top: int, next: int, k: int)
    requires IsClass(k) && InDate(q, Base(q), top, next, k)
    ensures Lookup(q, k) == NumberRow(k, top, next)
  {
    if 9 <= k <= top {
      OwnEntry(q, k);
    } else {
      DefaultEntry(q, k);
      if top == 13 && Def(q) == 10 {
        FirstDigitRow(k);
      } else {
        FourDigitsRow(k);
      }
    }
  }

  lemma YearToDay(n: nat, k: int)
    requires IsClass(k) && 2 <= n <= 8 && n != 4
    ensures InDate(DateState(n), Base(DateState(n)), Top(n), DateState(n + 1), k)
  {
    if n == 2 {
      assert InDate(24, 55, 13, 33, k);
    } else if n == 3 {
      assert InDate(33, 79, 13, 38, k);
    } else if n == 5 {
      assert InDate(43, 118, 13, 49, k);
    } else if n == 6 {
      assert InDate(49, 43, 11, 53, k);
    } else if n == 7 {
      assert InDate(53, 138, 13, 55, k);
    } else {
      assert InDate(55, 113, 10, 57, k);
    }
  }

  lemma HourToSecond(n: nat, k: int)
    requires IsClass(k) && 9 <= n <= 13
    ensures InDate(DateState(n), Base(DateState(n)), Top(n), DateState(n + 1), k)
  {
    if n == 9 {
      assert InDate(57, 154, 13, 59, k);
    } else if n == 10 {
      assert InDate(59, 160, 12, 61, k);
    } else if n == 11 {
      assert InDate(61, 172, 13, 62, k);
    } else if n == 12 {
      assert InDate(62, 166, 12, 63, k);
    } else {
      assert InDate(63, 177, 13, 64, k);
    }
  }

  lemma DateRow(n: nat, k: int)
    requires IsClass(k) && 1 <= n <= 13
    ensures 1 <= DateState(n) < JAM && Lookup(DateState(n), k) == NumberRow(k, Top(n), DateState(n + 1))
  {
    if n == 1 {
      FirstDigitRow(k);
    } else if n == 4 {
      FourDigitsRow(k);
    } else {
      if n <= 8 {
        YearToDay(n, k);
      } else {
        HourToSecond(n, k);
      }
      InDateRow(DateState(n), Top(n), DateState(n + 1), k);
    }
  }

  /** The digits are no date any more. */
  lemma NoDateRow(k: int)
    requires IsClass(k)
    ensures Lookup(44, k) == NumberRow(k, 0, 0)
  {
    assert Chk(76 + k) == 44 <==> k == 9;
    if k != 9 {
      DefaultEntry(44, k);
      FourDigitsRow(k);
    }
  }

  /** The date is complete, and a Z can follow. */
  lemma WholeDateRow(k: int)
    requires IsClass(k)
    ensures Lookup(64, k) == if k == CAPITAL_Z then 65 else NumberRow(k, 0, 0)
  {
    assert Chk(144 + k) == 64 <==> k == 9 || k == CAPITAL_Z;
    if k != 9 && k != CAPITAL_Z {
      DefaultEntry(64, k);
      FourDigitsRow(k);
    }
  }
}
