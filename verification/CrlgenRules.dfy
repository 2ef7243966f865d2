/**
  The token rules of CRL generation scripts (cmd/crlutil/crlgen_lex_orig.l), and the proof that the generated tables
  implement them.
  */
module CrlgenRules {
  import opened CNumbers
  import opened Tokenizer
  import opened CrlgenTables
  import opened CrlgenRows

  // ------------------------------------------------------------------ the rules

  ghost predicate All(p: char -> bool, w: string) {
    forall i :: 0 <= i < |w| ==> p(w[i])
  }

  predicate IsLetter(c: char) {
    'a' <= c <= 'z' || 'A' <= c <= 'Z'
  }

  predicate IsIdChar(c: char) {
    IsLetter(c) || IsDigit(c)
  }

  predicate IsNameChar(c: char) {
    IsIdChar(c) || c == ':' || c == '|' || c == '.'
  }

  predicate IsOidChar(c: char) {
    IsDigit(c) || c == '.'
  }

  predicate IsBlank(c: char) {
    c == ' ' || c == '\t'
  }

  /** The characters a date can have at place i. */
  predicate IsDateChar(i: nat, c: char) {
    && IsDigit(c)
    && (i == 4 ==> c <= '1') && (i == 6 ==> c <= '3') && (i == 8 ==> c <= '2') && (i == 10 || i == 12 ==> c <= '6')
  }

  ghost predicate BeginsDate(w: string) {
    |w| <= 14 && forall i :: 0 <= i < |w| ==> IsDateChar(i, w[i])
  }

  /** DATE and ZDATE */
  ghost predicate IsZDate(w: string) {
    |w| == 15 && BeginsDate(w[..14]) && w[14] == 'Z'
  }

  /** The text w matches a rule; `bol` tells whether it stands at the beginning of a line. */
  ghost predicate Matches(rule: nat, bol: bool, w: string) {
    match rule
    case 1 => IsZDate(w)
    case 2 => w != "" && All(IsDigit, w)
    case 3 => exists i :: 0 < i < |w| - 1 && All(IsDigit, w[..i]) && w[i] == '-' && All(IsDigit, w[i + 1..])
    case 4 => exists i :: 0 < i < |w| - 1 && All(IsDigit, w[..i]) && w[i] == '.' && All(IsOidChar, w[i + 1..])
    case 5 => w == "issuer"
    case 6 => w == "update"
    case 7 => w == "nextupdate"
    case 8 => w == "range"
    case 9 => w != "" && IsLetter(w[0]) && All(IsIdChar, w)
    case 10 => w == "="
    case 11 => w != "" && w[0] == '\"' && '\"' !in w[1..]
    case 12 => w != "" && All(IsNameChar, w)
    case 13 => bol && w != "" && w[0] == '#' && '\n' !in w[1..]
    case 14 => w != "" && All(IsBlank, w)
    case 15 => w == "\n" || w == "\r\n"
    case 16 => |w| == 1 && w[0] != '\n'
    case _ => false
  }

  /** The first rule that matches, or 0 if none does. */
  ghost predicate IsFirstRule(rule: nat, bol: bool, w: string) {
    && (rule > 0 ==> Matches(rule, bol, w))
    && (forall r: nat :: Matches(r, bol, w) ==> 0 < rule <= r)
  }

  // ------------------------------------------------------------------ the state a text leads to

  /** The number of digits w begins with. */
  function Digits(w: string): (n: nat)
    ensures n <= |w| && (n < |w| ==> !IsDigit(w[n]))
  {
    if w != "" && IsDigit(w[0]) then 1 + Digits(w[1..]) else 0
  }

  /** Digits, a sign, and more characters behind it. */
  ghost predicate HasSign(w: string, p: char -> bool, sign: char) {
    var n := Digits(w);
    0 < n < |w| && w[n] == sign && All(p, w[n + 1..])
  }

  /** The beginning of an object identifier behind its first number. */
  ghost predicate BeginsOid(w: string) {
    HasSign(w, IsOidChar, '.')
  }

  ghost predicate BeginsRange(w: string) {
    HasSign(w, IsDigit, '-')
  }

  ghost predicate IsId(w: string) {
    w != "" && IsLetter(w[0]) && All(IsIdChar, w)
  }

  function IdState(w: string): int
    requires w != ""
  {
    if w <= Keyword(w[0]) then Chain(w[0], |w|) else if |w| == 1 then 12 else 25
  }

  ghost function NumberState(w: string): int {
    if BeginsDate(w) then DateState(|w|) else 44
  }

  ghost function WordState(w: string): int
    requires w != ""
  {
    if IsId(w) then IdState(w)
    else if All(IsDigit, w) then NumberState(w)
    else if BeginsOid(w) then if Digits(w) + 1 == |w| then 23 else 32
    else if IsZDate(w) then 65
    else if All(IsNameChar, w) then if |w| == 1 then 9 else 21
    else if BeginsRange(w) then if Digits(w) + 1 == |w| then 22 else 31
    else JAM
  }

  /** The state in which the automaton has read w. */
  ghost function StateFor(bol: bool, w: string): int {
    if w == "" then if bol then 2 else 1
    else if w[0] == '\"' then if '\"' in w[1..] then JAM else if |w| == 1 then 8 else 20
    else if w[0] == '#' && bol then if '\n' in w[1..] then JAM else if |w| == 1 then 17 else 30
    else if IsBlank(w[0]) then if !All(IsBlank, w) then JAM else if |w| == 1 then 5 else 18
    else if w[0] == '\r' then if |w| == 1 then 7 else if w == "\r\n" then 19 else JAM
    else if IsNameChar(w[0]) then WordState(w)
    else if |w| > 1 then JAM
    else if w[0] == '\n' then 6
    else if w[0] == '=' then 11
    else 4
  }

  // ------------------------------------------------------------------ one more character

  lemma AllSnoc(p: char -> bool, w: string, c: char)
    ensures All(p, w + [c]) <==> All(p, w) && p(c)
  {
    var x := w + [c];
    if All(p, x) {
      forall i | 0 <= i < |w| ensures p(w[i]) {
        assert x[i] == w[i];
      }
      assert x[|w|] == c;
    }
  }

  lemma {:induction false} DigitsSnoc(w: string, c: char)
    ensures Digits(w + [c]) == if Digits(w) == |w| && IsDigit(c) then |w| + 1 else Digits(w)
    decreases |w|
  {
    if w == "" {
      assert w + [c] == [c] && [c][1..] == "";
    } else {
      assert (w + [c])[1..] == w[1..] + [c];
      DigitsSnoc(w[1..], c);
    }
  }

  lemma {:induction false} AreDigits(w: string, i: nat)
    requires i < Digits(w)
    ensures IsDigit(w[i])
  {
    if i == 0 {
    } else {
      AreDigits(w[1..], i - 1);
    }
  }

  lemma AllDigits(w: string)
    ensures All(IsDigit, w) <==> Digits(w) == |w|
  {
    if Digits(w) == |w| {
      forall i | 0 <= i < |w| ensures IsDigit(w[i]) {
        AreDigits(w, i);
      }
    } else {
      assert !IsDigit(w[Digits(w)]);
    }
  }

  lemma SignSnoc(w: string, c: char, p: char -> bool, sign: char)
    requires !IsDigit(sign) && w != ""
    ensures HasSign(w + [c], p, sign) <==> if Digits(w) == |w| then c == sign else HasSign(w, p, sign) && p(c)
  {
    DigitsSnoc(w, c);
    var x, n := w + [c], Digits(w);
    if n < |w| {
      assert x[n] == w[n] && x[n + 1..] == w[n + 1..] + [c];
      AllSnoc(p, w[n + 1..], c);
    } else if !IsDigit(c) {
      assert x[n] == c && x[n + 1..] == "";
    }
  }

  lemma OidSnoc(w: string, c: char)
    requires w != ""
    ensures BeginsOid(w + [c]) <==> if Digits(w) == |w| then c == '.' else BeginsOid(w) && IsOidChar(c)
  {
    SignSnoc(w, c, IsOidChar, '.');
  }

  lemma RangeSnoc(w: string, c: char)
    requires w != ""
    ensures BeginsRange(w + [c]) <==> if Digits(w) == |w| then c == '-' else BeginsRange(w) && IsDigit(c)
  {
    SignSnoc(w, c, IsDigit, '-');
  }

  lemma DateSnoc(w: string, c: char)
    ensures BeginsDate(w + [c]) <==> |w| < 14 && BeginsDate(w) && IsDateChar(|w|, c)
    ensures IsZDate(w + [c]) <==> |w| == 14 && BeginsDate(w) && c == 'Z'
  {
    var x := w + [c];
    assert forall i :: 0 <= i < |w| ==> x[i] == w[i];
    assert x[|w|] == c;
    assert |w| == 14 ==> x[..14] == w;
  }

  lemma ClassOf(c: char)
    requires IsText(c)
    ensures IsClass(Class(c))
    ensures (DigitClass(Class(c)) <==> IsDigit(c)) && (LetterClass(Class(c)) <==> IsLetter(c))
    ensures (NameClass(Class(c)) <==> IsNameChar(c)) && (Class(c) == BLANK <==> IsBlank(c))
    ensures (Class(c) == NEWLINE <==> c == '\n') && (Class(c) == QUOTE <==> c == '\"')
    ensures (Class(c) == DASH <==> c == '-')
    ensures (Class(c) == DOT <==> c == '.') && (Class(c) == CAPITAL_Z <==> c == 'Z') && (Class(c) == HASH <==> c == '#')
  {
  }

  lemma FirstWordState(c: char)
    requires IsNameChar(c)
    ensures WordState([c]) == FirstState(Class(c))
  {
    var w := [c];
    assert w[0] == c;
    assert Digits(w) == if IsDigit(c) then 1 else 0;
    if IsLetter(c) {
      assert IsId(w);
    } else if IsDigit(c) {
      assert All(IsDigit, w) && BeginsDate(w);
    }
  }

  lemma FirstStateFor(bol: bool, c: char)
    requires IsText(c)
    ensures StateFor(bol, [c]) == if bol && c == '#' then 17 else FirstState(Class(c))
  {
    var w := [c];
    assert w[1..] == "" && w[0] == c;
    if IsNameChar(c) {
      FirstWordState(c);
    } else if IsBlank(c) {
      assert All(IsBlank, w);
    }
  }

  /** The first character. */
  lemma StartStep(bol: bool, c: char)
    requires IsText(c)
    ensures Lookup(StateFor(bol, ""), Class(c)) == StateFor(bol, [c])
  {
    ClassOf(c);
    FirstStateFor(bol, c);
    FirstRow(bol, Class(c), StateFor(bol, ""));
  }

  lemma FirstRow(bol: bool, k: int, q: int)
    requires IsClass(k) && q == if bol then 2 else 1
    ensures Lookup(q, k) == if bol && k == HASH then 17 else FirstState(k)
  {
    StartRow(k);
  }

  predicate IsKeyLetter(c: char) {
    || c == 'a' || c == 'd' || c == 'e' || c == 'g' || c == 'i' || c == 'n'
    || c == 'p' || c == 'r' || c == 's' || c == 't' || c == 'u' || c == 'x'
  }

  lemma KeywordLetters(first: char, n: nat)
    requires n < |Keyword(first)|
    ensures IsKeyLetter(Keyword(first)[n])
  {
  }

  /** A letter of a keyword is the only character of its class. */
  lemma KeyClass(key: char, c: char)
    requires IsKeyLetter(key)
    ensures Class(c) == Class(key) <==> c == key
  {
  }

  // ------------------------------------------------------------------ words

  lemma ChainRow(first: char, n: nat, k: int)
    requires IsClass(k) && 1 <= n <= |Keyword(first)|
    ensures 1 <= Chain(first, n) < JAM
    ensures Lookup(Chain(first, n), k) == WordRow(k, Key(first, n), Chain(first, n + 1))
  {
    var q, key, next := Chain(first, n), Key(first, n), Chain(first, n + 1);
    if first == 'i' {
      IssuerChain(n);
      IssuerStates(q, key, next, k);
    } else if first == 'u' {
      UpdateChain(n);
      UpdateStates(q, key, next, k);
    } else if first == 'n' {
      NextUpdateChain(n);
      NextUpdateStates(q, key, next, k);
    } else {
      RangeWordChain(n);
      RangeWordStates(q, key, next, k);
    }
    InWordRow(q, key, next, k);
  }

  lemma IdSnoc(w: string, c: char)
    requires IsId(w)
    ensures IsId(w + [c]) <==> IsIdChar(c)
    ensures All(IsNameChar, w + [c]) <==> IsNameChar(c)
    ensures !All(IsDigit, w + [c]) && Digits(w + [c]) == 0 && !IsZDate(w + [c])
  {
    var x := w + [c];
    assert x[0] == w[0];
    AllSnoc(IsIdChar, w, c);
    AllSnoc(IsNameChar, w, c);
    DateSnoc(w, c);
    assert !IsDateChar(0, w[0]);
  }

  lemma IdStateSnoc(w: string, c: char)
    requires w != ""
    ensures IdState(w + [c]) ==
            if w <= Keyword(w[0]) && |w| < |Keyword(w[0])| && c == Keyword(w[0])[|w|] then Chain(w[0], |w| + 1) else 25
  {
    var x, key := w + [c], Keyword(w[0]);
    assert x[0] == w[0];
    if w <= key && |w| < |key| && c == key[|w|] {
      assert x == key[..|w| + 1];
    }
    if x <= key {
      assert key[..|w|] == x[..|w|] == w && key[|w|] == x[|w|] == c;
    }
  }

  lemma IdStep(w: string, c: char)
    requires IsId(w) && IsText(c)
    ensures 1 <= IdState(w) < JAM && Lookup(IdState(w), Class(c)) == WordState(w + [c])
  {
    IdSnoc(w, c);
    IdStateSnoc(w, c);
    ClassOf(c);
    var n, key, k := |w|, Keyword(w[0]), Class(c);
    if w <= key {
      ChainRow(w[0], n, k);
      if n < |key| {
        KeywordLetters(w[0], n);
        KeyClass(key[n], c);
      }
    } else {
      var q := IdState(w);
      PlainWord(q, k);
      InWordRow(q, 0, 0, k);
    }
  }

  lemma DigitsOfDate(w: string)
    ensures BeginsDate(w) ==> All(IsDigit, w)
    ensures IsZDate(w) ==> Digits(w) == 14 && All(IsNameChar, w)
  {
    if IsZDate(w) {
      var d := w[..14];
      assert All(IsDigit, d) && w == d + ['Z'];
      AllDigits(d);
      DigitsSnoc(d, 'Z');
      AllSnoc(IsNameChar, d, 'Z');
    }
  }

  /** The kinds of words exclude each other. */
  lemma WordKinds(w: string)
    requires w != ""
    ensures BeginsRange(w) ==> !All(IsNameChar, w)
    ensures BeginsOid(w) || IsZDate(w) || BeginsRange(w) ==> IsDigit(w[0]) && !All(IsDigit, w)
    ensures IsZDate(w) ==> !BeginsOid(w) && !BeginsRange(w)
    ensures BeginsOid(w) ==> All(IsNameChar, w)
  {
    AllDigits(w);
    if BeginsOid(w) {
      var n := Digits(w);
      forall i | 0 <= i < |w| ensures IsNameChar(w[i]) {
        if i < n {
          AreDigits(w, i);
        } else if i > n {
          assert w[i] == w[n + 1..][i - n - 1];
        }
      }
    }
    DigitsOfDate(w);
    if BeginsRange(w) {
      assert !IsNameChar(w[Digits(w)]);
    }
  }

  /** The kinds of a word with one more character. */
  lemma WordSnoc(w: string, c: char)
    requires w != ""
    ensures IsId(w + [c]) <==> IsId(w) && IsIdChar(c)
    ensures All(IsDigit, w + [c]) <==> All(IsDigit, w) && IsDigit(c)
    ensures All(IsNameChar, w + [c]) <==> All(IsNameChar, w) && IsNameChar(c)
    ensures BeginsOid(w + [c]) <==> if All(IsDigit, w) then c == '.' else BeginsOid(w) && IsOidChar(c)
    ensures BeginsRange(w + [c]) <==> if All(IsDigit, w) then c == '-' else BeginsRange(w) && IsDigit(c)
    ensures IsZDate(w + [c]) <==> |w| == 14 && BeginsDate(w) && c == 'Z'
    ensures Digits(w + [c]) == |w| <==> All(IsDigit, w) && !IsDigit(c)
  {
    AllDigits(w);
    AllSnoc(IsIdChar, w, c);
    AllSnoc(IsDigit, w, c);
    AllSnoc(IsNameChar, w, c);
    OidSnoc(w, c);
    RangeSnoc(w, c);
    DateSnoc(w, c);
    DigitsSnoc(w, c);
  }

  lemma DateClass(n: nat, c: char)
    ensures IsDateChar(n, c) <==> 9 <= Class(c) <= Top(n)
  {
  }

  lemma NumberStateRow(w: string, k: int)
    requires w != "" && IsClass(k)
    ensures 1 <= NumberState(w) < JAM
    ensures Lookup(NumberState(w), k) ==
            if BeginsDate(w) && |w| < 14 then NumberRow(k, Top(|w|), DateState(|w| + 1))
            else if BeginsDate(w) && k == CAPITAL_Z then 65
            else NumberRow(k, 0, 0)
  {
    var q := NumberState(w);
    if BeginsDate(w) && |w| < 14 {
      DateRow(|w|, k);
    } else {
      assert q == if BeginsDate(w) then 64 else 44;
      if BeginsDate(w) {
        WholeDateRow(k);
      } else {
        NoDateRow(k);
      }
    }
  }

  lemma NumberStep(w: string, c: char)
    requires w != "" && All(IsDigit, w) && IsText(c)
    ensures 1 <= NumberState(w) < JAM && Lookup(NumberState(w), Class(c)) == WordState(w + [c])
  {
    WordSnoc(w, c);
    DateSnoc(w, c);
    ClassOf(c);
    DateClass(|w|, c);
    NumberStateRow(w, Class(c));
    assert !IsId(w);
  }

  lemma OtherWordStep(w: string, c: char)
    requires w != "" && !IsId(w) && !All(IsDigit, w) && IsText(c)
    ensures 1 <= WordState(w) <= JAM && Lookup(WordState(w), Class(c)) == WordState(w + [c])
  {
    WordSnoc(w, c);
    WordKinds(w);
    DigitsOfDate(w);
    ClassOf(c);
    var q, k := WordState(w), Class(c);
    if BeginsOid(w) {
      OidRow(q, k);
    } else if All(IsNameChar, w) {
      NameRow(q, k);
    } else if BeginsRange(w) {
      RangeRow(q, k);
    } else {
      JamRow(k);
    }
  }

  lemma WordStep(w: string, c: char)
    requires w != "" && IsText(c)
    ensures 1 <= WordState(w) <= JAM && Lookup(WordState(w), Class(c)) == WordState(w + [c])
  {
    if IsId(w) {
      IdStep(w, c);
    } else if All(IsDigit, w) {
      NumberStep(w, c);
    } else {
      OtherWordStep(w, c);
    }
  }

  // ------------------------------------------------------------------ all texts

  lemma RestSnoc(w: string, c: char, x: char)
    requires w != ""
    ensures x in (w + [c])[1..] <==> x in w[1..] || x == c
  {
    assert (w + [c])[1..] == w[1..] + [c];
  }

  /** Texts that are neither words nor blanks nor single characters. */
  lemma DelimitedStep(bol: bool, w: string, c: char)
    requires w != "" && IsText(c) && (w[0] == '\"' || (w[0] == '#' && bol))
    ensures 1 <= StateFor(bol, w) <= JAM && Lookup(StateFor(bol, w), Class(c)) == StateFor(bol, w + [c])
  {
    ClassOf(c);
    var q, k := StateFor(bol, w), Class(c);
    RestSnoc(w, c, '\"');
    RestSnoc(w, c, '\n');
    if q == JAM {
      JamRow(k);
    } else if w[0] == '\"' {
      QuotedRow(q, k);
    } else {
      CommentRow(q, k);
    }
  }

  lemma SpaceStep(bol: bool, w: string, c: char)
    requires w != "" && IsText(c) && (IsBlank(w[0]) || w[0] == '\r')
    ensures 1 <= StateFor(bol, w) <= JAM && Lookup(StateFor(bol, w), Class(c)) == StateFor(bol, w + [c])
  {
    ClassOf(c);
    var q, k := StateFor(bol, w), Class(c);
    AllSnoc(IsBlank, w, c);
    if q == JAM {
      JamRow(k);
    } else if w[0] == '\r' {
      ReturnStep(w, c, q);
    } else {
      BlankRow(q, k);
    }
  }

  lemma ReturnStep(w: string, c: char, q: int)
    requires IsText(c) && ((w == "\r" && q == 7) || (w == "\r\n" && q == 19))
    ensures Lookup(q, Class(c)) == if w + [c] == "\r\n" then 19 else JAM
  {
    ClassOf(c);
    if q == 7 {
      ReturnRow(Class(c));
      assert c == '\n' ==> w + [c] == "\r\n";
      assert w + [c] == "\r\n" ==> (w + [c])[1] == c;
    } else {
      assert Base(q) == 205;
      StopRow(q, Class(c));
    }
  }

  lemma SingleStep(bol: bool, w: string, c: char)
    requires w != "" && IsText(c) && w[0] != '\"' && !(w[0] == '#' && bol)
    requires !IsBlank(w[0]) && w[0] != '\r' && !IsNameChar(w[0])
    ensures 1 <= StateFor(bol, w) <= JAM && Lookup(StateFor(bol, w), Class(c)) == JAM
  {
    ClassOf(c);
    var q := StateFor(bol, w);
    assert Base(q) == 205 by {
      assert q == 4 || q == 6 || q == 11 || q == JAM;
    }
    StopRow(q, Class(c));
  }

  /** The tables lead from the state of a text to that of the text with one more character. */
  lemma TextStep(bol: bool, w: string, c: char)
    requires IsText(c)
    ensures 1 <= StateFor(bol, w) <= JAM && Lookup(StateFor(bol, w), Class(c)) == StateFor(bol, w + [c])
  {
    if w == "" {
      StartStep(bol, c);
      assert w + [c] == [c];
    } else {
      assert (w + [c])[0] == w[0];
      if w[0] == '\"' || (w[0] == '#' && bol) {
        DelimitedStep(bol, w, c);
      } else if IsBlank(w[0]) || w[0] == '\r' {
        SpaceStep(bol, w, c);
      } else if IsNameChar(w[0]) {
        WordStep(w, c);
      } else {
        SingleStep(bol, w, c);
      }
    }
  }

  // ------------------------------------------------------------------ the rule of a state

  /** The character a rule begins with. */
  lemma FirstChar(rule: nat, bol: bool, w: string)
    requires Matches(rule, bol, w)
    ensures w != "" && 1 <= rule <= 16
    ensures rule <= 4 ==> IsDigit(w[0])
    ensures 5 <= rule <= 9 ==> IsLetter(w[0])
    ensures rule == 12 ==> IsNameChar(w[0])
    ensures rule == 14 ==> IsBlank(w[0])
  {
    if rule == 1 {
      assert w[..14][0] == w[0];
    } else if rule == 3 {
      var i :| 0 < i < |w| - 1 && All(IsDigit, w[..i]);
      assert w[..i][0] == w[0];
    } else if rule == 4 {
      var i :| 0 < i < |w| - 1 && All(IsDigit, w[..i]);
      assert w[..i][0] == w[0];
    }
  }

  lemma {:induction false} DigitsUpTo(w: string, i: nat)
    requires i < |w| && All(IsDigit, w[..i]) && !IsDigit(w[i])
    ensures Digits(w) == i
    decreases i
  {
    if i == 0 {
    } else {
      assert w[..i][0] == w[0];
      var v := w[1..][..i - 1];
      forall j | 0 <= j < |v| ensures IsDigit(v[j]) {
        assert v[j] == w[..i][j + 1];
      }
      DigitsUpTo(w[1..], i - 1);
    }
  }

  lemma UpToDigits(w: string)
    ensures All(IsDigit, w[..Digits(w)])
  {
    forall i | 0 <= i < Digits(w) ensures IsDigit(w[i]) {
      AreDigits(w, i);
    }
  }

  lemma RangeRule(bol: bool, w: string)
    ensures Matches(3, bol, w) <==> BeginsRange(w) && Digits(w) + 1 < |w|
  {
    if Matches(3, bol, w) {
      var i :| 0 < i < |w| - 1 && All(IsDigit, w[..i]) && w[i] == '-' && All(IsDigit, w[i + 1..]);
      DigitsUpTo(w, i);
    }
    UpToDigits(w);
  }

  lemma OidRule(bol: bool, w: string)
    ensures Matches(4, bol, w) <==> BeginsOid(w) && Digits(w) + 1 < |w|
  {
    if Matches(4, bol, w) {
      var i :| 0 < i < |w| - 1 && All(IsDigit, w[..i]) && w[i] == '.' && All(IsOidChar, w[i + 1..]);
      DigitsUpTo(w, i);
    }
    UpToDigits(w);
  }

  lemma KeywordIsId(bol: bool, w: string)
    ensures Matches(5, bol, w) || Matches(6, bol, w) || Matches(7, bol, w) || Matches(8, bol, w) ==> IsId(w)
  {
  }

  /** The rules of a word that is not an identifier. */
  lemma NumberRules(rule: nat, bol: bool, w: string)
    requires w != "" && IsNameChar(w[0]) && !IsId(w) && Matches(rule, bol, w)
    ensures 1 <= rule <= 4 || rule == 12 || rule == 16
    ensures rule == 3 ==> BeginsRange(w) && Digits(w) + 1 < |w|
    ensures rule == 4 ==> BeginsOid(w) && Digits(w) + 1 < |w|
  {
    FirstChar(rule, bol, w);
    KeywordIsId(bol, w);
    RangeRule(bol, w);
    OidRule(bol, w);
  }

  /** The rule of a chain of letters: that of the keyword if it is complete, and otherwise that of an identifier. */
  lemma ChainAccept(first: char, n: nat)
    requires 1 <= n <= |Keyword(first)|
    ensures Accept(Chain(first, n)) ==
            if n < |Keyword(first)| then 9
            else if first == 'i' then 5 else if first == 'u' then 6 else if first == 'n' then 7 else 8
  {
  }

  /** A word is a keyword exactly if it is all of the keyword that begins with its first letter. */
  lemma KeywordRule(bol: bool, w: string)
    requires IsId(w)
    ensures Matches(5, bol, w) <==> w[0] == 'i' && w == Keyword('i')
    ensures Matches(6, bol, w) <==> w[0] == 'u' && w == Keyword('u')
    ensures Matches(7, bol, w) <==> w[0] == 'n' && w == Keyword('n')
    ensures Matches(8, bol, w) <==> w[0] == 'r' && w == Keyword('r')
  {
  }

  lemma IdAccept(bol: bool, w: string)
    requires IsId(w)
    ensures IsFirstRule(Accept(IdState(w)), bol, w)
  {
    var key := Keyword(w[0]);
    KeywordRule(bol, w);
    if w <= key {
      ChainAccept(w[0], |w|);
      assert |w| == |key| ==> w == key;
    }
    forall r: nat | Matches(r, bol, w) ensures 0 < Accept(IdState(w)) <= r {
      FirstChar(r, bol, w);
    }
  }

  lemma NumberAccept(w: string)
    requires w != ""
    ensures Accept(NumberState(w)) == 2
  {
    if BeginsDate(w) {
      DateAccept(|w|);
    }
  }

  lemma DateAccept(n: nat)
    requires 1 <= n <= 14
    ensures Accept(DateState(n)) == 2
  {
  }

  lemma OtherWordAccept(bol: bool, w: string)
    requires w != "" && IsNameChar(w[0]) && !IsId(w)
    ensures IsFirstRule(Accept(WordState(w)), bol, w)
  {
    WordKinds(w);
    RangeRule(bol, w);
    OidRule(bol, w);
    DigitsOfDate(w);
    if All(IsDigit, w) {
      NumberAccept(w);
    }
    forall r: nat | Matches(r, bol, w) ensures 0 < Accept(WordState(w)) <= r {
      NumberRules(r, bol, w);
    }
  }

  /** The state of a text accepts the first rule that matches it. */
  lemma TextAccept(bol: bool, w: string)
    ensures IsFirstRule(Accept(StateFor(bol, w)), bol, w)
  {
    var rule := Accept(StateFor(bol, w));
    if w != "" && IsNameChar(w[0]) {
      if IsId(w) {
        IdAccept(bol, w);
      } else {
        OtherWordAccept(bol, w);
      }
    } else {
      forall r: nat | Matches(r, bol, w) ensures 0 < rule <= r {
        FirstChar(r, bol, w);
      }
    }
  }

  // ------------------------------------------------------------------ the automaton follows the rules

  /** An automaton that follows a function of the text from one character to the next is always in its state. */
  lemma {:induction false} RunFollows(d: Dfa, f: string -> int, w: string, n: nat)
    requires NulFree(w) && n <= |w|
    requires forall v: string, c {:trigger f(v + [c])} :: IsText(c) ==> d.Step(f(v), c) == f(v + [c])
    ensures d.RunTo(f(""), w, n) == f(w[..n])
  {
    if n == 0 {
      assert w[..0] == "";
    } else {
      RunFollows(d, f, w, n - 1);
      assert w[..n] == w[..n - 1] + [w[n - 1]];
    }
  }

  lemma TablesStep(d: Dfa, bol: bool, w: string, c: char)
    requires IsTables(d) && IsText(c)
    ensures d.Step(StateFor(bol, w), c) == StateFor(bol, w + [c])
  {
    TextStep(bol, w, c);
  }

  /** After n characters, the automaton is in the state of these characters. */
  lemma ReadsTo(d: Dfa, bol: bool, w: string, n: nat)
    requires IsTables(d) && NulFree(w) && n <= |w|
    ensures d.RunTo(d.Start(bol), w, n) == StateFor(bol, w[..n])
  {
    ghost var f := v => StateFor(bol, v);
    forall v: string, c | IsText(c) ensures d.Step(f(v), c) == f(v + [c]) {
      TablesStep(d, bol, v, c);
    }
    RunFollows(d, f, w, n);
  }

  lemma StateBound(bol: bool, w: string)
    ensures 1 <= StateFor(bol, w) <= STATES
  {
    TextStep(bol, w, ' ');
  }

  /** For every text, the generated tables accept the first rule of the rule file that matches it, or none. */
  lemma TablesFollowRules(d: Dfa, bol: bool, w: string, n: nat)
    requires IsTables(d) && NulFree(w) && n <= |w|
    ensures IsFirstRule(d.Accept(d.RunTo(d.Start(bol), w, n)), bol, w[..n])
  {
    ReadsTo(d, bol, w, n);
    TextAccept(bol, w[..n]);
    StateBound(bol, w[..n]);
  }

  lemma {:induction false} MaxAcceptIsAccepted(d: Dfa, q: int, w: string, n: nat)
    requires n <= |w| && d.MaxAccept(q, w, n) > 0
    ensures d.Accept(d.RunTo(q, w, d.MaxAccept(q, w, n))) != 0
  {
    if d.Accept(d.RunTo(q, w, n)) != 0 {
    } else {
      MaxAcceptIsAccepted(d, q, w, n - 1);
    }
  }

  /**
    What flex promises: the scanner takes the longest beginning of the text that matches any rule, and of the rules that
    match it the first.
    */
  lemma LongestMatchFirstRule(d: Dfa, bol: bool, s: string)
    requires IsTables(d) && NulFree(s) && s != ""
    ensures var n := d.Longest(bol, s);
            && 1 <= n <= |s| && 0 < d.RuleOf(bol, s) && IsFirstRule(d.RuleOf(bol, s), bol, s[..n])
            && forall m, r: nat :: n < m <= |s| ==> !Matches(r, bol, s[..m])
  {
    var q, n := d.Start(bol), d.Longest(bol, s);
    TablesWellFormed(d);
    LongestPositive(d, bol, s, |s|);
    MaxAcceptIsAccepted(d, q, s, |s|);
    TablesFollowRules(d, bol, s, n);
    forall m, r: nat | n < m <= |s| ensures !Matches(r, bol, s[..m]) {
      TablesFollowRules(d, bol, s, m);
      if d.Accept(d.RunTo(q, s, m)) != 0 {
        MaxAcceptIsLongest(d, q, s, |s|, m);
      }
    }
  }

  /** Every turn of the scanner fires the first of the rules that match the longest beginning of the unread text. */
  lemma EventFollowsRules(d: Dfa, c: Config)
    requires IsTables(d) && Ready(d, c) && c.unread != ""
    ensures var n, r := d.Longest(c.bol, c.unread), d.RuleOf(c.bol, c.unread);
            && 1 <= n <= |c.unread| && Next(d, c) == Act(r, c.more + c.unread[..n], c.unread[n..])
            && 0 < r && IsFirstRule(r, c.bol, c.unread[..n])
            && forall m, other: nat :: n < m <= |c.unread| ==> !Matches(other, c.bol, c.unread[..m])
  {
    LongestMatchFirstRule(d, c.bol, c.unread);
  }
}
