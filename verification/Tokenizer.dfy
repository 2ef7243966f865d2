/**
  The reference tokenizer for CRL generation scripts (cmd/crlutil/crlgen_lex.c):
  longest match over the whole script held in one sequence. The generated tables
  are abstracted to a transition function and an accept function.

  Characters stand for the bytes of the script.
  */
module Tokenizer {
  import opened Characters
  import opened Options

  // Accept code of the end-of-buffer state (YY_END_OF_BUFFER).
  const END_OF_BUFFER: nat := 18
  // The rule for a text that opens with a double quote.
  const QUOTED: nat := 11
  // What unput(EOF) pushes back: (char)-1.
  const EOF_BYTE: char := '\U{FF}'

  /** A byte other than the sentinel. */
  predicate IsText(c: char) {
    NUL < c <= '\U{FF}'
  }

  ghost predicate NulFree(s: string) {
    forall i :: 0 <= i < |s| ==> IsText(s[i])
  }

  lemma NulFreeParts(a: string, b: string)
    requires NulFree(a + b)
    ensures NulFree(a) && NulFree(b)
  {
    forall i | 0 <= i < |a| ensures IsText(a[i]) {
      assert (a + b)[i] == a[i];
    }
    forall i | 0 <= i < |b| ensures IsText(b[i]) {
      assert (a + b)[|a| + i] == b[i];
    }
  }

  /**
    The scanner tables, uncompressed: `next[q][c]` is the transition, `rules` is yy_accept, and
    `stops` marks the states in which the matching loop ends (yy_base[q] == 205). States are
    numbered from 1: row 0 is not used, and like entries the tables do not have it counts as jammed.
    */
  datatype Dfa =
    Dfa(next: seq<seq<int>>, rules: seq<nat>, stops: seq<bool>, first: int, firstAtBol: int, eob: int, jam: int)
  {
    function Step(q: int, c: char): int {
      if 0 < q < |next| && c as int < |next[q]| then next[q][c as int] else jam
    }

    function Accept(q: int): nat {
      if 0 < q < |rules| then rules[q] else 0
    }

    predicate Stop(q: int) {
      0 < q < |stops| ==> stops[q]
    }

    /** yy_start + YY_AT_BOL() */
    function Start(bol: bool): int {
      if bol then firstAtBol else first
    }

    /** What flex guarantees of one row of the table. */
    ghost predicate RowOk(q: nat)
    {
      // the end-of-buffer state is entered on the sentinel only
      && (!Stop(q) && q != eob ==> Step(q, NUL) == eob)
      && (forall c {:trigger Step(q, c)} :: IsText(c) ==>
            && Step(q, c) != eob && Accept(Step(q, c)) != END_OF_BUFFER
            // nothing can be matched beyond a stop state
            && (Stop(q) ==> Stop(Step(q, c)) && Accept(Step(q, c)) == 0)
            // every character starts some token
            && (q == first || q == firstAtBol ==> Accept(Step(q, c)) != 0))
    }

    ghost predicate RowsOk(n: nat) {
      n > 1 ==> RowOk(n - 1) && RowsOk(n - 1)
    }

    /** What flex guarantees of the tables it generates. */
    ghost predicate WellFormed() {
      && RowsOk(|next|) && |stops| <= |next|
      // a start state matches nothing yet
      && 0 < first < |next| && !Stop(first) && Accept(first) == 0 && first != eob
      && 0 < firstAtBol < |next| && !Stop(firstAtBol) && Accept(firstAtBol) == 0 && firstAtBol != eob
      // the second sentinel jams the end-of-buffer state
      && !Stop(eob) && Accept(eob) == END_OF_BUFFER && Step(eob, NUL) == jam
      && Stop(jam) && Accept(jam) == 0
      // the pushed-back end-of-file byte is not itself a quoted string
      && Accept(Step(firstAtBol, EOF_BYTE)) != QUOTED
    }

    /** The state after the first k characters of w. */
    function RunTo(q: int, w: string, k: nat): int
      requires k <= |w|
    {
      if k == 0 then q else Step(RunTo(q, w, k - 1), w[k - 1])
    }

    /** The length of the longest accepted prefix of w of at most n characters, or 0. */
    function MaxAccept(q: int, w: string, n: nat): (m: nat)
      requires n <= |w|
      ensures m <= n
    {
      if n == 0 then 0
      else if Accept(RunTo(q, w, n)) != 0 then n
      else MaxAccept(q, w, n - 1)
    }

    function Longest(bol: bool, s: string): nat {
      MaxAccept(Start(bol), s, |s|)
    }

    function RuleOf(bol: bool, s: string): nat {
      Accept(RunTo(Start(bol), s, Longest(bol, s)))
    }
  }

  lemma {:induction false} RowAt(d: Dfa, n: nat, q: nat)
    requires 0 < q < n && d.RowsOk(n)
    ensures d.RowOk(q)
  {
    if q == n - 1 {
    } else {
      RowAt(d, n - 1, q);
    }
  }

  lemma StepOnText(d: Dfa, q: int, c: char)
    requires d.WellFormed() && IsText(c)
    ensures d.Step(q, c) != d.eob && d.Accept(d.Step(q, c)) != END_OF_BUFFER
    ensures d.Stop(q) ==> d.Stop(d.Step(q, c)) && d.Accept(d.Step(q, c)) == 0
    ensures q == d.first || q == d.firstAtBol ==> d.Accept(d.Step(q, c)) != 0
  {
    if 0 < q < |d.next| {
      RowAt(d, |d.next|, q);
    }
  }

  lemma StepOnSentinel(d: Dfa, q: int)
    requires d.WellFormed() && !d.Stop(q) && q != d.eob
    ensures d.Step(q, NUL) == d.eob
  {
    RowAt(d, |d.next|, q);
  }

  /** MaxAccept is the longest match: nothing longer, up to n, is accepted. */
  lemma {:induction false} MaxAcceptIsLongest(d: Dfa, q: int, w: string, n: nat, k: nat)
    requires 1 <= k <= n <= |w| && d.Accept(d.RunTo(q, w, k)) != 0
    ensures k <= d.MaxAccept(q, w, n) && d.Accept(d.RunTo(q, w, d.MaxAccept(q, w, n))) != 0
  {
    if d.Accept(d.RunTo(q, w, n)) != 0 {
    } else {
      MaxAcceptIsLongest(d, q, w, n - 1, k);
    }
  }

  lemma {:induction false} RunToPrefix(d: Dfa, q: int, w: string, v: string, k: nat)
    requires k <= |w| && k <= |v|
    requires forall i :: 0 <= i < k ==> w[i] == v[i]
    ensures d.RunTo(q, w, k) == d.RunTo(q, v, k)
  {
    if k == 0 {
    } else {
      RunToPrefix(d, q, w, v, k - 1);
    }
  }

  lemma {:induction false} MaxAcceptPrefix(d: Dfa, q: int, w: string, v: string, k: nat)
    requires k <= |w| && k <= |v|
    requires forall i :: 0 <= i < k ==> w[i] == v[i]
    ensures d.MaxAccept(q, w, k) == d.MaxAccept(q, v, k)
  {
    RunToPrefix(d, q, w, v, k);
    if k == 0 {
    } else {
      MaxAcceptPrefix(d, q, w, v, k - 1);
    }
  }

  /** Once a stop state is reached the longest match is decided. */
  lemma {:induction false} StopDecides(d: Dfa, q: int, w: string, k: nat, n: nat)
    requires d.WellFormed() && NulFree(w)
    requires k <= n <= |w| && d.Stop(d.RunTo(q, w, k))
    ensures d.Stop(d.RunTo(q, w, n))
    ensures d.MaxAccept(q, w, n) == d.MaxAccept(q, w, k)
  {
    if k == n {
    } else {
      StopDecides(d, q, w, k, n - 1);
      StepOnText(d, d.RunTo(q, w, n - 1), w[n - 1]);
    }
  }

  /** Every non-empty text has a non-empty longest match. */
  lemma {:induction false} LongestPositive(d: Dfa, bol: bool, s: string, n: nat)
    requires d.WellFormed() && NulFree(s) && 1 <= n <= |s|
    ensures 1 <= d.MaxAccept(d.Start(bol), s, n)
  {
    assert d.RunTo(d.Start(bol), s, 1) == d.Step(d.RunTo(d.Start(bol), s, 0), s[0]);
    StepOnText(d, d.Start(bol), s[0]);
    MaxAcceptIsLongest(d, d.Start(bol), s, n, 1);
  }

  /** The longest match depends on the characters up to a stop state only. */
  lemma LongestFromStop(d: Dfa, bol: bool, w: string, s: string, k: nat)
    requires d.WellFormed() && NulFree(s) && 1 <= k <= |s| && k <= |w|
    requires forall i :: 0 <= i < k ==> w[i] == s[i]
    requires d.Stop(d.RunTo(d.Start(bol), w, k)) || k == |s|
    ensures 1 <= d.Longest(bol, s) == d.MaxAccept(d.Start(bol), w, k)
    ensures d.RunTo(d.Start(bol), w, d.Longest(bol, s)) == d.RunTo(d.Start(bol), s, d.Longest(bol, s))
  {
    var q := d.Start(bol);
    RunToPrefix(d, q, w, s, k);
    MaxAcceptPrefix(d, q, w, s, k);
    LongestPositive(d, bol, s, k);
    if d.Stop(d.RunTo(q, w, k)) {
      StopDecides(d, q, s, k, |s|);
    }
    RunToPrefix(d, q, w, s, d.Longest(bol, s));
  }

  lemma RuleIsNotEndOfBuffer(d: Dfa, bol: bool, s: string)
    requires d.WellFormed() && NulFree(s) && s != ""
    ensures d.RuleOf(bol, s) != END_OF_BUFFER
  {
    LongestPositive(d, bol, s, |s|);
    var m := d.Longest(bol, s);
    StepOnText(d, d.RunTo(d.Start(bol), s, m - 1), s[m - 1]);
  }

  /** What input() found after a quoted text: not called, a character, or the end of the script. */
  datatype Following = NotRead | Found(c: char) | AtEnd

  /** One fired rule with its yytext; `following` is used by rule QUOTED only. */
  datatype Event = Event(rule: nat, text: string, following: Following)

  /** What the rest of a scan depends on: unread text, beginning-of-line flag, text kept by yymore. */
  datatype Config = Config(unread: string, bol: bool, more: string)

  ghost predicate Ready(d: Dfa, c: Config) {
    d.WellFormed() && NulFree(c.unread)
  }

  /** Decreases with every token, also when the end of the script inside a quoted text pushes a byte back. */
  function Size(c: Config): nat {
    if c.unread == "" then 0
    else if c.unread == [EOF_BYTE] && c.bol then 1
    else |c.unread| + 1
  }

  /** What input() returns when s is unread, and what it leaves. */
  function First(s: string): Option<char> {
    if s == "" then None else Some(s[0])
  }

  function BehindFirst(s: string): Config {
    if s == "" then Config("", true, "") else Config(s[1..], s[0] == '\n', "")
  }

  /**
    The action of a rule as far as it moves the scanner: a quoted text ending in a backslash is kept for the
    next token; any other quoted text asks for one more character, which is put back unless it is the
    closing quote.
    */
  function Act(rule: nat, text: string, rest: string): (Event, Config)
    requires text != ""
  {
    var last := text[|text| - 1];
    if rule != QUOTED then (Event(rule, text, NotRead), Config(rest, last == '\n', ""))
    else if last == '\\' then (Event(rule, text, NotRead), Config(rest, false, text))
    else if rest == "" then (Event(rule, text, AtEnd), Config([EOF_BYTE], true, ""))
    else if rest[0] == '\"' then (Event(rule, text, Found(rest[0])), Config(rest[1..], false, ""))
    else (Event(rule, text, Found(rest[0])), Config(rest, rest[0] == '\n', ""))
  }

  /** What becomes of a quoted text that does not end in a backslash. */
  lemma ActQuoted(text: string, rest: string)
    requires text != "" && text[|text| - 1] != '\\'
    ensures Act(QUOTED, text, rest) ==
            if rest == "" then (Event(QUOTED, text, AtEnd), Config([EOF_BYTE] + "", true, ""))
            else if rest[0] == '\"' then (Event(QUOTED, text, Found(rest[0])), Config(rest[1..], false, ""))
            else (Event(QUOTED, text, Found(rest[0])), Config([rest[0]] + rest[1..], rest[0] == '\n', ""))
  {
    assert [EOF_BYTE] + "" == [EOF_BYTE];
    assert rest != "" ==> [rest[0]] + rest[1..] == rest;
  }

  /** One token: the longest match at the start of the unread text. */
  function Next(d: Dfa, c: Config): (Event, Config)
    requires Ready(d, c) && c.unread != ""
  {
    LongestPositive(d, c.bol, c.unread, |c.unread|);
    var n := d.Longest(c.bol, c.unread);
    Act(d.RuleOf(c.bol, c.unread), c.more + c.unread[..n], c.unread[n..])
  }

  /** The end-of-file byte, at the beginning of a line, is a token of its own that is not a quoted text. */
  lemma EofByteToken(d: Dfa)
    requires d.WellFormed()
    ensures d.Longest(true, [EOF_BYTE]) == 1 && d.RuleOf(true, [EOF_BYTE]) != QUOTED
  {
    LongestPositive(d, true, [EOF_BYTE], 1);
    assert d.RunTo(d.Start(true), [EOF_BYTE], 1) == d.Step(d.RunTo(d.Start(true), [EOF_BYTE], 0), EOF_BYTE);
  }

  lemma ActShrinks(rule: nat, text: string, rest: string)
    requires text != "" && NulFree(rest)
    ensures var c := Act(rule, text, rest).1;
            NulFree(c.unread) && Size(c) <= |rest| + 1 && (rule != QUOTED && rest == "" ==> Size(c) == 0)
  {
  }

  /** Scanning goes on: the next configuration is well formed and smaller. */
  lemma NextShrinks(d: Dfa, c: Config)
    requires Ready(d, c) && c.unread != ""
    ensures Ready(d, Next(d, c).1) && Size(Next(d, c).1) < Size(c)
  {
    LongestPositive(d, c.bol, c.unread, |c.unread|);
    var n := d.Longest(c.bol, c.unread);
    var rest := c.unread[n..];
    NulFreeParts(c.unread[..n], rest);
    assert c.unread[..n] + rest == c.unread;
    ActShrinks(d.RuleOf(c.bol, c.unread), c.more + c.unread[..n], rest);
    if c.unread == [EOF_BYTE] && c.bol {
      EofByteToken(d);
    }
  }

  /** The rules fired for a whole script, with their texts. */
  function Tokens(d: Dfa, c: Config): seq<Event>
    requires Ready(d, c)
    decreases Size(c)
  {
    if c.unread == "" then []
    else
      NextShrinks(d, c);
      [Next(d, c).0] + Tokens(d, Next(d, c).1)
  }
}
