/**
  One run of the scanner's automaton over buffered text (yy_match, yy_get_previous_state and
  yy_find_action of cmd/crlutil/crlgen_lex.c), and why it finds the longest match of the whole text
  although it sees only the buffered part of it and the two sentinels.
  */
module Matching {
  import opened Characters
  import opened Tokenizer

  /** The current state, and the last accepting state with its position (yy_last_accepting_*). */
  datatype Run = Run(state: int, lastState: int, lastPos: nat)

  /** The automaton over the first k characters of w, which stands at `base`; `before` holds leftovers. */
  function Scan(d: Dfa, q: int, w: string, k: nat, base: nat, before: Run): Run
    requires k <= |w|
  {
    if k == 0 then before.(state := q)
    else Advance(d, Scan(d, q, w, k - 1, base, before), base + k - 1, w[k - 1])
  }

  /** One iteration of the matching loops, at position cp. */
  function Advance(d: Dfa, r: Run, cp: nat, c: char): Run {
    if d.Accept(r.state) != 0 then Run(d.Step(r.state, c), r.state, cp)
    else r.(state := d.Step(r.state, c))
  }

  /** Where a match ends, and its accept code. */
  datatype Action = Action(at: nat, rule: nat)

  /** yy_find_action: backs up to the last accepting state if need be. */
  function FindAction(d: Dfa, r: Run, cp: nat): Action {
    if d.Accept(r.state) != 0 then Action(cp, d.Accept(r.state)) else Action(r.lastPos, d.Accept(r.lastState))
  }

  lemma {:induction false} ScanPrefix(d: Dfa, q: int, w: string, v: string, k: nat, base: nat, before: Run)
    requires k <= |w| && k <= |v|
    requires forall i :: 0 <= i < k ==> w[i] == v[i]
    ensures Scan(d, q, w, k, base, before) == Scan(d, q, v, k, base, before)
  {
    if k == 0 {
    } else {
      ScanPrefix(d, q, w, v, k - 1, base, before);
    }
  }

  /** The run knows the longest accepted prefix before its last character. */
  lemma {:induction false} ScanTracks(d: Dfa, q: int, w: string, k: nat, base: nat, before: Run)
    requires k <= |w|
    ensures var r := Scan(d, q, w, k, base, before);
            && r.state == d.RunTo(q, w, k)
            && var m := if k == 0 then 0 else d.MaxAccept(q, w, k - 1);
            && (m > 0 ==> r.lastPos == base + m && r.lastState == d.RunTo(q, w, m))
  {
    if k == 0 {
    } else {
      ScanTracks(d, q, w, k - 1, base, before);
    }
  }

  lemma ScanFinds(d: Dfa, q: int, w: string, k: nat, base: nat, before: Run)
    requires k <= |w| && 0 < d.MaxAccept(q, w, k)
    ensures var m := d.MaxAccept(q, w, k);
            FindAction(d, Scan(d, q, w, k, base, before), base + k) == Action(base + m, d.Accept(d.RunTo(q, w, m)))
  {
    ScanTracks(d, q, w, k, base, before);
  }

  /** The first n characters of s, and the two sentinels behind them. */
  function Window(s: string, n: nat): string
    requires n <= |s|
  {
    s[..n] + [NUL, NUL]
  }

  /**
    If the automaton survives n characters, the first sentinel takes it to the end-of-buffer state and the second jams
    it.
    */
  lemma SentinelsFence(d: Dfa, bol: bool, s: string, n: nat)
    requires d.WellFormed() && NulFree(s) && n <= |s| && !d.Stop(d.RunTo(d.Start(bol), s, n))
    ensures var w := Window(s, n);
            d.RunTo(d.Start(bol), w, n) == d.RunTo(d.Start(bol), s, n)
            && d.RunTo(d.Start(bol), w, n + 1) == d.eob && d.RunTo(d.Start(bol), w, n + 2) == d.jam
  {
    var w := Window(s, n);
    var q := d.RunTo(d.Start(bol), s, n);
    RunToPrefix(d, d.Start(bol), w, s, n);
    if n > 0 {
      StepOnText(d, d.RunTo(d.Start(bol), s, n - 1), s[n - 1]);
    }
    StepOnSentinel(d, q);
    assert d.RunTo(d.Start(bol), w, n + 1) == d.Step(q, w[n]);
    assert d.RunTo(d.Start(bol), w, n + 2) == d.Step(d.eob, w[n + 1]);
  }

  /** Matching in the window stops at the second sentinel at the latest. */
  ghost predicate Fenced(d: Dfa, q: int, s: string, n: nat, base: nat, before: Run)
    requires n <= |s|
  {
    var w := Window(s, n);
    && (!d.Stop(Scan(d, q, w, n, base, before).state) ==>
          && !d.Stop(Scan(d, q, w, n + 1, base, before).state)
          && d.Stop(Scan(d, q, w, n + 2, base, before).state))
  }

  /** Matching may go on in the window where it stands in s. */
  lemma InWindow(d: Dfa, bol: bool, s: string, n: nat, k: nat, base: nat, before: Run)
    requires d.WellFormed() && NulFree(s) && k <= n <= |s|
    ensures Fenced(d, d.Start(bol), s, n, base, before)
    ensures Scan(d, d.Start(bol), Window(s, n), k, base, before) == Scan(d, d.Start(bol), s, k, base, before)
  {
    var q, w := d.Start(bol), Window(s, n);
    ScanPrefix(d, q, w, s, k, base, before);
    ScanPrefix(d, q, w, s, n, base, before);
    ScanTracks(d, q, s, n, base, before);
    ScanTracks(d, q, w, n + 1, base, before);
    ScanTracks(d, q, w, n + 2, base, before);
    if !d.Stop(Scan(d, q, w, n, base, before).state) {
      SentinelsFence(d, bol, s, n);
    }
  }

  /** What matching n buffered characters of s finds: the end of the buffer, or the longest match of all of s. */
  function Decision(d: Dfa, bol: bool, n: nat, s: string, base: nat): Action
    requires n <= |s|
  {
    if d.Stop(d.RunTo(d.Start(bol), s, n)) then Action(base + d.Longest(bol, s), d.RuleOf(bol, s))
    else Action(base + n + 1, END_OF_BUFFER)
  }

  /** A run that stopped inside the buffer, or has seen all of s, has decided the longest match of s. */
  lemma FoundIsLongest(d: Dfa, bol: bool, w: string, s: string, k: nat, base: nat, before: Run)
    requires d.WellFormed() && NulFree(s) && 1 <= k <= |s| && k <= |w|
    requires forall i :: 0 <= i < k ==> w[i] == s[i]
    requires d.Stop(Scan(d, d.Start(bol), w, k, base, before).state) || k == |s|
    ensures FindAction(d, Scan(d, d.Start(bol), w, k, base, before), base + k)
            == Action(base + d.Longest(bol, s), d.RuleOf(bol, s))
    ensures 1 <= d.Longest(bol, s) <= k && d.RuleOf(bol, s) != END_OF_BUFFER
  {
    var q, m := d.Start(bol), d.Longest(bol, s);
    ScanTracks(d, q, w, k, base, before);
    LongestFromStop(d, bol, w, s, k);
    RuleIsNotEndOfBuffer(d, bol, s);
    assert m == d.MaxAccept(q, w, k) && d.RunTo(q, w, m) == d.RunTo(q, s, m);
    ScanFinds(d, q, w, k, base, before);
  }

  /** A run that survived all of the buffer finds the end of the buffer, one past the first sentinel. */
  lemma FoundIsEndOfBuffer(d: Dfa, bol: bool, s: string, n: nat, base: nat, before: Run)
    requires d.WellFormed() && NulFree(s) && n <= |s| && !d.Stop(d.RunTo(d.Start(bol), s, n))
    ensures FindAction(d, Scan(d, d.Start(bol), Window(s, n), n + 2, base, before), base + n + 2)
            == Action(base + n + 1, END_OF_BUFFER)
  {
    var q, w := d.Start(bol), Window(s, n);
    SentinelsFence(d, bol, s, n);
    assert d.MaxAccept(q, w, n + 2) == d.MaxAccept(q, w, n + 1) == n + 1;
    ScanFinds(d, q, w, n + 2, base, before);
  }

  /** A decision other than the end of the buffer is a token within the buffer. */
  lemma DecisionToken(d: Dfa, bol: bool, n: nat, s: string, base: nat)
    requires d.WellFormed() && NulFree(s) && n <= |s|
    ensures var found := Decision(d, bol, n, s, base);
            && (found.rule == END_OF_BUFFER <==> !d.Stop(d.RunTo(d.Start(bol), s, n)))
            && (found.rule != END_OF_BUFFER ==>
                  1 <= n && found == Action(base + d.Longest(bol, s), d.RuleOf(bol, s)) && 1 <= d.Longest(bol, s) <= n)
  {
    if d.Stop(d.RunTo(d.Start(bol), s, n)) {
      LongestFromStop(d, bol, s, s, n);
      RuleIsNotEndOfBuffer(d, bol, s);
    }
  }

  /** The matching loop, which stopped at cp, finds what it must. */
  lemma MatchDecides(d: Dfa, bol: bool, n: nat, s: string, base: nat, before: Run, run: Run, cp: nat)
    requires d.WellFormed() && NulFree(s) && n <= |s| && base < cp <= base + n + 2
    requires run == Scan(d, d.Start(bol), Window(s, n), cp - base, base, before) && d.Stop(run.state)
    requires cp > base + n ==>
               cp == base + n + 2 && !d.Stop(Scan(d, d.Start(bol), Window(s, n), n, base, before).state)
    ensures FindAction(d, run, cp) == Decision(d, bol, n, s, base)
  {
    var q, w, k := d.Start(bol), Window(s, n), cp - base;
    if k > n {
      ScanPrefix(d, q, w, s, n, base, before);
      ScanTracks(d, q, s, n, base, before);
      FoundIsEndOfBuffer(d, bol, s, n, base, before);
    } else {
      FoundIsLongest(d, bol, w, s, k, base, before);
      ScanTracks(d, q, w, k, base, before);
      RunToPrefix(d, q, w, s, k);
      StopDecides(d, q, s, k, n);
    }
  }
}
