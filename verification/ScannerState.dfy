/**
  The state of the buffered scanner of cmd/crlutil/crlgen_lex.c as a value, and what its
  elementary steps do to the text it stands for.
  */
module ScannerState {
  import opened Characters
  import opened Tokenizer
  import opened Matching
  import opened Options
  import opened Sequences

  // YY_BUFFER_NEW, YY_BUFFER_NORMAL, YY_BUFFER_EOF_PENDING
  datatype BufferStatus = New | Normal | EofPending

  // EOB_ACT_CONTINUE_SCAN, EOB_ACT_LAST_MATCH, EOB_ACT_END_OF_FILE
  datatype EobAction = ContinueScan | LastMatch | EndOfFile

  datatype Pending = Broken | Scanning(more: string, s: string)

  /**
    chars: yy_ch_buf; size: yy_buf_size, which leaves out the room for the two sentinels; bufChars: yy_n_chars
    of the buffer record; n: the global yy_n_chars; file: the bytes PR_Read has yet to return.
    */
  datatype Input = Input(chars: string, size: nat, bufChars: nat, n: nat, status: BufferStatus, file: string)
  {
    /** The buffer has room for the characters read and the two sentinels. */
    ghost predicate Room() {
      2 <= size && |chars| == size + 2 && n <= size
    }

    ghost predicate Sealed() {
      Room() && chars[n] == NUL && chars[n + 1] == NUL
    }

    ghost predicate Source() {
      && NulFree(file)
      && (status == EofPending ==> file == "")
      && (status == New ==> bufChars == n)
    }

    /** In the middle of a token that starts at `base`: the kept text just before it, and all the text from there on. */
    ghost function Pending(base: nat, moreLen: nat): Pending {
      if Sealed() && Source() && moreLen <= base <= n then
        Scanning(chars[base - moreLen..base], chars[base..n] + file)
      else
        Broken
    }

    /** A new buffer counts as a normal one once its end was reached. */
    ghost function Reached(): Input {
      if status == New then this.(status := Normal) else this
    }

    /**
      yy_get_next_buffer: the pending text from `text` on is kept byte for byte, exactly the bytes read are appended,
      and both sentinels are restored. The result is its return value if u is the buffer it leaves, and None if not.
      */
    ghost function NextBuffer(text: nat, moreLen: nat, added: string, u: Input): Option<EobAction> {
      var r := if file != "" then ContinueScan else if n - text == moreLen then EndOfFile else LastMatch;
      if text <= n <= |chars| && file == added + u.file && (added == "" <==> file == "") && u.Sealed()
        && (r != EndOfFile ==>
              && u.status == (if r == LastMatch then EofPending else status)
              && u.bufChars == |added| && u.n == n - text + |added| && u.chars[..u.n] == chars[text..n] + added)
      then Some(r) else None
    }
  }

  datatype Taken = NotTaken | Token(yytext: string, unread: string, moreLen: nat)

  /** The token of k characters of s, with the kept text before it. */
  ghost function TokenOf(more: string, s: string, k: nat): Taken
    requires k <= |s|
  {
    Token(more + s[..k], s[k..], |more|)
  }

  /** pos: yy_c_buf_p; text: yytext_ptr; hold: yy_hold_char. */
  datatype View = View(inp: Input, pos: nat, text: nat, hold: char, moreFlag: bool, moreLen: nat, bol: bool)
  {
    /** Between tokens: the character at `pos` is in `hold`. */
    ghost predicate Held() {
      && inp.Room() && inp.Source() && pos <= inp.n
      && (if pos == inp.n then hold == NUL else IsText(hold) && inp.chars[inp.n] == NUL)
      && inp.chars[inp.n + 1] == NUL
      && (pos < inp.n ==> NulFree(inp.chars[pos + 1..inp.n]))
      && (moreFlag ==> text <= pos)
    }

    ghost function Unread(): string
      requires Held()
    {
      (if pos < inp.n then [hold] + inp.chars[pos + 1..inp.n] else "") + inp.file
    }

    ghost function MoreText(): string
      requires Held()
    {
      if moreFlag then inp.chars[text..pos] else ""
    }

    /** What the rest of the scan depends on; None if the scanner is not between tokens. */
    ghost function State(): Option<Config> {
      if Held() then Some(Config(Unread(), bol, MoreText())) else None
    }

    /** yytext; None if `text` is not before `pos`. */
    ghost function Yytext(): Option<string> {
      if text <= pos <= |inp.chars| then Some(inp.chars[text..pos]) else None
    }

    /** yytext as input() leaves it: a NUL stands where the character returned was. */
    ghost function Shown(): Option<string> {
      if text < pos <= |inp.chars| && inp.chars[pos - 1] == NUL then Some(inp.chars[text..pos - 1]) else None
    }

    /** Right after YY_DO_BEFORE_ACTION: yytext, and the text behind it. */
    ghost function Taken(): Taken {
      if Held() && !moreFlag && text <= pos && inp.chars[pos] == NUL then
        Token(inp.chars[text..pos], Unread(), moreLen)
      else
        NotTaken
    }

    /**
      In the middle of a token that starts at `base`: the automaton has run over the text up to `pos` without coming to
      a stop, and the result is what is being scanned.
      */
    ghost function Midway(d: Dfa, base: nat, run: Run, before: Run): Pending {
      var p := inp.Pending(base, moreLen);
      if p.Scanning? && NulFree(p.s) && !moreFlag && base <= pos <= inp.n
        && run == Scan(d, d.Start(bol), p.s, pos - base, base, before) && !d.Stop(run.state)
      then p else Broken
    }

    /** The start of the yylex loop undoes YY_DO_BEFORE_ACTION of the previous token. */
    ghost function Begun(): View
      requires pos < |inp.chars| && (moreFlag ==> text <= pos)
    {
      var restored := inp.(chars := inp.chars[pos := hold]);
      this.(inp := restored, moreFlag := false, moreLen := if moreFlag then pos - text else 0)
    }

    ghost function Restored(): View
      requires pos < |inp.chars|
    {
      this.(inp := inp.(chars := inp.chars[pos := hold]))
    }

    /** input(), once the character is in the buffer: it is returned, and replaced by NUL to end yytext there. */
    ghost function Consumed(): View
      requires pos + 1 < |inp.chars|
    {
      var ended := inp.(chars := inp.chars[pos := NUL]);
      this.(inp := ended, pos := pos + 1, hold := inp.chars[pos + 1], bol := hold == '\n')
    }

    /** unput(c), after the buffer was shifted up to end at its capacity if less than two characters precede `pos`. */
    ghost function Shifted(chars: string): View
      requires inp.Room()
    {
      if pos >= 2 then this.(inp := inp.(chars := chars))
      else
        var d := inp.size - inp.n;
        var full := Input(chars, inp.size, inp.size, inp.size, inp.status, inp.file);
        View(full, pos + d, text + d, hold, moreFlag, moreLen, bol)
    }

    ghost function Pushed(c: char): View
      requires 1 <= pos <= |inp.chars|
    {
      this.(inp := inp.(chars := inp.chars[pos - 1 := c]), pos := pos - 1, hold := c)
    }

    /** YY_DO_BEFORE_ACTION */
    ghost function WithText(base: nat, cp: nat): View
      requires moreLen <= base && cp < |inp.chars|
    {
      this.(inp := inp.(chars := inp.chars[cp := NUL]), text := base - moreLen, hold := inp.chars[cp], pos := cp)
    }
  }

  /** The buffer from `base` on, as the automaton sees it. */
  lemma ScanWindow(v: Input, base: nat, k: nat, s: string)
    requires v.Pending(base, k).Scanning? && v.Pending(base, k).s == s
    ensures base <= v.n <= base + |s| && v.chars[base..v.n + 2] == Window(s, v.n - base)
  {
  }

  lemma PendingText(v: Input, base: nat, k: nat, s: string, end: nat)
    requires v.Pending(base, k).Scanning? && v.Pending(base, k).s == s && base <= end <= v.n
    ensures v.n <= base + |s| && v.chars[base..end] == s[..end - base]
  {
  }

  /** The matching loop can go on at `pos`, and its sentinels will stop it. */
  lemma MidwayMatch(v: View, d: Dfa, base: nat, run: Run, before: Run, more: string, s: string)
    requires d.WellFormed() && v.Midway(d, base, run, before) == Scanning(more, s)
    ensures base <= v.pos <= v.inp.n <= base + |s| && v.inp.n + 2 <= |v.inp.chars|
    ensures v.inp.chars[base..v.inp.n + 2] == Window(s, v.inp.n - base)
    ensures Fenced(d, d.Start(v.bol), s, v.inp.n - base, base, before)
    ensures run == Scan(d, d.Start(v.bol), Window(s, v.inp.n - base), v.pos - base, base, before) && !d.Stop(run.state)
  {
    ScanWindow(v.inp, base, v.moreLen, s);
    InWindow(d, v.bol, s, v.inp.n - base, v.pos - base, base, before);
  }

  /** All of the text was matched: the longest match is found. */
  lemma MidwayEnd(v: View, d: Dfa, base: nat, run: Run, before: Run, more: string, s: string)
    requires d.WellFormed() && v.Midway(d, base, run, before) == Scanning(more, s)
    requires v.pos == v.inp.n && v.inp.file == "" && s != ""
    ensures FindAction(d, run, v.inp.n) == Action(base + d.Longest(v.bol, s), d.RuleOf(v.bol, s))
    ensures base + d.Longest(v.bol, s) <= v.inp.n
  {
    assert v.inp.n == base + |s|;
    FoundIsLongest(d, v.bol, s, s, |s|, base, before);
  }

  /** The automaton was run again over the text before `pos`, and comes out where it was. */
  lemma MidwayAgain(v: View, d: Dfa, base: nat, run: Run, before: Run, more: string, s: string)
    requires v.inp.Pending(base, v.moreLen) == Scanning(more, s) && NulFree(s) && !v.moreFlag
    requires base <= v.pos <= v.inp.n
    requires v.pos - base <= |s| && run == Scan(d, d.Start(v.bol), s, v.pos - base, base, before)
    requires !d.Stop(d.RunTo(d.Start(v.bol), s, v.pos - base))
    ensures v.Midway(d, base, run, before) == Scanning(more, s)
  {
    ScanTracks(d, d.Start(v.bol), s, v.pos - base, base, before);
  }

  lemma UnreadNulFree(v: View, c: Config)
    requires v.State() == Some(c)
    ensures NulFree(c.unread)
  {
    if v.pos < v.inp.n {
      var rest := v.inp.chars[v.pos + 1..v.inp.n];
      assert c.unread == ([v.hold] + rest) + v.inp.file;
    }
  }

  /** The start of the yylex loop: what is scanned is the unread text, with the kept text before it. */
  lemma BegunScans(v: View, c: Config)
    requires v.State() == Some(c)
    ensures v.Begun().inp.Pending(v.pos, v.Begun().moreLen) == Scanning(c.more, c.unread)
  {
    var u := v.Begun();
    if v.pos < v.inp.n {
      assert u.inp.chars[v.pos..v.inp.n] == [v.hold] + v.inp.chars[v.pos + 1..v.inp.n];
    } else {
      assert u.inp.chars[v.pos..v.inp.n] == "";
    }
    assert u.inp.chars[v.pos - u.moreLen..v.pos] == c.more;
  }

  // ------------------------------------------------------------------ taking a token

  /** The buffered characters of s from the k-th on, and the rest of the file. */
  lemma SplitText(v: Input, base: nat, moreLen: nat, k: nat, more: string, s: string)
    requires v.Pending(base, moreLen) == Scanning(more, s) && base + k <= v.n
    ensures k <= |s| && s[..k] == v.chars[base..base + k] && s[k..] == v.chars[base + k..v.n] + v.file
    ensures more == v.chars[base - moreLen..base]
  {
    var front, rest := v.chars[base..base + k], v.chars[base + k..v.n];
    assert v.chars[base..v.n] == front + rest;
    assert s == front + (rest + v.file);
  }

  /** The character at cp is held, and a NUL stands in its place. */
  lemma HeldAt(v: View, base: nat, cp: nat, rest: string)
    requires v.inp.Sealed() && v.inp.Source() && !v.moreFlag && v.moreLen <= base && base <= cp <= v.inp.n
    requires rest == v.inp.chars[cp..v.inp.n] && NulFree(rest)
    ensures v.WithText(base, cp).State() == Some(Config(rest + v.inp.file, v.bol, ""))
  {
    var u := v.WithText(base, cp);
    if cp < v.inp.n {
      var tail := u.inp.chars[cp + 1..v.inp.n];
      assert rest == [v.inp.chars[cp]] + tail;
      NulFreeParts([v.inp.chars[cp]], tail);
      assert IsText(rest[0]);
    }
  }

  lemma CutText(c: string, text: nat, base: nat, cp: nat)
    requires text <= base <= cp < |c|
    ensures c[cp := NUL][text..cp] == c[text..base] + c[base..cp] && c[cp := NUL][cp] == NUL
  {
  }

  lemma TokenTaken(v: View, base: nat, k: nat, more: string, s: string)
    requires v.inp.Pending(base, v.moreLen) == Scanning(more, s) && NulFree(s) && base + k <= v.inp.n && !v.moreFlag
    ensures k <= |s| && v.WithText(base, base + k).Taken() == TokenOf(more, s, k)
  {
    SplitText(v.inp, base, v.moreLen, k, more, s);
    var rest := v.inp.chars[base + k..v.inp.n];
    assert s == s[..k] + s[k..];
    NulFreeParts(s[..k], s[k..]);
    NulFreeParts(rest, v.inp.file);
    HeldAt(v, base, base + k, rest);
    CutText(v.inp.chars, base - v.moreLen, base, base + k);
  }

  // ------------------------------------------------------------------ the next buffer

  /** The text in the next buffer: the kept text, what was matched, and what was read. */
  lemma NextBufferText(v: Input, base: nat, k: nat, added: string, u: Input, r: EobAction)
    requires k <= base <= v.n && v.NextBuffer(base - k, k, added, u) == Some(r) && r != EndOfFile
    ensures k <= u.n <= |u.chars| && u.chars[0..k] == v.chars[base - k..base]
    ensures u.chars[k..u.n] == v.chars[base..v.n] + added
  {
    var more, rest := v.chars[base - k..base], v.chars[base..v.n];
    assert v.chars[base - k..v.n] == more + rest;
    assert u.chars[0..k] == u.chars[..u.n][..k] == (more + rest + added)[..k];
    assert u.chars[k..u.n] == u.chars[..u.n][k..] == (more + rest + added)[k..];
  }

  /** The whole buffer was matched: getting the next buffer keeps what is being scanned. */
  lemma NextBufferScans(v: Input, base: nat, k: nat, more: string, s: string, r: EobAction, added: string, u: Input)
    requires v.Pending(base, k) == Scanning(more, s) && v.Reached().NextBuffer(base - k, k, added, u) == Some(r)
    ensures r == EndOfFile <==> s == ""
    ensures r != EndOfFile ==> u.Pending(k, k) == Scanning(more, s) && u.status != New
    ensures r != EndOfFile ==> v.n - base <= |s| && k + (v.n - base) <= u.n
    ensures r == ContinueScan ==> |u.file| < |v.file|
    ensures r == LastMatch ==> u.file == "" && u.n == k + (v.n - base)
  {
    if r != EndOfFile {
      NulFreeParts(added, u.file);
      NextBufferText(v.Reached(), base, k, added, u, r);
      assert v.chars[base..v.n] + (added + u.file) == (v.chars[base..v.n] + added) + u.file;
    }
  }

  // ------------------------------------------------------------------ input() and unput()

  lemma RestoredState(v: View)
    requires v.State().Some?
    ensures v.Restored().State() == v.State() && v.Restored().inp.chars[v.pos] == v.hold
    ensures v.Restored().Yytext() == v.Yytext()
  {
    var u := v.Restored();
    if v.pos < v.inp.n {
      assert u.inp.chars[v.pos + 1..v.inp.n] == v.inp.chars[v.pos + 1..v.inp.n];
    }
    assert v.moreFlag ==> u.inp.chars[v.text..v.pos] == v.inp.chars[v.text..v.pos];
    assert v.text <= v.pos ==> u.inp.chars[v.text..v.pos] == v.inp.chars[v.text..v.pos];
  }

  /** input() removes the head of the unread text and keeps yytext. */
  lemma ConsumedReads(v: View, c: Config)
    requires v.State() == Some(c) && v.pos < v.inp.n && !v.moreFlag
    ensures c.unread != "" && c.unread[0] == v.hold && IsText(v.hold)
    ensures v.Consumed().State() == Some(Config(c.unread[1..], v.hold == '\n', ""))
    ensures v.Consumed().Shown() == v.Yytext()
  {
    var u := v.Consumed();
    var rest := v.inp.chars[v.pos + 1..v.inp.n];
    if rest != "" {
      var tail := u.inp.chars[v.pos + 2..v.inp.n];
      assert rest == [rest[0]] + tail && rest[0] == u.hold;
      NulFreeParts([rest[0]], tail);
    }
    assert c.unread == [v.hold] + (rest + v.inp.file);
    assert v.text <= v.pos ==> u.inp.chars[v.text..v.pos] == v.inp.chars[v.text..v.pos];
  }

  lemma AtBufferEnd(v: View, c: Config)
    requires v.State() == Some(c) && v.pos == v.inp.n && !v.moreFlag
    ensures c == Config(v.inp.file, v.bol, "")
    ensures v.inp.Room() && v.inp.Source()
  {
    assert "" + v.inp.file == v.inp.file;
  }

  /** A buffer that is new or was flushed. */
  lemma EmptyState(v: View)
    requires v.inp.Sealed() && v.inp.Source() && !v.moreFlag && v.pos == v.inp.n && v.hold == NUL
    ensures v.State() == Some(Config(v.inp.file, v.bol, ""))
  {
    assert "" + v.inp.file == v.inp.file;
  }

  /** The character at `pos` is held and still in the buffer. */
  lemma Unmarked(v: View, rest: string)
    requires v.inp.Sealed() && v.inp.Source() && !v.moreFlag && v.pos < v.inp.n && v.hold == v.inp.chars[v.pos]
    requires rest == v.inp.chars[v.pos..v.inp.n] && NulFree(rest)
    ensures v.State() == Some(Config(rest + v.inp.file, v.bol, ""))
  {
    var tail := v.inp.chars[v.pos + 1..v.inp.n];
    assert rest == [v.hold] + tail && IsText(rest[0]);
    NulFreeParts([v.hold], tail);
  }

  /** The end of the buffer was reached between tokens, and more text was read. */
  lemma RefilledReads(v: View, u: View, added: string)
    requires v.State().Some? && v.pos == v.inp.n && v.text <= v.pos && !v.moreFlag
    requires v.inp.status == New ==> v.text == v.pos
    requires v.inp.NextBuffer(v.text, v.moreLen, added, u.inp) == Some(ContinueScan)
    requires u.pos == v.pos - v.text && u.text == 0 && u.hold == u.inp.chars[u.pos] && u.bol == v.bol && !u.moreFlag
    ensures u.State() == v.State() && u.pos < u.inp.n && u.Yytext() == v.Yytext()
  {
    NulFreeParts(added, u.inp.file);
    var kept := v.inp.chars[v.text..v.pos];
    assert u.inp.chars[..u.pos] == (kept + added)[..|kept|] == kept;
    assert u.inp.chars[u.pos..u.inp.n] == (kept + added)[|kept|..] == added;
    Unmarked(u, added);
    assert "" + v.inp.file == v.inp.file;
  }

  lemma PushedChars(chars: string, pos: nat, n: nat, c: char)
    requires 1 <= pos <= n <= |chars|
    ensures chars[pos - 1 := c][pos - 1..n] == [c] + chars[pos..n]
  {
  }

  /** With the held character back in its place, the unread text is that of the buffer and of the file. */
  lemma UnreadInPlace(v: View)
    requires v.Held() && v.inp.chars[v.pos] == v.hold
    ensures var rest := v.inp.chars[v.pos..v.inp.n];
            v.inp.Sealed() && v.Unread() == rest + v.inp.file && NulFree(rest)
  {
    if v.pos < v.inp.n {
      assert v.inp.chars[v.pos..v.inp.n] == [v.hold] + v.inp.chars[v.pos + 1..v.inp.n];
    }
  }

  /** unput(c), with room before `pos`. */
  lemma PushedState(v: View, c: char)
    requires v.State().Some? && 1 <= v.pos && IsText(c) && !v.moreFlag && v.inp.chars[v.pos] == v.hold
    ensures v.Pushed(c).State() == Some(Config([c] + v.State().value.unread, v.bol, ""))
  {
    var rest := v.inp.chars[v.pos..v.inp.n];
    UnreadInPlace(v);
    PushedChars(v.inp.chars, v.pos, v.inp.n, c);
    Unmarked(v.Pushed(c), [c] + rest);
    Assoc([c], rest, v.inp.file);
  }

  /** Shifting the buffer up changes no unread text. */
  lemma ShiftedState(v: View, chars: string)
    requires v.State().Some? && v.inp.chars[v.pos] == v.hold && !v.moreFlag && |chars| == v.inp.size + 2
    requires if v.pos >= 2 then chars == v.inp.chars else chars[v.inp.size - v.inp.n..] == v.inp.chars[..v.inp.n + 2]
    ensures v.Shifted(chars).State() == v.State() && chars[v.Shifted(chars).pos] == v.hold
  {
    if v.pos < 2 {
      var d, b := v.inp.size - v.inp.n, v.inp.chars;
      MovedUp(chars, b, d, v.inp.n + 2, v.pos, v.inp.n);
      assert chars[v.inp.size] == chars[d..][v.inp.n] && chars[v.inp.size + 1] == chars[d..][v.inp.n + 1];
      assert chars[v.pos + d] == chars[d..][v.pos];
    }
  }

  lemma MovedUp(chars: string, b: string, d: nat, m: nat, pos: nat, n: nat)
    requires d <= |chars| && m <= |b| && chars[d..] == b[..m] && pos <= n < m
    ensures pos < n ==> chars[pos + d + 1..n + d] == b[pos + 1..n]
  {
    forall i | d <= i < d + m ensures chars[i] == b[i - d] {
      assert chars[i] == chars[d..][i - d] == b[..m][i - d];
    }
  }

  /** unput(c) puts c in front of the unread text, with or without a shift. */
  lemma PushedBack(v: View, chars: string, c: char)
    requires v.State().Some? && IsText(c) && !v.moreFlag && |chars| == v.inp.size + 2
    requires if v.pos >= 2 then chars == v.Restored().inp.chars
             else chars[v.inp.size - v.inp.n..] == v.Restored().inp.chars[..v.inp.n + 2]
    ensures var u := v.Restored().Shifted(chars);
            u.pos >= 2 ==> u.Pushed(c).State() == Some(Config([c] + v.State().value.unread, v.bol, ""))
  {
    RestoredState(v);
    ShiftedState(v.Restored(), chars);
    var u := v.Restored().Shifted(chars);
    if u.pos >= 2 {
      PushedState(u, c);
    }
  }
}
