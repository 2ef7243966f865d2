/**
  The buffered scanner of cmd/crlutil/crlgen_lex.c: a sliding, growable buffer with two
  sentinel bytes, a held character, push-back and yymore. Its events are those of the
  reference tokenizer, however the reads split the script.
  */
module Scanner {
  import opened Characters
  import opened Tokenizer
  import opened Matching
  import opened ScannerState
  import opened Options

  const READ_SIZE: nat := 8192

  // How a pass over the buffer ends: with a token, at the end of the script, or with more text in the buffer.
  datatype Outcome = Matched(rule: nat) | Exhausted | Refilled

  /** A slice that stands d places further up. */
  lemma SliceMoved(a: string, b: string, d: nat, n: nat)
    requires |a| == d + n && n <= |b| && forall i :: d <= i < |a| ==> a[i] == b[i - d]
    ensures a[d..] == b[..n]
  {
  }

  class Scanner {
    const dfa: Dfa

    var buf: array<char>
    var bufSize: nat
    var bufChars: nat
    var nChars: nat
    var pos: nat
    var text: nat
    var hold: char
    var moreFlag: bool
    var moreLen: nat
    var atBol: bool
    var status: BufferStatus
    var file: string

    ghost function I(): Input
      reads this`buf, this`bufSize, this`bufChars, this`nChars, this`status, this`file, buf
    {
      Input(buf[..], bufSize, bufChars, nChars, status, file)
    }

    ghost function V(): View
      reads this, buf
    {
      View(I(), pos, text, hold, moreFlag, moreLen, atBol)
    }

    /** yy_create_buffer on a script not yet read. */
    constructor (d: Dfa, script: string, size: nat)
      requires NulFree(script) && 2 <= size
      ensures fresh(buf) && pos == nChars && text == pos
      ensures dfa == d && V().State() == Some(Config(script, true, ""))
    {
      dfa, file, bufSize := d, script, size;
      moreFlag, moreLen := false, 0;
      var b := new char[size + 2](_ => NUL);
      buf := b;
      bufChars, nChars, pos, text, hold, atBol, status := 0, 0, 0, 0, NUL, true, New;
      new;
      EmptyState(V());
    }

    // ---------------------------------------------------------------- refilling

    /** yyrestart on the same input: yy_flush_buffer and yy_load_buffer_state. */
    method Restart()
      requires 2 <= bufSize && buf.Length == bufSize + 2
      modifies this`bufChars, this`nChars, this`pos, this`text, this`hold, this`atBol, this`status, buf
      ensures bufChars == nChars == pos == text == 0 && hold == NUL && atBol && status == New
      ensures buf[0] == buf[1] == NUL
    {
      bufChars := 0;
      buf[0], buf[1] := NUL, NUL;
      atBol, status := true, New;
      nChars, text, pos, hold := 0, 0, 0, buf[0];
    }

    /** Moves the pending text to the start of the buffer. */
    method ShiftDown(count: nat)
      requires text + count <= buf.Length
      modifies buf
      ensures buf[..count] == old(buf[text..text + count])
    {
      ghost var b := buf[..];
      for i := 0 to count
        invariant forall j :: 0 <= j < i ==> buf[j] == b[text + j]
        invariant forall j :: i <= j < buf.Length ==> buf[j] == b[j]
      {
        buf[i] := buf[text + i];
      }
    }

    /** Doubles the buffer until there is room to read at least one character after `count`. */
    method MakeRoom(count: nat) returns (room: nat)
      requires 2 <= bufSize && buf.Length == bufSize + 2 && count <= bufSize
      modifies this`buf, this`bufSize
      ensures buf == old(buf) || fresh(buf)
      ensures 2 <= bufSize && buf.Length == bufSize + 2
      ensures 1 <= room && count + room < bufSize
      ensures forall i :: 0 <= i < count ==> buf[i] == old(buf[i])
    {
      while bufSize - count - 1 <= 0
        invariant buf == old(buf) || fresh(buf)
        invariant old(bufSize) <= bufSize && buf.Length == bufSize + 2
        invariant forall i :: 0 <= i < count ==> buf[i] == old(buf[i])
        decreases count + 1 - bufSize
      {
        var grown := new char[2 * bufSize + 2];
        forall i | 0 <= i < buf.Length {
          grown[i] := buf[i];
        }
        buf, bufSize := grown, 2 * bufSize;
      }
      room := bufSize - count - 1;
      if room > READ_SIZE {
        room := READ_SIZE;
      }
    }

    /** YY_INPUT: the reader returns any non-empty part of what is left, as much as fits, or nothing at the end. */
    method ReadInto(at: nat, max: nat) returns (n: nat, ghost added: string)
      requires 1 <= max && at + max <= buf.Length
      modifies this`file, buf
      ensures n == |added| <= max && (n == 0 <==> old(file) == "") && old(file) == added + file
      ensures forall i :: 0 <= i < n ==> added[i] == buf[at + i]
      ensures forall i :: 0 <= i < at ==> buf[i] == old(buf[i])
    {
      if file == "" {
        return 0, "";
      }
      n :| 1 <= n <= max && n <= |file|;
      added := file[..n];
      forall i | 0 <= i < n {
        buf[at + i] := file[i];
      }
      file := file[n..];
    }

    /** Reads behind the first `count` characters, unless the end of the script was already seen. */
    method Refill(count: nat) returns (ghost added: string)
      requires 2 <= bufSize && buf.Length == bufSize + 2 && count <= bufSize
      requires status == EofPending ==> file == ""
      modifies this`buf, this`bufSize, this`bufChars, this`nChars, this`file, buf
      ensures buf == old(buf) || fresh(buf)
      ensures 2 <= bufSize && buf.Length == bufSize + 2 && count + nChars <= bufSize
      ensures nChars == bufChars == |added| && (nChars == 0 <==> old(file) == "") && old(file) == added + file
      ensures buf[..count + nChars] == old(buf[..count]) + added
    {
      if status == EofPending {
        bufChars, nChars := 0, 0;
        return "";
      }
      var room := MakeRoom(count);
      nChars, added := ReadInto(count, room);
      bufChars := nChars;
    }

    /** The pending text at the start of the buffer, and what was read behind it. */
    method Slide(count: nat) returns (ghost added: string)
      requires 2 <= bufSize && buf.Length == bufSize + 2 && text + count <= bufSize
      requires status == EofPending ==> file == ""
      modifies this`buf, this`bufSize, this`bufChars, this`nChars, this`file, buf
      ensures buf == old(buf) || fresh(buf)
      ensures 2 <= bufSize && buf.Length == bufSize + 2 && count + nChars <= bufSize
      ensures nChars == bufChars == |added| && (nChars == 0 <==> old(file) == "") && old(file) == added + file
      ensures I().chars[..count + nChars] == old(I()).chars[text..text + count] + added
    {
      ghost var kept := buf[..][text..text + count];
      ShiftDown(count);
      assert buf[..count] == kept;
      added := Refill(count);
    }

    /** Puts both sentinels behind the characters now in the buffer. */
    method Seal(count: nat)
      requires 2 <= bufSize && buf.Length == bufSize + 2 && count + nChars <= bufSize
      modifies this`nChars, this`text, buf
      ensures nChars == count + old(nChars) && text == 0 && buf[nChars] == buf[nChars + 1] == NUL
      ensures buf[..nChars] == old(buf[..count + nChars])
    {
      nChars := nChars + count;
      buf[nChars], buf[nChars + 1] := NUL, NUL;
      text := 0;
    }

    /** Whether there is more text, a last token, or neither; then the buffer starts anew. */
    method TellEnd(count: nat) returns (r: EobAction)
      requires 2 <= bufSize && buf.Length == bufSize + 2
      modifies this`bufChars, this`nChars, this`pos, this`text, this`hold, this`atBol, this`status, buf
      ensures r == (if old(nChars) > 0 then ContinueScan else if count == moreLen then EndOfFile else LastMatch)
      ensures nChars == old(nChars)
      ensures r != EndOfFile ==>
                buf[..] == old(buf[..]) && bufChars == old(bufChars) && unchanged(`pos, `text, `hold, `atBol)
      ensures r != EndOfFile ==> status == if r == LastMatch then EofPending else old(status)
      ensures r == EndOfFile ==> pos == 0 && hold == NUL && atBol && status == New
    {
      if nChars == 0 {
        if count == moreLen {
          r := EndOfFile;
          Restart();
        } else {
          r := LastMatch;
          status := EofPending;
        }
      } else {
        r := ContinueScan;
      }
    }

    /** The end of yy_get_next_buffer, with the new characters behind the first `count`. */
    method Finish(count: nat) returns (r: EobAction)
      requires 2 <= bufSize && buf.Length == bufSize + 2 && count + nChars <= bufSize
      modifies this`bufChars, this`nChars, this`pos, this`text, this`hold, this`atBol, this`status, buf
      ensures r == (if old(nChars) > 0 then ContinueScan else if count == moreLen then EndOfFile else LastMatch)
      ensures nChars == count + old(nChars) && text == 0 && buf[nChars] == buf[nChars + 1] == NUL
      ensures r != EndOfFile ==> I().chars[..nChars] == old(I()).chars[..old(count + nChars)]
      ensures r != EndOfFile ==> unchanged(`bufChars, `hold, `atBol)
      ensures r != EndOfFile ==> status == if r == LastMatch then EofPending else old(status)
      ensures r == EndOfFile ==> pos == 0 && hold == NUL && atBol && status == New
    {
      r := TellEnd(count);
      Seal(count);
    }

    /** yy_get_next_buffer for `count` pending characters. */
    method SlideAndFinish(count: nat) returns (r: EobAction, ghost added: string)
      requires I().Room() && I().Source() && text + count == nChars
      modifies this`buf, this`bufSize, this`bufChars, this`nChars, this`file,
               this`pos, this`text, this`hold, this`atBol, this`status, buf
      ensures buf == old(buf) || fresh(buf)
      ensures old(I()).NextBuffer(old(text), moreLen, added, I()) == Some(r)
      ensures text == 0 && (r != EndOfFile ==> unchanged(`atBol))
    {
      added := Slide(count);
      r := Finish(count);
    }

    /** yy_get_next_buffer, called with `pos` just past the first sentinel. */
    method GetNextBuffer() returns (r: EobAction, ghost added: string)
      requires I().Room() && I().Source() && text <= nChars && pos == nChars + 1
      modifies this, buf
      ensures buf == old(buf) || fresh(buf)
      ensures old(I()).NextBuffer(old(text), moreLen, added, I()) == Some(r)
      ensures text == 0 && unchanged(`moreLen, `moreFlag)
      ensures r != EndOfFile ==> unchanged(`atBol)
    {
      var count := pos - text - 1;
      r, added := SlideAndFinish(count);
    }

    // ---------------------------------------------------------------- matching

    /** The run over the first k characters of s, which stands at `base`. */
    ghost function RunOver(s: string, k: nat, base: nat, before: Run): Run
      requires k <= |s|
      reads this`atBol
    {
      Scan(dfa, dfa.Start(atBol), s, k, base, before)
    }

    /** yy_get_previous_state: runs the automaton again over the text matched so far. */
    method GetPreviousState(base: nat, before: Run, ghost s: string) returns (run: Run)
      requires base <= pos <= buf.Length && pos - base <= |s| && buf[base..pos] == s[..pos - base]
      ensures run == RunOver(s, pos - base, base, before)
    {
      run := before.(state := dfa.Start(atBol));
      for cp := base to pos
        invariant run == RunOver(s, cp - base, base, before)
      {
        assert s[cp - base] == buf[base..pos][cp - base];
        run := Matching.Advance(dfa, run, cp, buf[cp]);
      }
    }

    /** The loop of yy_match: steps until a stop state, which the second sentinel forces at the latest. */
    method Match(base: nat, run0: Run, ghost q: int, ghost s: string, ghost n: nat, ghost before: Run)
      returns (run: Run, cp: nat)
      requires base <= pos <= nChars == base + n && nChars + 2 <= buf.Length && n <= |s|
      requires buf[..][base..nChars + 2] == Window(s, n) && Fenced(dfa, q, s, n, base, before)
      requires run0 == Scan(dfa, q, Window(s, n), pos - base, base, before) && !dfa.Stop(run0.state)
      ensures base < cp <= base + n + 2
      ensures run == Scan(dfa, q, Window(s, n), cp - base, base, before) && dfa.Stop(run.state)
      ensures cp > base + n ==> cp == base + n + 2 && !dfa.Stop(Scan(dfa, q, Window(s, n), n, base, before).state)
    {
      ghost var w := Window(s, n);
      run, cp := run0, pos;
      while true
        invariant pos <= cp <= nChars + 1
        invariant run == Scan(dfa, q, w, cp - base, base, before) && !dfa.Stop(run.state)
        invariant cp == nChars + 1 ==> !dfa.Stop(Scan(dfa, q, w, n, base, before).state)
        decreases nChars + 2 - cp
      {
        assert w[cp - base] == buf[cp];
        run := Matching.Advance(dfa, run, cp, buf[cp]);
        cp := cp + 1;
        if dfa.Stop(run.state) {
          break;
        }
      }
    }

    /** yy_match, between its sentinels. */
    method MatchBuffer(base: nat, run0: Run, ghost before: Run, ghost more: string, ghost s: string)
      returns (run: Run, cp: nat)
      requires dfa.WellFormed() && V().Midway(dfa, base, run0, before) == Scanning(more, s)
      ensures base <= nChars <= base + |s| && FindAction(dfa, run, cp) == Decision(dfa, atBol, nChars - base, s, base)
    {
      ghost var n := nChars - base;
      MidwayMatch(V(), dfa, base, run0, before, more, s);
      run, cp := Match(base, run0, dfa.Start(atBol), s, n, before);
      MatchDecides(dfa, atBol, n, s, base, before, run, cp);
    }

    /** Matching in the buffer as it is: finds the longest match of s, or is still matching at the end of the buffer. */
    method FindToken(base: nat, run0: Run, ghost before: Run, ghost more: string, ghost s: string)
      returns (found: Action, run: Run)
      requires dfa.WellFormed() && V().Midway(dfa, base, run0, before) == Scanning(more, s)
      ensures base <= nChars <= base + |s| && found == Decision(dfa, atBol, nChars - base, s, base)
    {
      var cp;
      run, cp := MatchBuffer(base, run0, before, more, s);
      found := FindAction(dfa, run, cp);
    }

    /** YY_DO_BEFORE_ACTION */
    method SetText(base: nat, cp: nat)
      requires moreLen <= base && cp < buf.Length
      modifies this`text, this`hold, this`pos, buf
      ensures V() == old(V()).WithText(base, cp)
    {
      text := base - moreLen;
      hold := buf[cp];
      buf[cp] := NUL;
      pos := cp;
    }

    /** The start of the YY_END_OF_BUFFER action: `pos` is just past the first sentinel. */
    method LeaveBuffer(base: nat)
      requires I().Sealed() && I().Source() && moreLen <= base
      modifies this`text, this`hold, this`pos, this`nChars, this`status, buf
      ensures text == base - moreLen && pos == nChars + 1 && I() == old(I()).Reached()
    {
      SetText(base, nChars + 1);
      buf[pos] := hold;
      if status == New {
        nChars := bufChars;
        status := Normal;
      }
    }

    /** The YY_END_OF_BUFFER action up to the call of yy_get_next_buffer. */
    method LeaveAndRefill(base: nat) returns (r: EobAction, matched: nat, ghost added: string)
      requires I().Sealed() && I().Source() && moreLen <= base <= nChars
      modifies this, buf
      ensures buf == old(buf) || fresh(buf)
      ensures text == 0 && unchanged(`moreLen, `moreFlag) && matched == moreLen + old(nChars) - base
      ensures old(I()).Reached().NextBuffer(base - moreLen, moreLen, added, I()) == Some(r)
      ensures r != EndOfFile ==> unchanged(`atBol)
    {
      LeaveBuffer(base);
      matched := pos - text - 1;
      r, added := GetNextBuffer();
    }

    /** The YY_END_OF_BUFFER action: all of the buffer was matched and more is needed. */
    method EndOfBuffer(base: nat, ghost more: string, ghost s: string) returns (r: EobAction)
      requires I().Pending(base, moreLen) == Scanning(more, s)
      modifies this, buf
      ensures buf == old(buf) || fresh(buf)
      ensures text == 0 && unchanged(`moreLen, `moreFlag)
      ensures r == EndOfFile <==> s == ""
      ensures r != EndOfFile ==>
                I().Pending(moreLen, moreLen) == Scanning(more, s) && status != New && unchanged(`atBol)
      ensures r != EndOfFile ==> pos == moreLen + old(nChars - base) <= nChars && old(nChars - base) <= |s|
      ensures r == ContinueScan ==> |file| < |old(file)|
      ensures r == LastMatch ==> file == "" && pos == nChars
    {
      ghost var v := I();
      var matched;
      ghost var added;
      r, matched, added := LeaveAndRefill(base);
      NextBufferScans(v, base, moreLen, more, s, r, added, I());
      pos := if r == EndOfFile then text + moreLen else if r == ContinueScan then text + matched else nChars;
    }

    method TakeToken(base: nat, k: nat, ghost more: string, ghost s: string)
      requires I().Pending(base, moreLen) == Scanning(more, s) && NulFree(s) && base + k <= nChars && !moreFlag
      modifies this`text, this`hold, this`pos, buf
      ensures k <= |s| && V().Taken() == TokenOf(more, s, k)
    {
      TokenTaken(V(), base, k, more, s);
      SetText(base, base + k);
    }

    method BeginToken()
      requires pos < buf.Length && (moreFlag ==> text <= pos)
      modifies this`moreLen, this`moreFlag, buf
      ensures V() == old(V()).Begun()
    {
      moreLen := if moreFlag then pos - text else 0;
      moreFlag := false;
      buf[pos] := hold;
    }

    /** Runs the automaton again over what was matched, up to `pos`. */
    method Resume(base: nat, before: Run, ghost more: string, ghost s: string) returns (run: Run)
      requires I().Pending(base, moreLen) == Scanning(more, s) && NulFree(s) && !moreFlag
      requires base <= pos <= nChars && pos - base <= |s| && !dfa.Stop(dfa.RunTo(dfa.Start(atBol), s, pos - base))
      ensures V().Midway(dfa, base, run, before) == Scanning(more, s)
    {
      PendingText(I(), base, moreLen, s, pos);
      run := GetPreviousState(base, before, s);
      MidwayAgain(V(), dfa, base, run, before, more, s);
    }

    /** Gets the next buffer and runs the automaton again over what was matched. */
    method NextRun(base0: nat, before: Run, ghost more: string, ghost s: string)
      returns (r: EobAction, base: nat, run: Run)
      requires I().Pending(base0, moreLen) == Scanning(more, s) && NulFree(s) && !moreFlag
      requires !dfa.Stop(dfa.RunTo(dfa.Start(atBol), s, nChars - base0))
      modifies this, buf
      ensures buf == old(buf) || fresh(buf)
      ensures r == EndOfFile <==> s == ""
      ensures r != EndOfFile ==>
                V().Midway(dfa, base, run, before) == Scanning(more, s) && status != New && unchanged(`atBol)
      ensures r == ContinueScan ==> |file| < |old(file)|
      ensures r == LastMatch ==> pos == nChars && file == ""
    {
      r := EndOfBuffer(base0, more, s);
      base, run := text + moreLen, before;
      if r != EndOfFile {
        run := Resume(base, before, more, s);
      }
    }

    /** yytext is set to the longest match. */
    method TakeFound(found: Action, base: nat, ghost more: string, ghost s: string)
      requires dfa.WellFormed() && I().Pending(base, moreLen) == Scanning(more, s) && NulFree(s) && !moreFlag
      requires nChars <= base + |s| && found == Decision(dfa, atBol, nChars - base, s, base)
      requires found.rule != END_OF_BUFFER
      modifies this`text, this`hold, this`pos, buf
      ensures V().Taken() == TokenOf(more, s, dfa.Longest(atBol, s))
    {
      DecisionToken(dfa, atBol, nChars - base, s, base);
      ghost var k := dfa.Longest(atBol, s);
      assert found.at == base + k <= nChars;
      TakeToken(base, found.at - base, more, s);
    }

    /** One pass over the buffer: a token is taken, or all of the buffer is matched. */
    method Pass(base: nat, run0: Run, ghost before: Run, ghost more: string, ghost s: string)
      returns (rule: nat, run: Run)
      requires dfa.WellFormed() && V().Midway(dfa, base, run0, before) == Scanning(more, s)
      modifies this`text, this`hold, this`pos, buf
      ensures base <= nChars <= base + |s|
      ensures rule == END_OF_BUFFER ==>
                && I().Pending(base, moreLen) == Scanning(more, s)
                && !dfa.Stop(dfa.RunTo(dfa.Start(atBol), s, nChars - base))
      ensures rule != END_OF_BUFFER ==>
                && base < nChars && rule == dfa.RuleOf(atBol, s)
                && V().Taken() == TokenOf(more, s, dfa.Longest(atBol, s))
    {
      var found;
      found, run := FindToken(base, run0, before, more, s);
      DecisionToken(dfa, atBol, nChars - base, s, base);
      rule := found.rule;
      if rule != END_OF_BUFFER {
        TakeFound(found, base, more, s);
      }
    }

    /** The script ended inside the last token: its longest match is taken. */
    method LastPass(base: nat, run: Run, ghost before: Run, ghost more: string, ghost s: string) returns (rule: nat)
      requires dfa.WellFormed() && V().Midway(dfa, base, run, before) == Scanning(more, s)
      requires pos == nChars && file == "" && s != ""
      modifies this`text, this`hold, this`pos, buf
      ensures rule == dfa.RuleOf(atBol, s) && V().Taken() == TokenOf(more, s, dfa.Longest(atBol, s))
    {
      MidwayEnd(V(), dfa, base, run, before, more, s);
      var found := FindAction(dfa, run, nChars);
      TakeToken(base, found.at - base, more, s);
      rule := found.rule;
    }

    /** The buffer was not enough: more text, the last token, or the end of the script. */
    method AfterBuffer(base0: nat, before: Run, ghost more: string, ghost s: string)
      returns (out: Outcome, base: nat, run: Run)
      requires dfa.WellFormed() && I().Pending(base0, moreLen) == Scanning(more, s) && NulFree(s) && !moreFlag
      requires !dfa.Stop(dfa.RunTo(dfa.Start(atBol), s, nChars - base0))
      modifies this, buf
      ensures buf == old(buf) || fresh(buf)
      ensures out == Exhausted <==> s == ""
      ensures s != "" ==> unchanged(`atBol) && status != New
      ensures out.Matched? ==>
                out.rule == dfa.RuleOf(atBol, s) && V().Taken() == TokenOf(more, s, dfa.Longest(atBol, s))
      ensures out == Refilled ==> V().Midway(dfa, base, run, before) == Scanning(more, s) && |file| < |old(file)|
    {
      var r;
      r, base, run := NextRun(base0, before, more, s);
      match r
      case EndOfFile =>
        out := Exhausted;
      case ContinueScan =>
        out := Refilled;
      case LastMatch =>
        var rule := LastPass(base, run, before, more, s);
        out := Matched(rule);
    }

    /** One pass, and the next buffer if that was not enough. */
    method ScanStep(base0: nat, run0: Run, ghost before0: Run, ghost more: string, ghost s: string)
      returns (out: Outcome, base: nat, run: Run, ghost before: Run)
      requires dfa.WellFormed() && V().Midway(dfa, base0, run0, before0) == Scanning(more, s)
      modifies this, buf
      ensures buf == old(buf) || fresh(buf)
      ensures out == Exhausted <==> s == ""
      ensures s != "" ==> unchanged(`atBol)
      ensures out.Matched? ==>
                out.rule == dfa.RuleOf(atBol, s) && V().Taken() == TokenOf(more, s, dfa.Longest(atBol, s))
      ensures out.Matched? ==> status != New || (old(status) == New && base0 < old(nChars))
      ensures out == Refilled ==>
                V().Midway(dfa, base, run, before) == Scanning(more, s) && status != New && |file| < |old(file)|
    {
      var rule;
      rule, run := Pass(base0, run0, before0, more, s);
      base, before := base0, run;
      if rule != END_OF_BUFFER {
        out := Matched(rule);
      } else {
        out, base, run := AfterBuffer(base0, run, more, s);
      }
    }

    /** The loop of yylex from yy_match on, with s unread and the kept text standing before it. */
    method MatchText(ghost more: string, ghost s: string) returns (act: Option<nat>)
      requires dfa.WellFormed() && I().Pending(pos, moreLen) == Scanning(more, s) && NulFree(s) && !moreFlag
      modifies this, buf
      ensures buf == old(buf) || fresh(buf)
      ensures act.None? <==> s == ""
      ensures act.Some? ==> atBol == old(atBol) && act.value == dfa.RuleOf(atBol, s)
      ensures act.Some? ==> V().Taken() == TokenOf(more, s, dfa.Longest(atBol, s))
      ensures act.Some? ==> status != New || old(status == New && pos < nChars)
    {
      ghost var before := Run(0, 0, 0);
      var base: nat, run := pos, Run(dfa.Start(atBol), 0, 0);
      while true
        invariant buf == old(buf) || fresh(buf)
        invariant V().Midway(dfa, base, run, before) == Scanning(more, s) && atBol == old(atBol)
        invariant status != New || (base == old(pos) && nChars == old(nChars) && status == old(status))
        decreases |file|
      {
        var out;
        out, base, run, before := ScanStep(base, run, before, more, s);
        if out != Refilled {
          return if out.Matched? then Some(out.rule) else None;
        }
      }
    }

    /** The matching part of yylex: one token, or None at the end of the script. */
    method MatchToken(ghost c: Config) returns (act: Option<nat>)
      requires dfa.WellFormed() && V().State() == Some(c)
      modifies this, buf
      ensures buf == old(buf) || fresh(buf)
      ensures act.None? <==> c.unread == ""
      ensures act.Some? ==>
                && atBol == c.bol && act.value == dfa.RuleOf(c.bol, c.unread)
                && V().Taken() == TokenOf(c.more, c.unread, dfa.Longest(c.bol, c.unread))
      ensures act.Some? ==> status != New || old(status == New && pos < nChars)
    {
      UnreadNulFree(V(), c);
      BegunScans(V(), c);
      BeginToken();
      act := MatchText(c.more, c.unread);
    }

    // ---------------------------------------------------------------- actions

    method Restore()
      requires pos < buf.Length
      modifies buf
      ensures V() == old(V()).Restored()
    {
      buf[pos] := hold;
    }

    /** yyrestart with the script at its end. */
    method RestartAtEnd()
      requires 2 <= bufSize && buf.Length == bufSize + 2 && file == "" && !moreFlag
      modifies this`bufChars, this`nChars, this`pos, this`text, this`hold, this`atBol, this`status, buf
      ensures V().State() == Some(Config("", true, "")) && pos == nChars == 0
    {
      Restart();
      EmptyState(V());
    }

    /** input() at the end of the buffer: reads more, or restarts at the end of the script. */
    method ReadMore(ghost c: Config) returns (ok: bool)
      requires V().State() == Some(c) && !moreFlag && pos == nChars && text <= pos && (status == New ==> text == pos)
      modifies this, buf
      ensures buf == old(buf) || fresh(buf)
      ensures !moreFlag && (ok <==> c.unread != "")
      ensures !ok ==> V().State() == Some(Config("", true, "")) && pos == nChars == 0
      ensures ok ==> V().State() == Some(c) && V().Yytext() == old(V()).Yytext()
      ensures ok ==> pos < nChars && buf[pos] == hold && text == 0 && unchanged(`status)
    {
      ghost var v := V();
      AtBufferEnd(v, c);
      var offset := pos - text;
      pos := pos + 1;
      var r;
      ghost var added;
      r, added := GetNextBuffer();
      ok := r == ContinueScan;
      if ok {
        pos := text + offset;
        hold := buf[pos];
        RefilledReads(v, V(), added);
      } else {
        RestartAtEnd();
      }
    }

    /** input(), with the character in the buffer. */
    method TakeChar() returns (c: char)
      requires pos + 1 < buf.Length && buf[pos] == hold
      modifies this`pos, this`hold, this`atBol, buf
      ensures V() == old(V()).Consumed() && c == old(hold)
    {
      c := buf[pos];
      buf[pos] := NUL;
      pos := pos + 1;
      hold := buf[pos];
      atBol := c == '\n';
    }

    /** Gets the next character into the buffer, if it is not there. */
    method Fetch(ghost c: Config) returns (ok: bool)
      requires V().State() == Some(c) && !moreFlag
      requires pos == nChars ==> text <= pos && (status == New ==> text == pos)
      modifies this, buf
      ensures buf == old(buf) || fresh(buf)
      ensures !moreFlag && (ok <==> c.unread != "")
      ensures !ok ==> V().State() == Some(Config("", true, "")) && pos == nChars == 0
      ensures ok ==> V().State() == Some(c) && V().Yytext() == old(V()).Yytext()
      ensures ok ==> pos < nChars && buf[pos] == hold && unchanged(`status)
    {
      RestoredState(V());
      Restore();
      ok := true;
      if hold == NUL {
        ok := ReadMore(c);
      }
    }

    /**
      input(): removes and returns the first unread character, or None at the end of the script. yytext is still there,
      ended by a NUL where the character was.
      */
    method ReadChar(ghost c: Config) returns (r: Option<char>)
      requires V().State() == Some(c) && !moreFlag
      requires pos == nChars ==> text <= pos && (status == New ==> text == pos)
      modifies this, buf
      ensures buf == old(buf) || fresh(buf)
      ensures !moreFlag && r == First(c.unread) && V().State() == Some(BehindFirst(c.unread))
      ensures r.None? ==> pos == nChars == 0
      ensures r.Some? ==> V().Shown() == old(V()).Yytext() && unchanged(`status) && IsText(r.value)
    {
      var ok := Fetch(c);
      if !ok {
        return None;
      }
      ConsumedReads(V(), c);
      var ch := TakeChar();
      r := Some(ch);
    }

    /** Moves all characters and both sentinels to the end of the buffer. */
    method ShiftUp()
      requires I().Room()
      modifies buf
      ensures buf[bufSize - nChars..] == old(buf[..nChars + 2])
    {
      ghost var b, d, end := buf[..], bufSize - nChars, nChars + 2;
      var dest, source := bufSize + 2, nChars + 2;
      while source > 0
        invariant 0 <= source <= end && dest == source + d
        invariant forall i :: dest <= i < buf.Length ==> buf[i] == b[i - d]
        invariant forall i :: 0 <= i < source ==> buf[i] == b[i]
      {
        dest, source := dest - 1, source - 1;
        buf[dest] := buf[source];
      }
      SliceMoved(buf[..], b, d, end);
    }

    /** Makes room before `pos` by shifting the buffer up, if need be and possible. */
    method MakeSpace() returns (ok: bool)
      requires I().Room() && pos <= nChars
      modifies this`pos, this`text, this`bufChars, this`nChars, buf
      ensures V() == old(V()).Shifted(buf[..]) && (ok <==> pos >= 2)
      ensures if old(pos) >= 2 then buf[..] == old(buf[..]) else buf[old(bufSize - nChars)..] == old(buf[..nChars + 2])
    {
      if pos < 2 {
        ShiftUp();
        pos, text := pos + (bufSize - nChars), text + (bufSize - nChars);
        bufChars, nChars := bufSize, bufSize;
      }
      ok := pos >= 2;
    }

    method PutChar(c: char)
      requires 1 <= pos <= buf.Length
      modifies this`pos, this`hold, buf
      ensures V() == old(V()).Pushed(c)
    {
      pos := pos - 1;
      buf[pos] := c;
      hold := buf[pos];
    }

    /** unput(c): puts c in front of the unread text; fails only if the buffer has no room for it. */
    method PushBack(c: char) returns (ok: bool)
      requires V().State().Some? && !moreFlag && IsText(c)
      modifies this`pos, this`text, this`bufChars, this`nChars, this`hold, buf
      ensures ok <==> old(pos >= 2 || pos + bufSize - nChars >= 2)
      ensures ok ==> V().State() == Some(Config([c] + old(V()).State().value.unread, atBol, "")) && pos < nChars
    {
      ghost var v := V();
      Restore();
      ok := MakeSpace();
      PushedBack(v, buf[..], c);
      if ok {
        PutChar(c);
      }
    }

    /** unput and then input give the character back and leave the unread text as it was. */
    method PushBackThenRead(c: char) returns (back: Option<char>)
      requires V().State().Some? && !moreFlag && IsText(c) && (pos >= 2 || pos + bufSize - nChars >= 2)
      modifies this, buf
      ensures back == Some(c) && V().State() == Some(Config(old(V()).State().value.unread, c == '\n', ""))
    {
      ghost var u := V().State().value.unread;
      var ok := PushBack(c);
      back := ReadChar(Config([c] + u, atBol, ""));
      assert ([c] + u)[1..] == u;
    }

    /**
      Between tokens, the scanner either has read from the script since it was (re)started, or has nothing in the
      buffer, or only the byte pushed back at the end of the script.
      */
    ghost predicate Valid()
      reads this, buf
    {
      && dfa.WellFormed() && V().State().Some?
      && (status == New ==> pos == nChars || V().State() == Some(Config([EOF_BYTE], true, "")))
    }

    /** What is left to scan. */
    ghost function Left(): Config
      requires Valid()
      reads this, buf
    {
      V().State().value
    }

    lemma ValidReady()
      requires Valid()
      ensures Ready(dfa, Left())
    {
      UnreadNulFree(V(), Left());
    }

    method ShowText() returns (r: string)
      requires V().Yytext().Some?
      ensures V().Yytext() == Some(r)
    {
      r := buf[text..pos];
    }

    /** yytext, up to the NUL that input() put into it. */
    method ShowBefore() returns (r: string)
      requires V().Shown().Some?
      ensures V().Shown() == Some(r)
    {
      r := buf[text..pos - 1];
    }

    /** A quoted text was followed by the end of the script: EOF, cut to a byte, is put back. */
    method PushEndByte()
      requires V().State() == Some(Config("", true, "")) && !moreFlag && pos == nChars == 0
      modifies this`pos, this`text, this`bufChars, this`nChars, this`hold, buf
      ensures V().State() == Some(Config([EOF_BYTE] + "", true, ""))
    {
      var ok := PushBack(EOF_BYTE);
    }

    /** A quoted text was followed by c, which is put back unless it is the closing quote. */
    method AfterQuote(c: char, ghost rest: string)
      requires V().State() == Some(Config(rest, c == '\n', "")) && !moreFlag && IsText(c) && pos >= 2
      modifies this`pos, this`text, this`bufChars, this`nChars, this`hold, buf
      ensures V().State() == Some(if c == '\"' then Config(rest, false, "") else Config([c] + rest, c == '\n', ""))
    {
      if c != '\"' {
        var ok := PushBack(c);
      }
    }

    /** What the action of rule QUOTED does with the result of input(). */
    method Conclude(c: Option<char>, text0: string, ghost rest: string) returns (following: Following, shown: string)
      requires !moreFlag && text0 != "" && text0[|text0| - 1] != '\\'
      requires c == First(rest) && V().State() == Some(BehindFirst(rest))
      requires if c.None? then pos == nChars == 0 else IsText(c.value) && V().Shown() == Some(text0)
      modifies this`pos, this`text, this`bufChars, this`nChars, this`hold, buf
      ensures V().State() == Some(Act(QUOTED, text0, rest).1)
      ensures Event(QUOTED, shown, following) == Act(QUOTED, text0, rest).0
    {
      ActQuoted(text0, rest);
      if c.None? {
        following, shown := AtEnd, text0;
        PushEndByte();
      } else {
        following := Found(c.value);
        shown := ShowBefore();
        AfterQuote(c.value, rest[1..]);
      }
    }

    /** The action of rule QUOTED when yytext does not end in a backslash. */
    method CloseQuote(ghost yytext: string, ghost rest: string) returns (following: Following, shown: string)
      requires V().State() == Some(Config(rest, atBol, "")) && !moreFlag && V().Yytext() == Some(yytext)
      requires yytext != "" && yytext[|yytext| - 1] != '\\' && status != New
      modifies this, buf
      ensures buf == old(buf) || fresh(buf)
      ensures V().State() == Some(Act(QUOTED, yytext, rest).1)
      ensures Event(QUOTED, shown, following) == Act(QUOTED, yytext, rest).0
      ensures status == New ==> V().State() == Some(Config([EOF_BYTE], true, ""))
    {
      var text0 := ShowText();
      var c := ReadChar(Config(rest, atBol, ""));
      following, shown := Conclude(c, text0, rest);
    }

    /** YY_RULE_SETUP and the action of a rule. */
    method FireRule(rule: nat, ghost yytext: string, ghost rest: string) returns (ev: Event)
      requires V().Taken() == Token(yytext, rest, moreLen) && yytext != ""
      requires status == New ==> rule != QUOTED
      modifies this, buf
      ensures buf == old(buf) || fresh(buf)
      ensures V().State() == Some(Act(rule, yytext, rest).1) && ev == Act(rule, yytext, rest).0
      ensures rule != QUOTED ==> unchanged(`status, `pos, `nChars)
      ensures status == New ==> old(status) == New || V().State() == Some(Config([EOF_BYTE], true, ""))
    {
      assert buf[pos - 1] == yytext[|yytext| - 1];
      atBol := buf[pos - 1] == '\n';
      if rule != QUOTED {
        ev := Event(rule, buf[text..pos], NotRead);
      } else if buf[pos - 1] == '\\' {
        ev := Event(rule, buf[text..pos], NotRead);
        moreFlag := true;
      } else {
        var following, shown := CloseQuote(yytext, rest);
        ev := Event(rule, shown, following);
      }
    }

    /** One turn of the yylex loop: a rule fires and its action moves the scanner, or the script is at its end. */
    method NextEvent() returns (ev: Option<Event>)
      requires Valid()
      modifies this, buf
      ensures buf == old(buf) || fresh(buf)
      ensures Ready(dfa, old(Left()))
      ensures ev.None? <==> old(Left()).unread == ""
      ensures ev.Some? ==> Valid() && (ev.value, Left()) == Next(dfa, old(Left()))
    {
      ghost var c := Left();
      ValidReady();
      var act := MatchToken(c);
      if act.None? {
        return None;
      }
      LongestPositive(dfa, c.bol, c.unread, |c.unread|);
      EofByteToken(dfa);
      ghost var n := dfa.Longest(c.bol, c.unread);
      var fired := FireRule(act.value, c.more + c.unread[..n], c.unread[n..]);
      ev := Some(fired);
    }
  }

  lemma TokensNext(d: Dfa, c: Config, events: seq<Event>)
    requires Ready(d, c) && c.unread != ""
    ensures var (e, c') := Next(d, c);
            Ready(d, c') && Size(c') < Size(c) && events + Tokens(d, c) == (events + [e]) + Tokens(d, c')
  {
    NextShrinks(d, c);
  }

  /** The events of a whole script are the same for every size of the buffer: those of the script read in one piece. */
  method ScanScript(d: Dfa, script: string, size: nat) returns (events: seq<Event>)
    requires d.WellFormed() && NulFree(script) && 2 <= size
    ensures events == Tokens(d, Config(script, true, ""))
  {
    var sc := new Scanner(d, script, size);
    sc.ValidReady();
    events := [];
    ghost var c := sc.Left();
    ghost var all := Tokens(d, c);
    var ended := false;
    while !ended
      invariant fresh(sc) && fresh(sc.buf) && sc.dfa == d
      invariant Ready(d, c) && all == events + Tokens(d, c)
      invariant if ended then c.unread == "" else sc.Valid() && c == sc.Left()
      decreases !ended, Size(c)
    {
      var ev := sc.NextEvent();
      ended := ev.None?;
      if !ended {
        TokensNext(d, c, events);
        events := events + [ev.value];
        c := sc.Left();
      }
    }
  }
}
