/**
  The per-line state machine of the CRL generator (cmd/crlutil/crlgen.c) as a function on values, and
  the meaning of a script: a fold of commands over its newline-terminated lines.
  */
module CrlScript {
  import opened CrlTable
  import opened Tokenizer
  import opened Options

  // CRLGEN_*_CONTEXT
  datatype Context =
    Unknown | IssuerLine | UpdateLine | NextUpdateLine | AddExtLine | AddCertLine | RangeLine | RmCertLine

  // CRLGEN_TYPE_*
  datatype DataType = Date | ZDate | Digit | DigitRange | Oid | Text | Id

  /** What a fired rule asks the generator to do. */
  datatype Token = Keyword(ctx: Context) | Data(text: string, dtype: DataType) | NewLine | Blank | Bad

  function Classify(e: Event): Token {
    match e.rule
    case 1 => Data(e.text, ZDate)
    case 2 => Data(e.text, Digit)
    case 3 => Data(e.text, DigitRange)
    case 4 => Data(e.text, Oid)
    case 5 => Keyword(IssuerLine)
    case 6 => Keyword(UpdateLine)
    case 7 => Keyword(NextUpdateLine)
    case 8 => Keyword(RangeLine)
    case 9 =>
      if e.text == "addcert" then Keyword(AddCertLine)
      else if e.text == "rmcert" then Keyword(RmCertLine)
      else if e.text == "addext" then Keyword(AddExtLine)
      else Data(e.text, Id)
    case 11 => if e.following == Found('\"') && e.text != "" then Data(e.text[1..], Text) else Blank
    case 12 => Data(e.text, Text)
    case 15 => NewLine
    case 10 => Blank
    case 13 => Blank
    case 14 => Blank
    case 17 => Blank
    case _ => Bad
  }

  function Classified(es: seq<Event>): (ts: seq<Token>)
    ensures |ts| == |es|
  {
    if es == [] then [] else [Classify(es[0])] + Classified(es[1..])
  }

  // ------------------------------------------------------------------ the state machine

  // MAX_EXT_DATA_LENGTH
  const SLOTS: nat := 10

  datatype CertRecord = CertRecord(certId: Option<string>, revocationTime: Option<string>)

  datatype ExtRecord = ExtRecord(slots: Option<seq<Option<string>>>, next: nat)

  /** The generator record. A temporary record is Some while it is allocated; `allocs` and `frees` count them. */
  datatype Gen = Gen(ctx: Context, field: Option<Option<string>>, cert: Option<CertRecord>, ext: Option<ExtRecord>,
                     line: nat, allocs: nat, frees: nat, crl: Crl)

  predicate IsField(ctx: Context) {
    ctx == IssuerLine || ctx == UpdateLine || ctx == NextUpdateLine || ctx == RangeLine
  }

  predicate IsCert(ctx: Context) {
    ctx == AddCertLine || ctx == RmCertLine
  }

  /** The fields fill a prefix of the ten slots; the rest is null. */
  ghost predicate SlotsOk(x: ExtRecord) {
    match x.slots
    case None => x.next == 0
    case Some(slots) =>
      |slots| == SLOTS && x.next <= SLOTS && forall i :: 0 <= i < SLOTS ==> (slots[i].Some? <==> i < x.next)
  }

  /** A context is set exactly while one temporary record, of the kind that belongs to it, is allocated. */
  ghost predicate Consistent(g: Gen) {
    && RangeOk(g.crl)
    && (g.field.Some? <==> IsField(g.ctx))
    && (g.cert.Some? <==> IsCert(g.ctx))
    && (g.ext.Some? <==> g.ctx == AddExtLine)
    && (g.ext.Some? ==> SlotsOk(g.ext.value))
    && g.allocs == g.frees + (if g.ctx == Unknown then 0 else 1)
  }

  /** crlgen_createNewLangStruct */
  function Create(g: Gen, ctx: Context): (Gen, bool)
    requires ctx != Unknown
  {
    if g.ctx != Unknown then (g, false)
    else if IsField(ctx) then (g.(ctx := ctx, field := Some(None), allocs := g.allocs + 1), true)
    else if IsCert(ctx) then (g.(ctx := ctx, cert := Some(CertRecord(None, None)), allocs := g.allocs + 1), true)
    else (g.(ctx := ctx, ext := Some(ExtRecord(None, 0)), allocs := g.allocs + 1), true)
  }

  /** crlgen_setNextDataFn_extension */
  function AddSlot(x: ExtRecord, text: string): (ExtRecord, bool)
    requires SlotsOk(x)
  {
    var slots := if x.slots.None? then seq(SLOTS, _ => None) else x.slots.value;
    if x.next >= SLOTS then (ExtRecord(Some(slots), x.next), false)
    else (ExtRecord(Some(slots[x.next := Some(text)]), x.next + 1), true)
  }

  predicate FieldTakes(ctx: Context, dtype: DataType) {
    if ctx == RangeLine then dtype == Digit || dtype == DigitRange
    else (ctx == UpdateLine || ctx == NextUpdateLine) && dtype == ZDate
  }

  /** crlgen_setNextData */
  function SetData(g: Gen, text: string, dtype: DataType): (Gen, bool)
    requires Consistent(g)
  {
    if g.ctx == Unknown then (g, true)
    else if IsField(g.ctx) then
      if FieldTakes(g.ctx, dtype) then (g.(field := Some(Some(text))), true) else (g, false)
    else if IsCert(g.ctx) then
      if dtype == Digit || dtype == DigitRange then (g.(cert := Some(g.cert.value.(certId := Some(text)))), true)
      else if dtype == Date || dtype == ZDate then (g.(cert := Some(g.cert.value.(revocationTime := Some(text)))), true)
      else (g, false)
    else
      var (x, ok) := AddSlot(g.ext.value, text);
      (g.(ext := Some(x)), ok)
  }

  /** The values of the filled slots. */
  function Fields(slots: seq<Option<string>>, n: nat): (r: seq<string>)
    requires n <= |slots| && forall i :: 0 <= i < n ==> slots[i].Some?
    ensures |r| == n && forall i :: 0 <= i < n ==> r[i] == slots[i].value
  {
    if n == 0 then [] else Fields(slots, n - 1) + [slots[n - 1].value]
  }

  /** The command the temporary record stands for. */
  function CommandOf(g: Gen): Command
    requires Consistent(g)
  {
    match g.ctx
    case Unknown => Nothing
    case IssuerLine => Issuer
    case UpdateLine => SetUpdate(g.field.value)
    case NextUpdateLine => SetNextUpdate(g.field.value)
    case RangeLine => SetRange(g.field.value)
    case AddCertLine => AddCert(g.cert.value.certId, g.cert.value.revocationTime)
    case RmCertLine => RmCert(g.cert.value.certId)
    case AddExtLine =>
      AddExtension(if g.ext.value.slots.None? then [] else Fields(g.ext.value.slots.value, g.ext.value.next))
  }

  /** crlgen_destroyTempData */
  function Destroyed(g: Gen): Gen {
    if g.ctx == Unknown then g
    else g.(ctx := Unknown, field := None, cert := None, ext := None, frees := g.frees + 1)
  }

  /** crlgen_updateCrl: also a failing command frees the record and counts the line. */
  function Update(enc: Encoder, g: Gen): (Gen, bool)
    requires Consistent(g)
  {
    var (crl, ok) := Apply(enc, g.crl, CommandOf(g));
    (Destroyed(g).(crl := crl, line := g.line + 1), ok)
  }

  function Step(enc: Encoder, g: Gen, t: Token): (Gen, bool)
    requires Consistent(g)
  {
    match t
    case Keyword(ctx) => if ctx == Unknown then (g, true) else Create(g, ctx)
    case Data(text, dtype) => SetData(g, text, dtype)
    case NewLine => Update(enc, g)
    case Blank => (g, true)
    case Bad => (g, false)
  }

  /** Every step keeps context and temporary record together. */
  lemma StepConsistent(enc: Encoder, g: Gen, t: Token)
    requires Consistent(g)
    ensures Consistent(Step(enc, g, t).0)
    ensures Step(enc, g, t).0.line == g.line + if t == NewLine then 1 else 0
    ensures t == NewLine ==> Step(enc, g, t).0.ctx == Unknown && Step(enc, g, t).0.frees == g.allocs
    ensures t.Keyword? && t.ctx != Unknown ==> (Step(enc, g, t).1 <==> g.ctx == Unknown)
    ensures t != NewLine ==> Step(enc, g, t).0.crl == g.crl && Step(enc, g, t).0.frees == g.frees
  {
  }

  /** The generator on a token sequence: it stops at the first failing one. */
  function Run(enc: Encoder, g: Gen, ts: seq<Token>): (Gen, bool)
    requires Consistent(g)
    decreases |ts|
  {
    if ts == [] then (g, true)
    else
      StepConsistent(enc, g, ts[0]);
      var (g', ok) := Step(enc, g, ts[0]);
      if ok then Run(enc, g', ts[1..]) else (g', false)
  }

  lemma {:induction false} RunConsistent(enc: Encoder, g: Gen, ts: seq<Token>)
    requires Consistent(g)
    ensures Consistent(Run(enc, g, ts).0)
    decreases |ts|
  {
    if ts == [] {
    } else {
      StepConsistent(enc, g, ts[0]);
      if Step(enc, g, ts[0]).1 {
        RunConsistent(enc, Step(enc, g, ts[0]).0, ts[1..]);
      }
    }
  }

  lemma {:induction false} RunConcat(enc: Encoder, g: Gen, a: seq<Token>, b: seq<Token>)
    requires Consistent(g)
    ensures Consistent(Run(enc, g, a).0)
    ensures Run(enc, g, a + b) == if Run(enc, g, a).1 then Run(enc, Run(enc, g, a).0, b) else Run(enc, g, a)
    decreases |a|
  {
    RunConsistent(enc, g, a);
    if a == [] {
      assert a + b == b;
    } else {
      StepConsistent(enc, g, a[0]);
      assert (a + b)[0] == a[0] && (a + b)[1..] == a[1..] + b;
      if Step(enc, g, a[0]).1 {
        RunConcat(enc, Step(enc, g, a[0]).0, a[1..], b);
      }
    }
  }

  // ------------------------------------------------------------------ the meaning of a line

  function Keywords(line: seq<Token>): seq<Context> {
    if line == [] then []
    else
      var t := line[|line| - 1];
      Keywords(line[..|line| - 1]) + if t.Keyword? && t.ctx != Unknown then [t.ctx] else []
  }

  predicate HasBad(line: seq<Token>) {
    exists i :: 0 <= i < |line| && line[i] == Bad
  }

  /** The data tokens behind the first keyword. */
  function DataOf(line: seq<Token>): seq<Token> {
    if line == [] then []
    else
      var init, t := line[..|line| - 1], line[|line| - 1];
      DataOf(init) + if t.Data? && Keywords(init) != [] then [t] else []
  }

  predicate OnlyTypes(data: seq<Token>, types: set<DataType>) {
    forall i :: 0 <= i < |data| ==> data[i].Data? && data[i].dtype in types
  }

  /** The text of the last token of one of these types. */
  function LastOf(data: seq<Token>, types: set<DataType>): Option<string> {
    if data == [] then None
    else
      var t := data[|data| - 1];
      if t.Data? && t.dtype in types then Some(t.text) else LastOf(data[..|data| - 1], types)
  }

  function Texts(data: seq<Token>): seq<string> {
    if data == [] then []
    else Texts(data[..|data| - 1]) + if data[|data| - 1].Data? then [data[|data| - 1].text] else []
  }

  const NUMBERS := {Digit, DigitRange}
  const DATES := {Date, ZDate}

  function CommandFor(ctx: Context, data: seq<Token>): Option<Command> {
    match ctx
    case Unknown => Some(Nothing)
    case IssuerLine => if data == [] then Some(Issuer) else None
    case UpdateLine => if OnlyTypes(data, {ZDate}) then Some(SetUpdate(LastOf(data, {ZDate}))) else None
    case NextUpdateLine => if OnlyTypes(data, {ZDate}) then Some(SetNextUpdate(LastOf(data, {ZDate}))) else None
    case RangeLine => if OnlyTypes(data, NUMBERS) then Some(SetRange(LastOf(data, NUMBERS))) else None
    case AddCertLine =>
      if OnlyTypes(data, NUMBERS + DATES) then Some(AddCert(LastOf(data, NUMBERS), LastOf(data, DATES))) else None
    case RmCertLine => if OnlyTypes(data, NUMBERS + DATES) then Some(RmCert(LastOf(data, NUMBERS))) else None
    case AddExtLine => if |data| <= SLOTS then Some(AddExtension(Texts(data))) else None
  }

  /** The command a line stands for, or None if the line is refused. */
  function Meaning(line: seq<Token>): Option<Command> {
    if HasBad(line) || |Keywords(line)| > 1 then None
    else if Keywords(line) == [] then Some(Nothing)
    else CommandFor(Keywords(line)[0], DataOf(line))
  }

  /** The newline-terminated lines, without their newlines. */
  function Lines(ts: seq<Token>): seq<seq<Token>>
    decreases |ts|
  {
    var i := LineEnd(ts);
    if i == |ts| then [] else [ts[..i]] + Lines(ts[i + 1..])
  }

  /** What follows the last newline. */
  function LastLine(ts: seq<Token>): seq<Token>
    decreases |ts|
  {
    var i := LineEnd(ts);
    if i == |ts| then ts else LastLine(ts[i + 1..])
  }

  function LineEnd(ts: seq<Token>): (i: nat)
    ensures i <= |ts| && (i < |ts| ==> ts[i] == NewLine) && NewLine !in ts[..i]
  {
    if ts == [] || ts[0] == NewLine then 0
    else
      var i := LineEnd(ts[1..]);
      assert ts[..1 + i] == [ts[0]] + ts[1..][..i];
      1 + i
  }

  /** The meaning of a script: its lines are applied in order, up to and including the first failing command. */
  function Fold(enc: Encoder, c: Crl, lines: seq<seq<Token>>): (Crl, bool)
    requires RangeOk(c)
    decreases |lines|
  {
    if lines == [] then (c, true)
    else
      var cmd := Meaning(lines[0]);
      if cmd.None? then (c, false)
      else
        var (u, ok) := Apply(enc, c, cmd.value);
        if ok then Fold(enc, u, lines[1..]) else (u, false)
  }

  // ------------------------------------------------------------------ the state machine computes the meaning

  function ContextOf(line: seq<Token>): Context {
    if Keywords(line) == [] then Unknown else Keywords(line)[0]
  }

  /** Adding a token to a line. */
  lemma Snoc(line: seq<Token>, t: Token)
    ensures HasBad(line + [t]) <==> HasBad(line) || t == Bad
    ensures Keywords(line + [t]) == if t.Keyword? && t.ctx != Unknown then Keywords(line) + [t.ctx] else Keywords(line)
    ensures DataOf(line + [t]) == if t.Data? && Keywords(line) != [] then DataOf(line) + [t] else DataOf(line)
  {
    var l := line + [t];
    assert l[..|l| - 1] == line;
    assert l[|line|] == t;
    if HasBad(line) {
      var i :| 0 <= i < |line| && line[i] == Bad;
      assert l[i] == Bad;
    }
  }

  lemma SnocData(data: seq<Token>, t: Token, types: set<DataType>)
    requires t.Data?
    ensures OnlyTypes(data + [t], types) <==> OnlyTypes(data, types) && t.dtype in types
    ensures LastOf(data + [t], types) == if t.dtype in types then Some(t.text) else LastOf(data, types)
    ensures Texts(data + [t]) == Texts(data) + [t.text]
  {
    var l := data + [t];
    assert l[..|l| - 1] == data;
    assert forall i :: 0 <= i < |data| ==> l[i] == data[i];
    assert l[|data|] == t;
  }

  /** What one more data token does to the command of a line. */
  lemma CommandSnoc(ctx: Context, data: seq<Token>, t: Token)
    requires t.Data? && ctx != Unknown
    ensures CommandFor(ctx, data).None? ==> CommandFor(ctx, data + [t]).None?
    ensures CommandFor(ctx, data).Some? ==>
              CommandFor(ctx, data + [t]) ==
              match ctx
              case IssuerLine => None
              case UpdateLine => if t.dtype == ZDate then Some(SetUpdate(Some(t.text))) else None
              case NextUpdateLine => if t.dtype == ZDate then Some(SetNextUpdate(Some(t.text))) else None
              case RangeLine => if t.dtype in NUMBERS then Some(SetRange(Some(t.text))) else None
              case AddCertLine =>
                if t.dtype in NUMBERS then Some(CommandFor(ctx, data).value.(id := Some(t.text)))
                else if t.dtype in DATES then Some(CommandFor(ctx, data).value.(date := Some(t.text)))
                else None
              case RmCertLine =>
                if t.dtype in NUMBERS then Some(RmCert(Some(t.text)))
                else if t.dtype in DATES then CommandFor(ctx, data)
                else None
              case AddExtLine => if |data| < SLOTS then Some(AddExtension(Texts(data) + [t.text])) else None
              case Unknown => None
  {
    SnocData(data, t, {ZDate});
    SnocData(data, t, NUMBERS);
    SnocData(data, t, DATES);
    SnocData(data, t, NUMBERS + DATES);
  }

  lemma RefusedStays(line: seq<Token>, t: Token)
    requires Meaning(line).None?
    ensures Meaning(line + [t]).None?
  {
    Snoc(line, t);
    if t.Data? && |Keywords(line)| == 1 && Keywords(line)[0] != Unknown {
      CommandSnoc(Keywords(line)[0], DataOf(line), t);
    }
  }

  lemma FilledSlot(x: ExtRecord, text: string)
    requires SlotsOk(x) && x.next < SLOTS
    ensures var y := AddSlot(x, text).0;
            && SlotsOk(y) && y.next == x.next + 1
            && Fields(y.slots.value, y.next) == (if x.slots.None? then [] else Fields(x.slots.value, x.next)) + [text]
  {
  }

  /** What the record stands for follows what the line means so far. */
  ghost predicate Follows(g: Gen, line: seq<Token>) {
    && Consistent(g) && Meaning(line).Some?
    && g.ctx == ContextOf(line) && (g.ctx == Unknown <==> Keywords(line) == [])
    && CommandOf(g) == Meaning(line).value
    && (g.ctx == AddExtLine ==> g.ext.value.next == |DataOf(line)|)
  }

  /** A data token changes the record as it changes the command. */
  lemma DataCommand(g: Gen, t: Token, data: seq<Token>)
    requires Consistent(g) && t.Data? && g.ctx != Unknown
    requires CommandFor(g.ctx, data) == Some(CommandOf(g)) && (g.ctx == AddExtLine ==> g.ext.value.next == |data|)
    ensures var (h, ok) := SetData(g, t.text, t.dtype);
            && (ok <==> CommandFor(g.ctx, data + [t]).Some?)
            && (ok ==> Consistent(h) && CommandFor(g.ctx, data + [t]) == Some(CommandOf(h)))
            && (ok && g.ctx == AddExtLine ==> h.ext.value.next == |data| + 1)
  {
    CommandSnoc(g.ctx, data, t);
    if g.ctx == AddExtLine && g.ext.value.next < SLOTS {
      FilledSlot(g.ext.value, t.text);
    }
  }

  lemma DataFollows(enc: Encoder, g: Gen, line: seq<Token>, t: Token)
    requires Follows(g, line) && t.Data?
    ensures var (h, ok) := Step(enc, g, t);
            && (ok <==> Meaning(line + [t]).Some?)
            && (ok ==> Follows(h, line + [t]))
  {
    Snoc(line, t);
    if g.ctx != Unknown {
      DataCommand(g, t, DataOf(line));
    }
  }

  lemma KeywordCommand(g: Gen, ctx: Context)
    requires Consistent(g) && g.ctx == Unknown && ctx != Unknown
    ensures var h := Create(g, ctx).0;
            Consistent(h) && CommandFor(ctx, []) == Some(CommandOf(h)) && (ctx == AddExtLine ==> h.ext.value.next == 0)
  {
  }

  lemma TokenFollows(enc: Encoder, g: Gen, line: seq<Token>, t: Token)
    requires Follows(g, line) && t != NewLine
    ensures var (h, ok) := Step(enc, g, t);
            && (ok <==> Meaning(line + [t]).Some?)
            && (ok ==> Follows(h, line + [t]))
  {
    if t.Data? {
      DataFollows(enc, g, line, t);
    } else {
      StepConsistent(enc, g, t);
      Snoc(line, t);
      if t.Keyword? && t.ctx != Unknown && g.ctx == Unknown {
        NoDataYet(line);
        KeywordCommand(g, t.ctx);
      }
    }
  }

  lemma {:induction false} NoDataYet(line: seq<Token>)
    requires Keywords(line) == []
    ensures DataOf(line) == []
  {
    if line == [] {
    } else {
      NoDataYet(line[..|line| - 1]);
    }
  }

  /** On one line, the generator succeeds exactly if the line is not refused, and then holds its command. */
  lemma {:induction false} LineRun(enc: Encoder, g: Gen, line: seq<Token>)
    requires Consistent(g) && g.ctx == Unknown && NewLine !in line
    ensures var (h, ok) := Run(enc, g, line);
            && h.crl == g.crl && (ok <==> Meaning(line).Some?)
            && (ok ==> Follows(h, line))
    decreases |line|
  {
    if line == [] {
      assert CommandOf(g) == Nothing;
    } else {
      var init, t := line[..|line| - 1], line[|line| - 1];
      assert line == init + [t];
      LineRun(enc, g, init);
      RunConcat(enc, g, init, [t]);
      var (h, ok) := Run(enc, g, init);
      if ok {
        TokenFollows(enc, h, init, t);
        StepConsistent(enc, h, t);
        assert Run(enc, h, [t]) == Step(enc, h, t) by {
          assert [t][1..] == [];
        }
      } else {
        RefusedStays(init, t);
      }
    }
  }

  /**
    The generator computes the meaning of the script: the entries are those of the fold over the complete lines,
    whatever follows the last newline.
    */
  lemma {:induction false} RunIsFold(enc: Encoder, g: Gen, ts: seq<Token>)
    requires Consistent(g) && g.ctx == Unknown
    ensures var (h, ok) := Run(enc, g, ts);
            && h.crl == Fold(enc, g.crl, Lines(ts)).0
            && (ok <==> Fold(enc, g.crl, Lines(ts)).1 && Meaning(LastLine(ts)).Some?)
    decreases |ts|
  {
    var i := LineEnd(ts);
    LineRun(enc, g, ts[..i]);
    RunConcat(enc, g, ts[..i], ts[i..]);
    assert ts == ts[..i] + ts[i..];
    if i < |ts| {
      var (h, ok) := Run(enc, g, ts[..i]);
      if ok {
        StepConsistent(enc, h, NewLine);
        var (u, ok') := Step(enc, h, NewLine);
        assert ts[i..][0] == NewLine && ts[i..][1..] == ts[i + 1..];
        if ok' {
          RunIsFold(enc, u, ts[i + 1..]);
        }
      }
    } else {
      assert ts[i..] == [] && ts[..i] == ts;
    }
  }

  /** In every state a script reaches, each key of the table is the serial number of its entry. */
  lemma {:induction false} FoldKeepsKeys(enc: Encoder, c: Crl, lines: seq<seq<Token>>)
    requires RangeOk(c) && KeysAreSerials(c.table)
    ensures KeysAreSerials(Fold(enc, c, lines).0.table)
    decreases |lines|
  {
    if lines == [] || Meaning(lines[0]).None? {
    } else {
      ApplyKeepsKeys(enc, c, Meaning(lines[0]).value);
      if Apply(enc, c, Meaning(lines[0]).value).1 {
        FoldKeepsKeys(enc, Apply(enc, c, Meaning(lines[0]).value).0, lines[1..]);
      }
    }
  }

  // ------------------------------------------------------------------ the current range

  /** How many lines a script gets through, including one whose command fails. */
  function Obeyed(enc: Encoder, c: Crl, lines: seq<seq<Token>>): (n: nat)
    requires RangeOk(c)
    ensures n <= |lines|
    decreases |lines|
  {
    if lines == [] || Meaning(lines[0]).None? then 0
    else
      var (u, ok) := Apply(enc, c, Meaning(lines[0]).value);
      if ok then 1 + Obeyed(enc, u, lines[1..]) else 1
  }

  function RangeOfLine(line: seq<Token>): Option<(nat, nat)> {
    if Meaning(line).None? then None else RangeSetBy(Meaning(line).value)
  }

  /** The last range set by the lines, or the one before them. */
  function LastRange(before: (nat, nat), lines: seq<seq<Token>>): (nat, nat) {
    if lines == [] then before
    else if RangeOfLine(lines[|lines| - 1]).Some? then RangeOfLine(lines[|lines| - 1]).value
    else LastRange(before, lines[..|lines| - 1])
  }

  lemma {:induction false} LastRangeFront(before: (nat, nat), line: seq<Token>, lines: seq<seq<Token>>)
    ensures LastRange(before, [line] + lines) == LastRange(LastRange(before, [line]), lines)
    decreases |lines|
  {
    var all := [line] + lines;
    if lines == [] {
      assert all == [line];
    } else {
      assert all[..|all| - 1] == [line] + lines[..|lines| - 1];
      LastRangeFront(before, line, lines[..|lines| - 1]);
    }
  }

  /** The first line, and then n more. */
  lemma LastRangeMore(before: (nat, nat), lines: seq<seq<Token>>, n: nat)
    requires lines != [] && n < |lines|
    ensures LastRange(before, lines[..1 + n]) == LastRange(AfterLine(before, lines[0]), lines[1..][..n])
  {
    assert [lines[0]][..0] == [];
    assert lines[..1 + n] == [lines[0]] + lines[1..][..n];
    LastRangeFront(before, lines[0], lines[1..][..n]);
  }

  function AfterLine(before: (nat, nat), line: seq<Token>): (nat, nat) {
    if RangeOfLine(line).Some? then RangeOfLine(line).value else before
  }

  /**
    After every script the current range is the last one set by addcert, also by one that failed for a clash, by rmcert
    or by range; if there is none it is the one the script started with.
    */
  lemma {:induction false} CurrentRangeIsLast(enc: Encoder, c: Crl, lines: seq<seq<Token>>)
    requires RangeOk(c)
    ensures var u := Fold(enc, c, lines).0;
            (u.from, u.upto) == LastRange((c.from, c.upto), lines[..Obeyed(enc, c, lines)])
    decreases |lines|
  {
    if lines == [] || Meaning(lines[0]).None? {
      assert lines[..0] == [];
    } else {
      var cmd := Meaning(lines[0]).value;
      var (u, ok) := Apply(enc, c, cmd);
      ApplySetsRange(enc, c, cmd);
      if ok {
        CurrentRangeIsLast(enc, u, lines[1..]);
        LastRangeMore((c.from, c.upto), lines, Obeyed(enc, u, lines[1..]));
      } else {
        assert lines[1..][..0] == [];
        LastRangeMore((c.from, c.upto), lines, 0);
      }
    }
  }

  // ------------------------------------------------------------------ lines and records

  function NewLines(ts: seq<Token>): nat {
    if ts == [] then 0 else (if ts[0] == NewLine then 1 else 0) + NewLines(ts[1..])
  }

  /** How many tokens a run takes, including one that fails. */
  function Processed(enc: Encoder, g: Gen, ts: seq<Token>): (n: nat)
    requires Consistent(g)
    ensures n <= |ts| && (Run(enc, g, ts).1 ==> n == |ts|)
    decreases |ts|
  {
    if ts == [] then 0
    else
      StepConsistent(enc, g, ts[0]);
      var (g', ok) := Step(enc, g, ts[0]);
      if ok then 1 + Processed(enc, g', ts[1..]) else 1
  }

  /** A newline leaves no live record and no context, whether its command succeeds or not; no other token frees one. */
  lemma OnlyNewLineFrees(enc: Encoder, g: Gen, t: Token)
    requires Consistent(g)
    ensures var h := Step(enc, g, t).0;
            if t == NewLine then h.ctx == Unknown && h.allocs == h.frees == g.allocs && h.line == g.line + 1
            else h.frees == g.frees && h.line == g.line
  {
    StepConsistent(enc, g, t);
  }

  /** After every run, the line number has grown by the newlines processed. */
  lemma {:induction false} LineNumber(enc: Encoder, g: Gen, ts: seq<Token>)
    requires Consistent(g)
    ensures Run(enc, g, ts).0.line == g.line + NewLines(ts[..Processed(enc, g, ts)])
    decreases |ts|
  {
    if ts == [] {
    } else {
      StepConsistent(enc, g, ts[0]);
      OnlyNewLineFrees(enc, g, ts[0]);
      var (h, ok) := Step(enc, g, ts[0]);
      var done := ts[..Processed(enc, g, ts)];
      if ok {
        LineNumber(enc, h, ts[1..]);
        assert done[1..] == ts[1..][..Processed(enc, h, ts[1..])];
      } else {
        assert done == [ts[0]] && done[1..] == [];
      }
    }
  }
}
