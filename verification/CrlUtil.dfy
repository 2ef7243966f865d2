/**
  UpdateCrl of cmd/crlutil/crlutil.c: initialise from the existing CRL, run the script through scanner and
  generator, and always commit.
  */
module CrlUtil {
  import opened Tokenizer
  import opened CrlgenTables
  import opened CrlTable
  import opened CrlScript
  import opened CrlGenerator
  import opened Options
  import Scanner

  // YY_BUF_SIZE
  const BUFFER_SIZE: nat := 16384

  /** The token sequence of a script, read in one piece. */
  ghost function ScriptTokens(d: Dfa, script: string): seq<Token>
    requires d.WellFormed() && NulFree(script)
  {
    Classified(Tokens(d, Config(script, true, "")))
  }

  /** What a script makes of a CRL, and whether it goes through: a fold of commands over its complete lines. */
  ghost function Outcome(d: Dfa, enc: Encoder, c: Crl, script: string): (Crl, bool)
    requires d.WellFormed() && NulFree(script) && RangeOk(c)
  {
    var ts := ScriptTokens(d, script);
    var (u, ok) := Fold(enc, c, Lines(ts));
    (u, ok && Meaning(LastLine(ts)).Some?)
  }

  /** The run of the generator over what is left of a script, one token further. */
  lemma RunNext(enc: Encoder, g: Gen, d: Dfa, c: Config)
    requires Ready(d, c) && c.unread != "" && Consistent(g)
    ensures var (e, c') := Next(d, c);
            var (h, ok) := Step(enc, g, Classify(e));
            && Ready(d, c') && Size(c') < Size(c) && Consistent(h)
            && Run(enc, g, Classified(Tokens(d, c))) ==
               if ok then Run(enc, h, Classified(Tokens(d, c'))) else (h, false)
  {
    NextShrinks(d, c);
    var (e, c') := Next(d, c);
    StepConsistent(enc, g, Classify(e));
    assert Tokens(d, c)[0] == e && Tokens(d, c)[1..] == Tokens(d, c');
    var ts := Classified(Tokens(d, c));
    assert ts[0] == Classify(e) && ts[1..] == Classified(Tokens(d, c'));
  }

  /** The next rule fires; the generator is not touched. */
  method Fire(sc: Scanner.Scanner, gen: Generator) returns (ev: Option<Event>)
    requires sc.Valid()
    modifies sc, sc.buf
    ensures sc.buf == old(sc.buf) || fresh(sc.buf)
    ensures Ready(sc.dfa, old(sc.Left()))
    ensures ev.None? <==> old(sc.Left()).unread == ""
    ensures ev.Some? ==> sc.Valid() && (ev.value, sc.Left()) == Next(sc.dfa, old(sc.Left()))
    ensures gen.G() == old(gen.G()) && gen.extData == old(gen.extData)
  {
    ev := sc.NextEvent();
  }

  /** The action of a rule calls the generator; the scanner is not touched. */
  method CallGenerator(sc: Scanner.Scanner, gen: Generator, t: Token) returns (ok: bool)
    requires sc.Valid() && Consistent(gen.G())
    modifies gen, gen.Repr()
    ensures Consistent(gen.G()) && (gen.G(), ok) == Step(gen.enc, old(gen.G()), t)
    ensures gen.extData == old(gen.extData) || gen.extData == null || fresh(gen.extData)
    ensures sc.Valid() && sc.V() == old(sc.V()) && sc.buf == old(sc.buf)
  {
    ok := gen.Perform(t);
  }

  /** One turn of yylex: the next rule fires and its action calls the generator. */
  method Turn(sc: Scanner.Scanner, gen: Generator, ghost c: Config) returns (ended: bool, ok: bool)
    requires sc.Valid() && Consistent(gen.G()) && c == sc.Left() && Ready(sc.dfa, c)
    modifies sc, sc.buf, gen, gen.Repr()
    ensures sc.buf == old(sc.buf) || fresh(sc.buf)
    ensures gen.extData == old(gen.extData) || gen.extData == null || fresh(gen.extData)
    ensures ended <==> c.unread == ""
    ensures ended ==> ok && gen.G() == old(gen.G())
    ensures !ended ==> sc.Valid() && sc.Left() == Next(sc.dfa, c).1
    ensures !ended ==> (gen.G(), ok) == Step(gen.enc, old(gen.G()), Classify(Next(sc.dfa, c).0))
  {
    var ev := Fire(sc, gen);
    ended, ok := ev.None?, true;
    if !ended {
      ok := CallGenerator(sc, gen, Classify(ev.value));
    }
  }

  /**
    CRLGEN_StartCrlGen: yylex with the generator called by its rule actions, until the script ends or an action fails.
    */
  method StartCrlGen(sc: Scanner.Scanner, gen: Generator) returns (ok: bool)
    requires sc.Valid() && Consistent(gen.G())
    modifies sc, sc.buf, gen, gen.Repr()
    ensures Ready(sc.dfa, old(sc.Left()))
    ensures (gen.G(), ok) == Run(gen.enc, old(gen.G()), Classified(Tokens(sc.dfa, old(sc.Left()))))
  {
    sc.ValidReady();
    ghost var c, g := sc.Left(), gen.G();
    ghost var result := Run(gen.enc, g, Classified(Tokens(sc.dfa, c)));
    var ended := false;
    ok := true;
    while ok && !ended
      invariant sc.buf == old(sc.buf) || fresh(sc.buf)
      invariant gen.extData == old(gen.extData) || gen.extData == null || fresh(gen.extData)
      invariant Ready(sc.dfa, c) && Consistent(g) && g == gen.G()
      invariant !ended ==> sc.Valid() && c == sc.Left()
      invariant ended ==> ok && c.unread == ""
      invariant result == if ok then Run(gen.enc, g, Classified(Tokens(sc.dfa, c))) else (g, false)
      decreases !ended, ok, Size(c)
    {
      ended, ok := Turn(sc, gen, c);
      if !ended {
        RunNext(gen.enc, g, sc.dfa, c);
        c, g := Next(sc.dfa, c).1, gen.G();
      }
    }
  }

  /** UpdateCrl with any tables that are well formed. */
  method UpdateWith(d: Dfa, enc: Encoder, entries: seq<CrlEntry>, extensions: seq<Extension>, script: string)
    returns (ok: bool, crl: Crl, committed: array?<Option<CrlEntry>>)
    requires d.WellFormed() && NulFree(script)
    ensures (crl, ok) == Outcome(d, enc, Initial(entries, extensions), script)
    ensures Committed(committed, crl.table)
  {
    var gen := new Generator(enc, entries, extensions);
    var sc := new Scanner.Scanner(d, script, BUFFER_SIZE);
    ghost var g := gen.G();
    ok := StartCrlGen(sc, gen);
    RunIsFold(enc, g, ScriptTokens(d, script));
    committed := gen.Commit();
    crl := Crl(gen.table, gen.rangeFrom, gen.rangeTo, gen.crlExtensions, gen.lastUpdate, gen.nextUpdate);
  }

  /** The entries are exactly those of the table, each once, with a null behind them; there is no array for none. */
  ghost predicate Committed(entries: array?<Option<CrlEntry>>, t: Table)
    reads entries
  {
    if |t| == 0 then entries == null
    else
      && entries != null && entries.Length == |t| + 1 && entries[|t|] == None
      && IsListing(entries[..|t|], t)
  }

  /**
    For every script, however it is read, the CRL is that of the fold over its complete lines up to the first failing
    one, and the committed entries are exactly those of its table, each once.
    */
  method UpdateCrl(enc: Encoder, entries: seq<CrlEntry>, extensions: seq<Extension>, script: string)
    returns (ok: bool, crl: Crl, committed: array?<Option<CrlEntry>>)
    requires NulFree(script)
    ensures (crl, ok) == Outcome(Tables(), enc, Initial(entries, extensions), script)
    ensures Committed(committed, crl.table)
  {
    ok, crl, committed := UpdateWith(Tables(), enc, entries, extensions, script);
  }
}
