/**
  The CRL generator of cmd/crlutil/crlgen.c with its record fields, table and range loops. Each operation
  is proved against the function on values it computes.
  */
module CrlGenerator {
  import opened BigEndian
  import opened DerInteger
  import opened CrlTable
  import opened CrlScript
  import opened Options

  // ------------------------------------------------------------------ starting from an existing CRL

  /** A later entry with the same serial number replaces an earlier one. */
  function TableOf(entries: seq<CrlEntry>): Table {
    if entries == [] then map[]
    else TableOf(entries[..|entries| - 1])[entries[|entries| - 1].serial := entries[|entries| - 1]]
  }

  function MaxSerial(entries: seq<CrlEntry>): (m: nat)
    ensures m < WORD
  {
    if entries == [] then 0
    else
      var m, sn := MaxSerial(entries[..|entries| - 1]), GetInteger(entries[|entries| - 1].serial);
      if m < sn then sn else m
  }

  /** The state CRLGEN_ExtHandleInit leaves; the 64-bit range wraps around. */
  function Initial(entries: seq<CrlEntry>, extensions: seq<Extension>): (c: Crl)
    ensures RangeOk(c)
  {
    var next := (MaxSerial(entries) + 1) % WORD;
    Crl(TableOf(entries), next, next, extensions, None, None)
  }

  lemma {:induction false} TableOfKeys(entries: seq<CrlEntry>)
    ensures KeysAreSerials(TableOf(entries))
    ensures forall k :: k in TableOf(entries) <==> exists i :: 0 <= i < |entries| && entries[i].serial == k
  {
    if entries == [] {
    } else {
      var init := entries[..|entries| - 1];
      TableOfKeys(init);
      forall k | k in TableOf(entries) ensures exists i :: 0 <= i < |entries| && entries[i].serial == k {
        if k != entries[|entries| - 1].serial {
          var i :| 0 <= i < |init| && init[i].serial == k;
          assert entries[i].serial == k;
        }
      }
      forall i | 0 <= i < |entries| ensures entries[i].serial in TableOf(entries) {
        if i < |init| {
          assert init[i].serial in TableOf(init);
        }
      }
    }
  }

  lemma {:induction false} MaxSerialIsMax(entries: seq<CrlEntry>, i: nat)
    requires i < |entries|
    ensures GetInteger(entries[i].serial) <= MaxSerial(entries)
  {
    if i == |entries| - 1 {
    } else {
      MaxSerialIsMax(entries[..|entries| - 1], i);
    }
  }

  lemma NextSerial(max: nat)
    requires max < WORD
    ensures (max + 1) % WORD == if max == WORD - 1 then 0 else max + 1
  {
  }

  lemma PresentSerial(entries: seq<CrlEntry>, n: nat)
    requires n < WORD && Encode(n) in TableOf(entries)
    ensures n <= MaxSerial(entries)
  {
    TableOfKeys(entries);
    var i :| 0 <= i < |entries| && entries[i].serial == Encode(n);
    MaxSerialIsMax(entries, i);
    DecodeEncode(n);
  }

  /**
    Right after initialisation the current range names one serial number. It has an entry exactly if the greatest serial
    number reads as the largest 64-bit word, so that the range wrapped around to 0, and 0 has an entry.
    */
  lemma InitialRange(entries: seq<CrlEntry>, extensions: seq<Extension>)
    ensures var c := Initial(entries, extensions);
            && c.from == c.upto
            && (Encode(c.from) in c.table <==> MaxSerial(entries) == WORD - 1 && Encode(0) in c.table)
  {
    var next := Initial(entries, extensions).from;
    NextSerial(MaxSerial(entries));
    if next > 0 && Encode(next) in TableOf(entries) {
      PresentSerial(entries, next);
    }
  }

  /** A CRL with the serial numbers -1 and 0: the range wraps around to 0, which has an entry. */
  lemma InitialRangeTaken(date: string)
    ensures var c := Initial([CrlEntry([255], date, []), CrlEntry([0], date, [])], []);
            c.from == c.upto == 0 && Encode(c.from) in c.table
  {
    var minusOne, zero := CrlEntry([255], date, []), CrlEntry([0], date, []);
    assert StripLeading([255], 255) == StripLeading([255][1..], 255) == [];
    assert GetInteger([255]) == WORD - 1;
    assert [minusOne, zero][..1] == [minusOne] && [minusOne][..0] == [];
    assert MaxSerial([minusOne]) == WORD - 1 && MaxSerial([minusOne, zero]) == WORD - 1;
    assert TableOf([minusOne, zero]) == TableOf([minusOne])[[0] := zero];
    assert Encode(0) == [0];
  }

  lemma NotYetFilled(from: nat, i: nat)
    requires from <= i < WORD
    ensures !InRange(Encode(i), from, i)
  {
    if InRange(Encode(i), from, i) {
      var j :| from <= j < i && Encode(i) == Encode(j);
      EncodeInjective(i, j);
      assert false;
    }
  }

  // ------------------------------------------------------------------ the generator

  lemma UpdateIs(enc: Encoder, g: Gen, c: Crl, ok: bool)
    requires Consistent(g) && (c, ok) == Apply(enc, g.crl, CommandOf(g))
    ensures Update(enc, g) == (Destroyed(g.(crl := c)).(line := g.line + 1), ok)
  {
  }

  class Generator {
    const enc: Encoder

    var contextId: Context
    var crlField: Option<Option<string>>
    var certEntry: Option<CertRecord>
    var extLive: bool                       // whether the extension record is allocated
    var extData: array?<Option<string>>
    var nextUpdatedData: nat
    var rangeFrom: nat
    var rangeTo: nat
    var table: Table
    var crlExtensions: seq<Extension>
    var lastUpdate: Option<string>
    var nextUpdate: Option<string>
    var parsedLineNum: nat
    ghost var allocs: nat
    ghost var frees: nat

    ghost function Repr(): set<object>
      reads this`extData
    {
      if extData == null then {} else {extData}
    }

    ghost function C(): Crl
      reads this`table, this`rangeFrom, this`rangeTo, this`crlExtensions, this`lastUpdate, this`nextUpdate
    {
      Crl(table, rangeFrom, rangeTo, crlExtensions, lastUpdate, nextUpdate)
    }

    ghost function ExtensionRecord(): ExtRecord
      reads this`extData, this`nextUpdatedData, Repr()
    {
      ExtRecord(if extData == null then None else Some(extData[..]), nextUpdatedData)
    }

    ghost function G(): Gen
      reads this, Repr()
    {
      var extension := if extLive then Some(ExtensionRecord()) else None;
      Gen(contextId, crlField, certEntry, extension, parsedLineNum, allocs, frees, C())
    }

    /** CRLGEN_InitCrlGeneration followed by CRLGEN_ExtHandleInit. */
    constructor (e: Encoder, entries: seq<CrlEntry>, extensions: seq<Extension>)
      ensures enc == e && extData == null
      ensures Consistent(G()) && G() == Gen(Unknown, None, None, None, 1, 0, 0, Initial(entries, extensions))
    {
      enc := e;
      contextId, crlField, certEntry, extLive, extData, nextUpdatedData := Unknown, None, None, false, null, 0;
      crlExtensions, lastUpdate, nextUpdate, parsedLineNum := extensions, None, None, 1;
      allocs, frees := 0, 0;
      var t: Table, maxSN := map[], 0;
      for i := 0 to |entries|
        invariant t == TableOf(entries[..i]) && maxSN == MaxSerial(entries[..i])
      {
        assert entries[..i + 1][..i] == entries[..i];
        var sn := GetInteger(entries[i].serial);
        t := t[entries[i].serial := entries[i]];
        maxSN := if maxSN < sn then sn else maxSN;
      }
      assert entries[..|entries|] == entries;
      table := t;
      rangeFrom, rangeTo := (maxSN + 1) % WORD, (maxSN + 1) % WORD;
    }

    // ---------------------------------------------------------------- line structures

    /** crlgen_createNewLangStruct for an extension. */
    method NewExtension()
      modifies this`extLive, this`extData, this`nextUpdatedData
      ensures extData == null && extLive && ExtensionRecord() == ExtRecord(None, 0)
    {
      extLive, extData, nextUpdatedData := true, null, 0;
    }

    method CreateNewLangStruct(ctx: Context) returns (ok: bool)
      requires Consistent(G()) && ctx != Unknown
      modifies this
      ensures (G(), ok) == Create(old(G()), ctx)
      ensures extData == old(extData) || extData == null
    {
      if contextId != Unknown {
        return false;
      }
      contextId := ctx;
      allocs := allocs + 1;
      if IsField(ctx) {
        crlField := Some(None);
      } else if IsCert(ctx) {
        certEntry := Some(CertRecord(None, None));
      } else {
        NewExtension();
      }
      ok := true;
    }

    method SetNextExtension(text: string) returns (ok: bool)
      requires SlotsOk(ExtensionRecord())
      modifies this`extData, this`nextUpdatedData, Repr()
      ensures (ExtensionRecord(), ok) == AddSlot(old(ExtensionRecord()), text)
      ensures extData == old(extData) || fresh(extData)
    {
      if extData == null {
        extData := new Option<string>[SLOTS](_ => None);
        assert extData[..] == seq(SLOTS, _ => None);
      }
      if nextUpdatedData >= SLOTS {
        return false;
      }
      extData[nextUpdatedData] := Some(text);
      nextUpdatedData := nextUpdatedData + 1;
      ok := true;
    }

    method SetNextData(text: string, dtype: DataType) returns (ok: bool)
      requires Consistent(G())
      modifies this, Repr()
      ensures (G(), ok) == SetData(old(G()), text, dtype)
      ensures extData == old(extData) || fresh(extData)
    {
      ok := true;
      if IsField(contextId) {
        ok := FieldTakes(contextId, dtype);
        if ok {
          crlField := Some(Some(text));
        }
      } else if IsCert(contextId) {
        if dtype == Digit || dtype == DigitRange {
          certEntry := Some(certEntry.value.(certId := Some(text)));
        } else if dtype == Date || dtype == ZDate {
          certEntry := Some(certEntry.value.(revocationTime := Some(text)));
        } else {
          ok := false;
        }
      } else if contextId == AddExtLine {
        ok := SetNextExtension(text);
      }
    }

    method DestroyTempData()
      modifies this`contextId, this`crlField, this`certEntry, this`extLive, this`frees
      ensures G() == Destroyed(old(G()))
    {
      if contextId != Unknown {
        crlField, certEntry, extLive := None, None, false;
        contextId := Unknown;
        frees := frees + 1;
      }
    }

    // ---------------------------------------------------------------- range loops

    /** crlgen_SetNewRangeField */
    method SetNewRange(value: Option<string>) returns (ok: bool)
      requires RangeOk(C())
      modifies this`rangeFrom, this`rangeTo
      ensures (C(), ok) == Apply(enc, old(C()), SetRange(value))
    {
      if value.None? || ParseRange(value.value).None? {
        return false;
      }
      rangeFrom, rangeTo := ParseRange(value.value).value.0, ParseRange(value.value).value.1;
      ok := true;
    }

    /** The loop of crlgen_AddCert: stops at the first serial number that has an entry. */
    method FillRange(date: string) returns (ok: bool)
      requires rangeFrom <= rangeTo < LONG_LIMIT
      modifies this`table
      ensures table == Filled(old(table), rangeFrom, FirstPresent(old(table), rangeFrom, rangeTo), date)
      ensures ok <==> FirstPresent(old(table), rangeFrom, rangeTo) > rangeTo
    {
      ghost var t := table;
      for i := rangeFrom to rangeTo + 1
        invariant table == Filled(t, rangeFrom, i, date)
        invariant FirstPresent(t, rangeFrom, rangeTo) == FirstPresent(t, i, rangeTo)
      {
        var key := Encode(i);
        FilledAt(t, rangeFrom, i, date, key);
        NotYetFilled(rangeFrom, i);
        if key in table {
          return false;
        }
        table := table[key := CrlEntry(key, date, [])];
      }
      ok := true;
    }

    /** crlgen_AddCert */
    method AddCerts(certId: Option<string>, date: Option<string>) returns (ok: bool)
      requires RangeOk(C())
      modifies this`rangeFrom, this`rangeTo, this`table
      ensures (C(), ok) == Apply(enc, old(C()), AddCert(certId, date))
    {
      if certId.None? || date.None? {
        return false;
      }
      ok := SetNewRange(certId);
      if ok {
        ok := FillRange(date.value);
      }
    }

    method EmptyRange()
      requires rangeFrom <= rangeTo < LONG_LIMIT
      modifies this`table
      ensures table == Emptied(old(table), rangeFrom, rangeTo + 1)
    {
      ghost var t := table;
      for i := rangeFrom to rangeTo + 1
        invariant table == Emptied(t, rangeFrom, i)
      {
        if Encode(i) in table {
          table := table - {Encode(i)};
        } else {
          assert table - {Encode(i)} == table;
        }
      }
    }

    /** crlgen_RmCert */
    method RmCerts(certId: Option<string>) returns (ok: bool)
      requires RangeOk(C())
      modifies this`rangeFrom, this`rangeTo, this`table
      ensures (C(), ok) == Apply(enc, old(C()), RmCert(certId))
    {
      if certId.None? {
        return false;
      }
      ok := SetNewRange(certId);
      if ok {
        EmptyRange();
      }
    }

    /** The loop of crlgen_AddEntryExtension. */
    method ExtendEntries(x: Extension) returns (ok: bool)
      requires RangeOk(C())
      modifies this`table
      ensures table == Extended(old(table), rangeFrom, rangeTo + 1, x)
      ensures ok <==> FirstPresent(old(table), rangeFrom, rangeTo) <= rangeTo
    {
      ok := false;
      ghost var t := table;
      for i := rangeFrom to rangeTo + 1
        invariant table == Extended(t, rangeFrom, i, x)
        invariant ok <==> FirstPresent(t, rangeFrom, rangeTo) < i
        invariant !ok ==> FirstPresent(t, rangeFrom, rangeTo) == FirstPresent(t, i, rangeTo)
      {
        var key := Encode(i);
        ExtendedKeys(t, rangeFrom, i, x);
        if key in table {
          table := table[key := table[key].(extensions := table[key].extensions + [x])];
          ok := true;
        }
      }
    }

    /** crlgen_AddExtension */
    method AddExtensionFields(fields: seq<string>) returns (ok: bool)
      requires RangeOk(C())
      modifies this`table, this`crlExtensions
      ensures (C(), ok) == Apply(enc, old(C()), AddExtension(fields))
    {
      ok := false;
      if fields != [] {
        if IsCrlExtension(fields[0]) {
          var x := CrlExtension(enc, fields);
          if x.Some? {
            crlExtensions := crlExtensions + [x.value];
            ok := true;
          }
        } else if IsEntryExtension(fields[0]) {
          var x := EntryExtension(fields);
          if x.Some? {
            ok := ExtendEntries(x.value);
          }
        }
      }
    }

    /** The update function of the current context. */
    method UpdateForContext() returns (ok: bool)
      requires Consistent(G())
      modifies this`rangeFrom, this`rangeTo, this`table, this`crlExtensions, this`lastUpdate, this`nextUpdate
      ensures (C(), ok) == Apply(enc, old(C()), CommandOf(old(G())))
    {
      match contextId
      case Unknown => ok := true;
      case IssuerLine => ok := true;
      case UpdateLine =>
        ok := crlField.value.Some?;
        lastUpdate := if ok then crlField.value else lastUpdate;
      case NextUpdateLine =>
        ok := crlField.value.Some?;
        nextUpdate := if ok then crlField.value else nextUpdate;
      case RangeLine =>
        ok := SetNewRange(crlField.value);
      case AddCertLine =>
        ok := AddCerts(certEntry.value.certId, certEntry.value.revocationTime);
      case RmCertLine =>
        ok := RmCerts(certEntry.value.certId);
      case AddExtLine =>
        ok := AddExtensionFields(if extData == null then [] else Fields(extData[..], nextUpdatedData));
    }

    /** The record is freed and the line is counted. */
    method FinishLine()
      modifies this`contextId, this`crlField, this`certEntry, this`extLive, this`frees, this`parsedLineNum
      ensures G() == Destroyed(old(G())).(line := old(G()).line + 1)
    {
      DestroyTempData();
      parsedLineNum := parsedLineNum + 1;
    }

    /** crlgen_updateCrl */
    method UpdateCrl() returns (ok: bool)
      requires Consistent(G())
      modifies this
      ensures (G(), ok) == Update(enc, old(G())) && extData == old(extData)
    {
      ghost var g := G();
      ok := UpdateForContext();
      ghost var c := C();
      assert G() == g.(crl := c);
      UpdateIs(enc, g, c, ok);
      FinishLine();
    }

    /** What the rule actions of the scanner call. */
    method Perform(t: Token) returns (ok: bool)
      requires Consistent(G())
      modifies this, Repr()
      ensures Consistent(G()) && (G(), ok) == Step(enc, old(G()), t)
      ensures extData == old(extData) || extData == null || fresh(extData)
    {
      StepConsistent(enc, G(), t);
      match t
      case Keyword(ctx) =>
        if ctx == Unknown {
          ok := true;
        } else {
          ok := CreateNewLangStruct(ctx);
        }
      case Data(text, dtype) => ok := SetNextData(text, dtype);
      case NewLine => ok := UpdateCrl();
      case Blank => ok := true;
      case Bad => ok := false;
    }

    // ---------------------------------------------------------------- commit

    /**
      The entries of CRLGEN_CommitExtensionsAndEntries: an array of exactly the table's entries, each once, in the order
      in which the hash table is enumerated, and a null terminator; no array for an empty table.
      */
    method Commit() returns (entries: array?<Option<CrlEntry>>)
      ensures entries == null <==> |table| == 0
      ensures entries != null ==>
                && fresh(entries) && entries.Length == |table| + 1 && entries[|table|] == None
                && IsListing(entries[..|table|], table)
    {
      if |table| == 0 {
        return null;
      }
      entries := CommitEntries(table);
    }
  }

  /** crlgen_CommitEntryData for one entry. */
  method StoreEntry(entry: CrlEntry, entries: array<Option<CrlEntry>>, pos: nat) returns (pos': nat)
    requires pos < entries.Length
    modifies entries
    ensures pos' == pos + 1 && entries[..pos'] == old(entries[..pos]) + [Some(entry)]
  {
    entries[pos] := Some(entry);
    pos' := pos + 1;
  }

  lemma ListedNext(entries: seq<Option<CrlEntry>>, order: seq<seq<byte>>, t: Table, key: seq<byte>)
    requires Listed(entries, order, t) && key in t
    ensures Listed(entries + [Some(t[key])], order + [key], t)
  {
  }

  /** The enumeration of the hash table, in an order that is not fixed. */
  method StoreEntries(t: Table, entries: array<Option<CrlEntry>>) returns (ghost order: seq<seq<byte>>)
    requires entries.Length == |t| + 1
    modifies entries
    ensures Enumerates(order, t) && Listed(entries[..|t|], order, t)
  {
    order := [];
    var rest, pos := t, 0;
    while |rest| > 0
      invariant pos == |order| && pos + |rest| == |t| && Passed(order, rest, t) && Listed(entries[..pos], order, t)
    {
      assert rest.Keys != {};
      var key :| key in rest;
      PassedNext(order, rest, t, key);
      ListedNext(entries[..pos], order, t, key);
      pos := StoreEntry(rest[key], entries, pos);
      order, rest := order + [key], rest - {key};
    }
  }

  lemma ListingOf(entries: seq<Option<CrlEntry>>, order: seq<seq<byte>>, t: Table)
    requires Enumerates(order, t) && Listed(entries, order, t)
    ensures IsListing(entries, t)
  {
  }

  /** The array of a table's entries and its terminator. */
  method CommitEntries(t: Table) returns (entries: array<Option<CrlEntry>>)
    ensures fresh(entries) && entries.Length == |t| + 1 && entries[|t|] == None && IsListing(entries[..|t|], t)
  {
    entries := new Option<CrlEntry>[|t| + 1](_ => None);
    ghost var order := StoreEntries(t, entries);
    ghost var stored := entries[..|t|];
    entries[|t|] := None;
    assert entries[..|t|] == stored;
    ListingOf(entries[..|t|], order, t);
  }

  /** The keys in `order` have been taken out of a table, each once, which leaves `rest`. */
  ghost predicate Passed(order: seq<seq<byte>>, rest: Table, t: Table) {
    && (forall k :: k in rest ==> k in t && rest[k] == t[k])
    && (forall k :: k in order <==> k in t && k !in rest)
    && (forall i, j :: 0 <= i < j < |order| ==> order[i] != order[j])
  }

  lemma PassedNext(order: seq<seq<byte>>, rest: Table, t: Table, key: seq<byte>)
    requires Passed(order, rest, t) && key in rest
    ensures Passed(order + [key], rest - {key}, t) && |rest - {key}| == |rest| - 1
  {
    assert (rest - {key}).Keys == rest.Keys - {key};
    var next := order + [key];
    assert forall k :: k in next <==> k in order || k == key;
  }

  /** An enumeration of the keys of a table, each exactly once. */
  ghost predicate Enumerates(order: seq<seq<byte>>, t: Table) {
    && |order| == |t| && (forall k :: k in order <==> k in t)
    && (forall i, j :: 0 <= i < j < |order| ==> order[i] != order[j])
  }

  ghost predicate Listed(entries: seq<Option<CrlEntry>>, order: seq<seq<byte>>, t: Table) {
    && |entries| == |order|
    && (forall i :: 0 <= i < |order| ==> order[i] in t && entries[i] == Some(t[order[i]]))
  }

  /** Exactly the entries of a table, each once, in some order. */
  ghost predicate IsListing(entries: seq<Option<CrlEntry>>, t: Table) {
    exists order :: Enumerates(order, t) && Listed(entries, order, t)
  }
}
