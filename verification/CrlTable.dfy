/**
  The table of revocation entries the CRL generator keeps (cmd/crlutil/crlgen.c), keyed by the
  encoded serial number, and what one line of a script does to it.
  */
module CrlTable {
  import opened CNumbers
  import opened BigEndian
  import opened DerInteger
  import opened Options

  datatype Extension =
    | ReasonCode(code: seq<byte>, critical: bool)
    | InvalidityDate(date: string, critical: bool)
    | CrlNumber(number: seq<byte>, critical: bool)
    | Other(fields: seq<string>)

  datatype CrlEntry = CrlEntry(serial: seq<byte>, revocationDate: string, extensions: seq<Extension>)

  type Table = map<seq<byte>, CrlEntry>

  /** What a script works on: the entries, the current range of serial numbers, CRL extensions and times. */
  datatype Crl = Crl(table: Table, from: nat, upto: nat, extensions: seq<Extension>,
                     lastUpdate: Option<string>, nextUpdate: Option<string>)

  ghost predicate KeysAreSerials(t: Table) {
    forall k :: k in t ==> t[k].serial == k
  }

  // ------------------------------------------------------------------ ranges

  /** crlgen_SetNewRangeField: the range a certificate id names. */
  function ParseRange(value: string): (r: Option<(nat, nat)>)
    ensures r.Some? ==> 1 <= r.value.0 <= r.value.1 < LONG_LIMIT
  {
    var dash := Find(value, '-');
    var from := if dash < |value| then Atoi(value[..dash]) else Atol(value);
    var upto := if dash < |value| then Atol(value[dash + 1..]) else from;
    if from < 1 || upto < from then None else Some((from, upto))
  }

  /** The smallest serial number from i to `upto` that has an entry, or `upto` + 1. */
  function FirstPresent(t: Table, i: nat, upto: nat): (f: nat)
    requires i <= upto + 1 && upto < WORD
    ensures i <= f <= upto + 1
    ensures forall j :: i <= j < f ==> Encode(j) !in t
    ensures f <= upto ==> Encode(f) in t
    decreases upto + 1 - i
  {
    if i > upto || Encode(i) in t then i else FirstPresent(t, i + 1, upto)
  }

  /** Entries for the serial numbers from `from` up to but not including n. */
  function Filled(t: Table, from: nat, n: nat, date: string): Table
    requires from <= n <= LONG_LIMIT
    decreases n - from
  {
    if n == from then t
    else Filled(t, from, n - 1, date)[Encode(n - 1) := CrlEntry(Encode(n - 1), date, [])]
  }

  function Emptied(t: Table, from: nat, n: nat): Table
    requires from <= n <= LONG_LIMIT
    decreases n - from
  {
    if n == from then t else Emptied(t, from, n - 1) - {Encode(n - 1)}
  }

  function Extended(t: Table, from: nat, n: nat, x: Extension): Table
    requires from <= n <= WORD
    decreases n - from
  {
    if n == from then t
    else
      var u := Extended(t, from, n - 1, x);
      var k := Encode(n - 1);
      if k in u then u[k := u[k].(extensions := u[k].extensions + [x])] else u
  }

  /** k is the key of a serial number from `from` up to but not including n. */
  ghost predicate InRange(k: seq<byte>, from: nat, n: nat)
    requires n <= WORD
  {
    exists i :: from <= i < n && k == Encode(i)
  }

  /** A filled table has the new entries, and otherwise the old ones. */
  lemma {:induction false} FilledAt(t: Table, from: nat, n: nat, date: string, k: seq<byte>)
    requires from <= n <= LONG_LIMIT
    ensures InRange(k, from, n) ==>
              k in Filled(t, from, n, date) && Filled(t, from, n, date)[k] == CrlEntry(k, date, [])
    ensures !InRange(k, from, n) ==>
              (k in Filled(t, from, n, date) <==> k in t) && (k in t ==> Filled(t, from, n, date)[k] == t[k])
    decreases n - from
  {
    if n == from {
    } else {
      FilledAt(t, from, n - 1, date, k);
      InRangeStep(k, from, n);
    }
  }

  lemma InRangeStep(k: seq<byte>, from: nat, n: nat)
    requires from < n <= WORD
    ensures InRange(k, from, n) <==> InRange(k, from, n - 1) || k == Encode(n - 1)
  {
    if k == Encode(n - 1) {
      assert InRange(k, from, n);
    }
    if InRange(k, from, n - 1) {
      var i :| from <= i < n - 1 && k == Encode(i);
      assert InRange(k, from, n);
    }
  }

  lemma {:induction false} EmptiedAt(t: Table, from: nat, n: nat, k: seq<byte>)
    requires from <= n <= LONG_LIMIT
    ensures k in Emptied(t, from, n) <==> k in t && !InRange(k, from, n)
    ensures k in Emptied(t, from, n) ==> Emptied(t, from, n)[k] == t[k]
    decreases n - from
  {
    if n == from {
    } else {
      EmptiedAt(t, from, n - 1, k);
      InRangeStep(k, from, n);
    }
  }

  lemma {:induction false} ExtendedKeys(t: Table, from: nat, n: nat, x: Extension)
    requires from <= n <= WORD
    ensures Extended(t, from, n, x).Keys == t.Keys
    decreases n - from
  {
    if n == from {
    } else {
      ExtendedKeys(t, from, n - 1, x);
    }
  }

  /** Every entry in the range has exactly one more extension; no other entry changes. */
  lemma {:induction false} ExtendedAt(t: Table, from: nat, n: nat, x: Extension, k: seq<byte>)
    requires from <= n <= WORD
    ensures Extended(t, from, n, x).Keys == t.Keys
    ensures k in t ==>
              Extended(t, from, n, x)[k] ==
              if InRange(k, from, n) then t[k].(extensions := t[k].extensions + [x]) else t[k]
    decreases n - from
  {
    if n == from {
    } else {
      ExtendedAt(t, from, n - 1, x, k);
      InRangeStep(k, from, n);
      if k == Encode(n - 1) && InRange(k, from, n - 1) {
        var i :| from <= i < n - 1 && k == Encode(i);
        EncodeInjective(i, n - 1);
      }
    }
  }

  // ------------------------------------------------------------------ commands

  /** What a line asks for; a missing argument is None. */
  datatype Command =
    | Nothing
    | Issuer
    | SetUpdate(time: Option<string>)
    | SetNextUpdate(time: Option<string>)
    | SetRange(range: Option<string>)
    | AddCert(id: Option<string>, date: Option<string>)
    | RmCert(id: Option<string>)
    | AddExtension(fields: seq<string>)

  /** The encoders of the library for CRL extensions other than the CRL number; None if they fail. */
  type Encoder = seq<string> -> Option<Extension>

  predicate StartsWith(s: string, c: char) {
    s != "" && s[0] == c
  }

  /** A number that atoi reads as zero must be written with a zero. */
  function ReadCode(s: string): Option<int> {
    if Atoi(s) == 0 && !StartsWith(s, '0') then None else Some(Atoi(s))
  }

  /** crlgen_CreateReasonCode and crlgen_CreateInvalidityDate. */
  function EntryExtension(fields: seq<string>): Option<Extension>
    requires fields != []
  {
    if |fields| < 3 then None
    else
      var critical := StartsWith(fields[1], '1');
      if fields[0] == "reasonCode" then
        var code := ReadCode(fields[2]);
        if code.None? || code.value > 10 then None else Some(ReasonCode(Encode(code.value % WORD), critical))
      else Some(InvalidityDate(fields[2], critical))
  }

  /** crlgen_AddCrlNumber, and the two CRL extensions left to the library. */
  function CrlExtension(enc: Encoder, fields: seq<string>): Option<Extension>
    requires fields != []
  {
    if |fields| < 3 then None
    else if fields[0] == "crlNumber" then
      var code := ReadCode(fields[2]);
      if code.None? then None else Some(CrlNumber(Encode(code.value % WORD), StartsWith(fields[1], '1')))
    else enc(fields)
  }

  predicate IsEntryExtension(name: string) {
    name == "reasonCode" || name == "invalidityDate"
  }

  predicate IsCrlExtension(name: string) {
    name == "authKeyId" || name == "issuerAltNames" || name == "crlNumber"
  }

  ghost predicate RangeOk(c: Crl) {
    c.from <= c.upto < WORD
  }

  /** What a command does, and whether it succeeds; a failing addcert keeps the entries made before the first clash. */
  function Apply(enc: Encoder, c: Crl, cmd: Command): (r: (Crl, bool))
    requires RangeOk(c)
    ensures RangeOk(r.0)
  {
    match cmd
    case Nothing => (c, true)
    case Issuer => (c, true)
    case SetUpdate(time) => if time.None? then (c, false) else (c.(lastUpdate := time), true)
    case SetNextUpdate(time) => if time.None? then (c, false) else (c.(nextUpdate := time), true)
    case SetRange(value) =>
      if value.None? || ParseRange(value.value).None? then (c, false) else (Ranged(c, value.value), true)
    case AddCert(id, date) =>
      if id.None? || date.None? || ParseRange(id.value).None? then (c, false)
      else
        var r := Ranged(c, id.value);
        var f := FirstPresent(c.table, r.from, r.upto);
        (r.(table := Filled(c.table, r.from, f, date.value)), f > r.upto)
    case RmCert(id) =>
      if id.None? || ParseRange(id.value).None? then (c, false)
      else
        var r := Ranged(c, id.value);
        (r.(table := Emptied(c.table, r.from, r.upto + 1)), true)
    case AddExtension(fields) =>
      if fields == [] then (c, false)
      else if IsCrlExtension(fields[0]) then
        var x := CrlExtension(enc, fields);
        if x.None? then (c, false) else (c.(extensions := c.extensions + [x.value]), true)
      else if IsEntryExtension(fields[0]) then
        var x := EntryExtension(fields);
        if x.None? then (c, false)
        else
          var t := Extended(c.table, c.from, c.upto + 1, x.value);
          (c.(table := t), FirstPresent(c.table, c.from, c.upto) <= c.upto)
      else (c, false)
  }

  function Ranged(c: Crl, value: string): (r: Crl)
    requires ParseRange(value).Some?
    ensures RangeOk(r) && r.upto < LONG_LIMIT
  {
    c.(from := ParseRange(value).value.0, upto := ParseRange(value).value.1)
  }

  /** The range a command sets, whether it succeeds or not. */
  function RangeSetBy(cmd: Command): Option<(nat, nat)> {
    match cmd
    case SetRange(Some(value)) => ParseRange(value)
    case AddCert(Some(id), Some(_)) => ParseRange(id)
    case RmCert(Some(id)) => ParseRange(id)
    case _ => None
  }

  // ------------------------------------------------------------------ properties

  /** A command sets the current range to its own, if it has one, and leaves it alone otherwise. */
  lemma ApplySetsRange(enc: Encoder, c: Crl, cmd: Command)
    requires RangeOk(c)
    ensures var u := Apply(enc, c, cmd).0;
            (u.from, u.upto) == if RangeSetBy(cmd).Some? then RangeSetBy(cmd).value else (c.from, c.upto)
  {
  }

  lemma FilledKeepsKeys(t: Table, from: nat, n: nat, date: string)
    requires from <= n <= LONG_LIMIT && KeysAreSerials(t)
    ensures KeysAreSerials(Filled(t, from, n, date))
  {
    var u := Filled(t, from, n, date);
    forall k | k in u ensures u[k].serial == k {
      FilledAt(t, from, n, date, k);
    }
  }

  lemma EmptiedKeepsKeys(t: Table, from: nat, n: nat)
    requires from <= n <= LONG_LIMIT && KeysAreSerials(t)
    ensures KeysAreSerials(Emptied(t, from, n))
  {
    var u := Emptied(t, from, n);
    forall k | k in u ensures u[k].serial == k {
      EmptiedAt(t, from, n, k);
    }
  }

  lemma ExtendedKeepsKeys(t: Table, from: nat, n: nat, x: Extension)
    requires from <= n <= WORD && KeysAreSerials(t)
    ensures KeysAreSerials(Extended(t, from, n, x))
  {
    var u := Extended(t, from, n, x);
    forall k | k in u ensures u[k].serial == k {
      ExtendedAt(t, from, n, x, k);
    }
  }

  /** In every state a command leads to, each key is the serial number of its entry. */
  lemma ApplyKeepsKeys(enc: Encoder, c: Crl, cmd: Command)
    requires RangeOk(c) && KeysAreSerials(c.table)
    ensures KeysAreSerials(Apply(enc, c, cmd).0.table)
  {
    match cmd
    case AddCert(Some(id), Some(date)) =>
      if ParseRange(id).Some? {
        var r := Ranged(c, id);
        FilledKeepsKeys(c.table, r.from, FirstPresent(c.table, r.from, r.upto), date);
      }
    case RmCert(Some(id)) =>
      if ParseRange(id).Some? {
        var r := Ranged(c, id);
        EmptiedKeepsKeys(c.table, r.from, r.upto + 1);
      }
    case AddExtension(fields) =>
      if fields != [] && EntryExtension(fields).Some? {
        ExtendedKeepsKeys(c.table, c.from, c.upto + 1, EntryExtension(fields).value);
      }
    case _ =>
  }

  /**
    An entry extension succeeds exactly when the current range meets the table; it adds one extension to each entry
    there and changes no other.
    */
  lemma EntryExtensionEffect(enc: Encoder, c: Crl, fields: seq<string>, k: seq<byte>)
    requires RangeOk(c) && fields != [] && IsEntryExtension(fields[0]) && EntryExtension(fields).Some?
    ensures var (u, ok) := Apply(enc, c, AddExtension(fields));
            && (ok <==> exists i :: c.from <= i <= c.upto && Encode(i) in c.table)
            && u == c.(table := u.table) && u.table.Keys == c.table.Keys
            && (k in c.table ==>
                  u.table[k] == if InRange(k, c.from, c.upto + 1)
                                then c.table[k].(extensions := c.table[k].extensions + [EntryExtension(fields).value])
                                else c.table[k])
  {
    ExtendedAt(c.table, c.from, c.upto + 1, EntryExtension(fields).value, k);
  }

  /** No serial number from `from` up to i has an entry. */
  ghost predicate Free(t: Table, from: nat, i: nat)
    requires i < WORD
  {
    forall j :: from <= j <= i ==> Encode(j) !in t
  }

  /** k is the key of a serial number of a range, and no serial number of the range up to it has an entry. */
  ghost predicate FreeTo(t: Table, from: nat, upto: nat, k: seq<byte>)
    requires upto < WORD
  {
    exists i :: from <= i <= upto && k == Encode(i) && Free(t, from, i)
  }

  /** A range filled up to its first serial number already present. */
  lemma FilledToFirst(t: Table, from: nat, upto: nat, date: string, k: seq<byte>)
    requires from <= upto < LONG_LIMIT
    ensures var f := FirstPresent(t, from, upto);
            var u := Filled(t, from, f, date);
            && (f > upto <==> Free(t, from, upto))
            && (k in t ==> k in u && u[k] == t[k])
            && (k in u && k !in t ==> u[k] == CrlEntry(k, date, []))
            && (k !in t ==> (k in u <==> FreeTo(t, from, upto, k)))
  {
    var f := FirstPresent(t, from, upto);
    FilledAt(t, from, f, date, k);
    if k !in t && InRange(k, from, f) {
      var i :| from <= i < f && k == Encode(i);
      assert Free(t, from, i);
      assert FreeTo(t, from, upto, k);
    }
    if FreeTo(t, from, upto, k) {
      var i :| from <= i <= upto && k == Encode(i) && Free(t, from, i);
      assert i < f;
    }
  }

  /**
    addcert adds exactly the serial numbers of its range below the first one already present, and fails exactly if
    there is one.
    */
  lemma AddCertEffect(enc: Encoder, c: Crl, id: string, date: string, k: seq<byte>)
    requires RangeOk(c) && ParseRange(id).Some?
    ensures var (u, ok) := Apply(enc, c, AddCert(Some(id), Some(date)));
            && (ok <==> Free(c.table, u.from, u.upto))
            && (u.from, u.upto) == ParseRange(id).value
            && (k in c.table ==> k in u.table && u.table[k] == c.table[k])
            && (k in u.table && k !in c.table ==> u.table[k] == CrlEntry(k, date, []))
            && (k !in c.table ==> (k in u.table <==> FreeTo(c.table, u.from, u.upto, k)))
  {
    var r := Ranged(c, id);
    FilledToFirst(c.table, r.from, r.upto, date, k);
  }

  /** rmcert removes exactly the entries of its range. */
  lemma RmCertEffect(enc: Encoder, c: Crl, id: string, k: seq<byte>)
    requires RangeOk(c) && ParseRange(id).Some?
    ensures var (u, ok) := Apply(enc, c, RmCert(Some(id)));
            && ok && (u.from, u.upto) == ParseRange(id).value
            && (k in u.table <==> k in c.table && !InRange(k, u.from, u.upto + 1))
            && (k in u.table ==> u.table[k] == c.table[k])
  {
    var r := Ranged(c, id);
    EmptiedAt(c.table, r.from, r.upto + 1, k);
  }

  lemma DashRange(d: string, e: string)
    requires '-' !in d
    ensures ParseRange(d + "-" + e) == if Atoi(d) < 1 || Atol(e) < Atoi(d) then None else Some((Atoi(d), Atol(e)))
  {
    var s := d + "-" + e;
    assert s[..|d|] == d && s[|d| + 1..] == e;
    FindAt(s, '-', |d|);
  }

  lemma PlainRange(d: string)
    requires '-' !in d
    ensures ParseRange(d) == if Atol(d) < 1 then None else Some((Atol(d), Atol(d)))
  {
    assert d[..|d|] == d;
    FindAt(d, '-', |d|);
  }

  /**
    A range written n-m names the serial numbers from n to m exactly if n fits into an int: the lower end is read
    with atoi, the upper end with atol.
    */
  lemma WrittenRange(n: nat, m: nat)
    requires 1 <= n <= m < LONG_LIMIT
    ensures ParseRange(Decimal(n) + "-" + Decimal(m)) == Some((n, m)) <==> n < 0x8000_0000
    ensures ParseRange(Decimal(n)) == Some((n, n))
  {
    AtolDecimal(n);
    AtolDecimal(m);
    AtoiDecimal(n);
    assert Decimal(n) != "" && '-' !in Decimal(n);
    DashRange(Decimal(n), Decimal(m));
    PlainRange(Decimal(n));
  }
}
