/**
  Subject alternative names (cmd/certutil/certext.c): a comma-separated list is parsed in place, and a
  fresh chain of names is spliced into a circular doubly linked list.
  */
module AltNames {
  import opened Characters
  import opened CNumbers
  import opened CStrings
  import opened Options

  // CERTGeneralNameType; 0 is undefined
  const RFC822: nat := 2
  const DNS: nat := 3
  const X400: nat := 4
  const EDI: nat := 6
  const URI: nat := 7

  /** A name of some type. */
  datatype Name = Name(kind: nat, data: string)

  /** The library's type names, and its conversions of the types that are more than a string; None if they fail. */
  datatype Library = Library(typeOf: string -> nat, convert: (nat, string) -> Option<string>)

  /** The types whose names are taken as they are. */
  predicate StringType(kind: nat) {
    kind == RFC822 || kind == DNS || kind == URI
  }

  function ToName(lib: Library, kind: nat, text: string): Option<Name> {
    if StringType(kind) then Some(Name(kind, text))
    else if kind == X400 || kind == EDI || kind == 0 || kind > 9 then None
    else
      var data := lib.convert(kind, text);
      if data.None? then None else Some(Name(kind, data.value))
  }

  // ------------------------------------------------------------------ what a list of names means

  /** One item of the list: skipped, refused or accepted; the type lasts for the items behind it. */
  datatype Item = Skip(kind: nat) | Refuse | Accept(kind: nat, name: Name)

  function ReadItem(lib: Library, item: string, kind: nat, typed: bool): Item {
    if item == "" then Skip(kind)
    else
      var colon := if typed then Find(item, ':') else |item|;
      var k := if colon < |item| then lib.typeOf(item[..colon]) else kind;
      var text := if colon < |item| then item[colon + 1..] else item;
      if colon < |item| && text == "" then Skip(k)
      else if ToName(lib, k, text).None? then Refuse
      else Accept(k, ToName(lib, k, text).value)
  }

  function NamesIn(item: Item): seq<Name> {
    if item.Accept? then [item.name] else []
  }

  datatype Parsed = Parsed(names: seq<Name>, ok: bool)

  function Behind(done: seq<Name>, p: Parsed): Parsed {
    Parsed(done + p.names, p.ok)
  }

  /** A comma in front of an item is not part of it. */
  function Unlead(s: string): string {
    if s != "" && s[0] == ',' then s[1..] else s
  }

  /** What stands before the first comma, and what stands behind it, if there is one. */
  function UpToComma(t: string): string {
    t[..Find(t, ',')]
  }

  function BehindComma(t: string): Option<string> {
    if Find(t, ',') < |t| then Some(t[Find(t, ',') + 1..]) else None
  }

  /** The items of a list, without their commas. */
  function Items(s: string): (items: seq<string>)
    decreases |s|
  {
    var t := Unlead(s);
    [UpToComma(t)] + if BehindComma(t).None? then [] else Items(BehindComma(t).value)
  }

  /**
    The names of some items, up to the first refused one, and whether none is refused. With `typed`, an item may start
    with a type of its own, which then holds for the items behind it as well.
    */
  function ReadItems(lib: Library, items: seq<string>, kind: nat, typed: bool): Parsed
    decreases |items|
  {
    if items == [] then Parsed([], true)
    else
      var item := ReadItem(lib, items[0], kind, typed);
      if item.Refuse? then Parsed([], false)
      else Behind(NamesIn(item), ReadItems(lib, items[1..], item.kind, typed))
  }

  function Parse(lib: Library, s: string, kind: nat, typed: bool): Parsed {
    ReadItems(lib, Items(s), kind, typed)
  }

  function Join(texts: seq<string>): string
    requires texts != []
  {
    if |texts| == 1 then texts[0] else texts[0] + ("," + Join(texts[1..]))
  }

  function NamesOf(kind: nat, texts: seq<string>): seq<Name> {
    if texts == [] then [] else [Name(kind, texts[0])] + NamesOf(kind, texts[1..])
  }

  /** The comma behind a text. */
  lemma CommaBehind(x: string, rest: string)
    requires x != "" && ',' !in x
    ensures var t := Unlead(x + ("," + rest)); UpToComma(t) == x && BehindComma(t) == Some(rest)
  {
    var s := x + ("," + rest);
    assert s[0] == x[0] && s[..|x|] == x && s[|x|] == ',' && s[|x| + 1..] == rest;
    FindAt(s, ',', |x|);
  }

  ghost predicate Plain(texts: seq<string>) {
    forall i :: 0 <= i < |texts| ==> texts[i] != "" && ',' !in texts[i]
  }

  lemma ItemsOne(x: string)
    requires x != "" && ',' !in x
    ensures Items(x) == [x]
  {
    assert x[..|x|] == x;
    FindAt(x, ',', |x|);
  }

  lemma ItemsFrom(s: string, x: string, rest: string)
    requires UpToComma(Unlead(s)) == x && BehindComma(Unlead(s)) == Some(rest)
    ensures Items(s) == [x] + Items(rest)
  {
  }

  lemma JoinFirst(texts: seq<string>)
    requires |texts| > 1 && texts[0] != "" && ',' !in texts[0] && Items(Join(texts[1..])) == texts[1..]
    ensures Items(Join(texts)) == texts
  {
    var x, rest := texts[0], Join(texts[1..]);
    assert Join(texts) == x + ("," + rest);
    CommaBehind(x, rest);
    ItemsFrom(x + ("," + rest), x, rest);
  }

  lemma {:induction false} ItemsJoin(texts: seq<string>)
    requires texts != [] && Plain(texts)
    ensures Items(Join(texts)) == texts
    decreases |texts|
  {
    if |texts| == 1 {
      ItemsOne(texts[0]);
    } else {
      ItemsJoin(texts[1..]);
      JoinFirst(texts);
    }
  }

  lemma {:induction false} ReadTexts(lib: Library, texts: seq<string>, kind: nat)
    requires Plain(texts) && StringType(kind)
    ensures ReadItems(lib, texts, kind, false) == Parsed(NamesOf(kind, texts), true)
    decreases |texts|
  {
    if texts == [] {
    } else {
      assert ReadItem(lib, texts[0], kind, false) == Accept(kind, Name(kind, texts[0]));
      ReadTexts(lib, texts[1..], kind);
    }
  }

  /** A list made of non-empty texts without commas reads back as those texts, for the types that take any string. */
  lemma ParseJoin(lib: Library, texts: seq<string>, kind: nat)
    requires texts != [] && Plain(texts) && StringType(kind)
    ensures Parse(lib, Join(texts), kind, false) == Parsed(NamesOf(kind, texts), true)
  {
    ItemsJoin(texts);
    ReadTexts(lib, texts, kind);
  }

  // ------------------------------------------------------------------ lists with types

  /** A text, with a type in front of it or without. */
  datatype Entry = Entry(typeName: Option<string>, text: string)

  function Render(e: Entry): string {
    if e.typeName.None? then e.text else e.typeName.value + (":" + e.text)
  }

  /** A list has no quoting: a comma ends an item, and a text with a colon needs a type in front of it. */
  predicate Writable(e: Entry) {
    && e.text != "" && ',' !in e.text
    && if e.typeName.None? then ':' !in e.text else ':' !in e.typeName.value && ',' !in e.typeName.value
  }

  function Rendered(entries: seq<Entry>): (r: seq<string>)
    ensures |r| == |entries| && forall i :: 0 <= i < |r| ==> r[i] == Render(entries[i])
  {
    if entries == [] then [] else [Render(entries[0])] + Rendered(entries[1..])
  }

  /** The type after some entries: the last one given, or the one before them. */
  function LastKind(lib: Library, entries: seq<Entry>, kind: nat): nat {
    if entries == [] then kind
    else if entries[|entries| - 1].typeName.Some? then lib.typeOf(entries[|entries| - 1].typeName.value)
    else LastKind(lib, entries[..|entries| - 1], kind)
  }

  /** The name of an entry, by the type after the entries up to it. */
  function NameAt(lib: Library, entries: seq<Entry>, kind: nat, i: nat): Option<Name>
    requires i < |entries|
  {
    ToName(lib, LastKind(lib, entries[..i + 1], kind), entries[i].text)
  }

  lemma {:induction false} LastKindFront(lib: Library, e: Entry, entries: seq<Entry>, kind: nat)
    ensures LastKind(lib, [e] + entries, kind) == LastKind(lib, entries, LastKind(lib, [e], kind))
    decreases |entries|
  {
    var all := [e] + entries;
    if entries == [] {
      assert all == [e];
    } else {
      assert all[..|all| - 1] == [e] + entries[..|entries| - 1];
      LastKindFront(lib, e, entries[..|entries| - 1], kind);
    }
  }

  /** Behind its first entry, a list goes on with the type of that entry. */
  lemma NameBehind(lib: Library, e: Entry, entries: seq<Entry>, kind: nat, i: nat)
    requires i < |entries|
    ensures NameAt(lib, [e] + entries, kind, i + 1) == NameAt(lib, entries, LastKind(lib, [e], kind), i)
  {
    assert ([e] + entries)[..i + 2] == [e] + entries[..i + 1];
    LastKindFront(lib, e, entries[..i + 1], kind);
  }

  lemma ReadEntry(lib: Library, e: Entry, kind: nat)
    requires Writable(e)
    ensures var k := LastKind(lib, [e], kind);
            && Render(e) != "" && ',' !in Render(e)
            && ReadItem(lib, Render(e), kind, true) ==
               (if ToName(lib, k, e.text).None? then Refuse else Accept(k, ToName(lib, k, e.text).value))
  {
    var item := Render(e);
    assert [e][..0] == [];
    if e.typeName.None? {
      FindAt(item, ':', |item|);
    } else {
      var t := e.typeName.value;
      assert item[..|t|] == t && item[|t| + 1..] == e.text;
      FindAt(item, ':', |t|);
    }
  }

  /** All entries have a name of their own kind; these are the names. */
  ghost predicate AreNames(lib: Library, entries: seq<Entry>, kind: nat, names: seq<Name>) {
    |names| == |entries| && forall i :: 0 <= i < |entries| ==> NameAt(lib, entries, kind, i) == Some(names[i])
  }

  lemma AreNamesCons(lib: Library, e: Entry, entries: seq<Entry>, kind: nat, name: Name, names: seq<Name>)
    requires ToName(lib, LastKind(lib, [e], kind), e.text) == Some(name)
    requires AreNames(lib, entries, LastKind(lib, [e], kind), names)
    ensures AreNames(lib, [e] + entries, kind, [name] + names)
  {
    assert ([e] + entries)[..1] == [e];
    forall i | 0 <= i < |entries| ensures NameAt(lib, [e] + entries, kind, i + 1) == Some(names[i]) {
      NameBehind(lib, e, entries, kind, i);
    }
    forall i | 0 <= i < |entries| + 1 ensures NameAt(lib, [e] + entries, kind, i) == Some(([name] + names)[i]) {
      assert i > 0 ==> NameAt(lib, [e] + entries, kind, i - 1 + 1) == Some(names[i - 1]);
    }
  }

  /** The entries are read up to the first one that has no name. */
  lemma {:induction false} ReadEntries(lib: Library, entries: seq<Entry>, kind: nat)
    requires forall i :: 0 <= i < |entries| ==> Writable(entries[i])
    ensures var p := ReadItems(lib, Rendered(entries), kind, true);
            if p.ok then AreNames(lib, entries, kind, p.names)
            else exists i :: 0 <= i < |entries| && NameAt(lib, entries, kind, i).None?
    decreases |entries|
  {
    if entries == [] {
    } else {
      var e, others := entries[0], entries[1..];
      var k := LastKind(lib, [e], kind);
      assert entries == [e] + others && entries[..1] == [e];
      assert Rendered(entries)[1..] == Rendered(others);
      ReadEntry(lib, e, kind);
      if ToName(lib, k, e.text).None? {
        assert NameAt(lib, entries, kind, 0).None?;
      } else {
        ReadEntries(lib, others, k);
        var p := ReadItems(lib, Rendered(others), k, true);
        if p.ok {
          AreNamesCons(lib, e, others, kind, ToName(lib, k, e.text).value, p.names);
        } else {
          var i :| 0 <= i < |others| && NameAt(lib, others, k, i).None?;
          NameBehind(lib, e, others, kind, i);
        }
      }
    }
  }

  /**
    A list made of texts with and without types is accepted exactly if every text can be a name of its type, which is
    the last one given up to it, and it reads back as these names.
    */
  lemma ParseEntries(lib: Library, entries: seq<Entry>, kind: nat)
    requires entries != [] && forall i :: 0 <= i < |entries| ==> Writable(entries[i])
    ensures var p := Parse(lib, Join(Rendered(entries)), kind, true);
            && (p.ok <==> forall i :: 0 <= i < |entries| ==> NameAt(lib, entries, kind, i).Some?)
            && (p.ok ==> AreNames(lib, entries, kind, p.names))
  {
    var texts := Rendered(entries);
    forall i | 0 <= i < |texts| ensures texts[i] != "" && ',' !in texts[i] {
      ReadEntry(lib, entries[i], kind);
    }
    ItemsJoin(texts);
    ReadEntries(lib, entries, kind);
  }

  // ------------------------------------------------------------------ chains and rings

  class GeneralName {
    const kind: nat
    const data: string
    var next: GeneralName?
    var prev: GeneralName?

    constructor (name: Name)
      ensures kind == name.kind && data == name.data && next == null && prev == null
    {
      kind, data := name.kind, name.data;
      next, prev := null, null;
    }
  }

  ghost predicate Distinct(s: seq<GeneralName>) {
    forall i, j :: 0 <= i < j < |s| ==> s[i] != s[j]
  }

  /** Neighbours in s point to each other. */
  ghost predicate Linked(s: seq<GeneralName>)
    reads s
  {
    && (forall i {:trigger s[i].next} :: 0 <= i < |s| - 1 ==> s[i].next == s[i + 1])
    && (forall i {:trigger s[i].prev} :: 1 <= i < |s| ==> s[i].prev == s[i - 1])
  }

  /** s is a circular list: next and prev are inverse to each other all around. */
  ghost predicate Ring(s: seq<GeneralName>)
    reads s
  {
    Distinct(s) && Linked(s) && (s != [] ==> s[|s| - 1].next == s[0] && s[0].prev == s[|s| - 1])
  }

  ghost function Names(s: seq<GeneralName>): (r: seq<Name>)
    ensures |r| == |s| && forall i :: 0 <= i < |s| ==> r[i] == Name(s[i].kind, s[i].data)
  {
    seq(|s|, i requires 0 <= i < |s| => Name(s[i].kind, s[i].data))
  }

  /** The ends of a chain that is not circular yet; both are null if it is empty. */
  ghost predicate Ends(s: seq<GeneralName>, first: GeneralName?, last: GeneralName?) {
    if s == [] then first == null && last == null else first == s[0] && last == s[|s| - 1]
  }

  /** Adds an accepted name at the end of the chain. */
  method Append(name: Name, first: GeneralName?, last: GeneralName?, ghost chain: seq<GeneralName>)
    returns (first': GeneralName, last': GeneralName, ghost chain': seq<GeneralName>)
    requires Distinct(chain) && Linked(chain) && Ends(chain, first, last)
    modifies if last == null then {} else {last}
    ensures chain' == chain + [last'] && fresh(last')
    ensures Distinct(chain') && Linked(chain') && Ends(chain', first', last')
    ensures Names(chain') == Names(chain) + [name]
  {
    var current := new GeneralName(name);
    if last != null {
      current.prev := last;
      last.next := current;
      first' := first;
    } else {
      first' := current;
    }
    last' := current;
    chain' := chain + [current];
  }

  /** Adds what an item brings. */
  method AppendItem(item: Item, first: GeneralName?, last: GeneralName?, ghost chain: seq<GeneralName>)
    returns (first': GeneralName?, last': GeneralName?, ghost chain': seq<GeneralName>)
    requires Distinct(chain) && Linked(chain) && Ends(chain, first, last)
    modifies if last == null then {} else {last}
    ensures chain' == chain || (chain' == chain + [last'] && fresh(last'))
    ensures Distinct(chain') && Linked(chain') && Ends(chain', first', last')
    ensures Names(chain') == Names(chain) + NamesIn(item)
  {
    first', last', chain' := first, last, chain;
    if item.Accept? {
      first', last', chain' := Append(item.name, first, last, chain);
    }
  }

  lemma LinkedConcat(a: seq<GeneralName>, b: seq<GeneralName>)
    requires Linked(a) && Linked(b) && a != [] && b != []
    requires a[|a| - 1].next == b[0] && b[0].prev == a[|a| - 1]
    ensures Linked(a + b)
  {
    var s := a + b;
    forall i | 0 <= i < |s| - 1 ensures s[i].next == s[i + 1] {
      if i < |a| {
        assert s[i].next == a[i].next;
      } else {
        assert s[i].next == b[i - |a|].next;
      }
    }
    forall i | 1 <= i < |s| ensures s[i].prev == s[i - 1] {
      if i < |a| {
        assert s[i].prev == a[i].prev;
      } else {
        assert s[i].prev == b[i - |a|].prev;
      }
    }
  }

  lemma DistinctParts(a: seq<GeneralName>, b: seq<GeneralName>)
    requires Distinct(a + b)
    ensures Distinct(a) && Distinct(b) && forall x :: x in a ==> x !in b
  {
    var s := a + b;
    assert forall i :: 0 <= i < |a| ==> s[i] == a[i];
    assert forall i :: 0 <= i < |b| ==> s[|a| + i] == b[i];
  }

  lemma DistinctConcat(a: seq<GeneralName>, b: seq<GeneralName>)
    requires Distinct(a) && Distinct(b) && forall x :: x in a ==> x !in b
    ensures Distinct(a + b)
  {
    assert forall i :: 0 <= i < |a| ==> a[i] in a;
    assert forall i :: 0 <= i < |b| ==> b[i] in b;
  }

  /** Splices the chain in behind the last element of a ring. */
  method SpliceIn(head: GeneralName, first: GeneralName, last: GeneralName, ghost ring: seq<GeneralName>,
      ghost chain: seq<GeneralName>)
    requires Ring(ring) && ring != [] && head == ring[0]
    requires chain != [] && Distinct(ring + chain) && Linked(chain) && Ends(chain, first, last)
    modifies ring, chain
    ensures Ring(ring + chain)
  {
    DistinctParts(ring, chain);
    var existingprev := head.prev;
    head.prev := last;
    first.prev := existingprev;
    existingprev.next := first;
    last.next := head;
    assert first in chain && last in chain && head in ring && existingprev in ring;
    assert forall i :: 0 <= i < |ring| - 1 ==>
      old(ring[i].next) == ring[i + 1] && ring[i] != existingprev && ring[i] != last;
    assert forall i :: 1 <= i < |ring| ==> old(ring[i].prev) == ring[i - 1] && ring[i] != head && ring[i] != first;
    assert forall i :: 0 <= i < |chain| - 1 ==>
      old(chain[i].next) == chain[i + 1] && chain[i] != existingprev && chain[i] != last;
    assert forall i :: 1 <= i < |chain| ==> old(chain[i].prev) == chain[i - 1] && chain[i] != head && chain[i] != first;
    LinkedConcat(ring, chain);
  }

  /** Closes a chain to a ring. */
  method Close(first: GeneralName, last: GeneralName, ghost chain: seq<GeneralName>)
    requires chain != [] && Distinct(chain) && Linked(chain) && Ends(chain, first, last)
    modifies chain
    ensures Ring(chain)
  {
    first.prev := last;
    last.next := first;
  }

  // ------------------------------------------------------------------ parsing in place

  /** The string at `cp`, if there is more. */
  ghost function StringAt(a: seq<char>, cp: nat, more: bool): Option<string>
    requires more ==> Terminated(a) && cp < |a|
  {
    if more then Some(CString(a, cp)) else None
  }

  /** Ends the item at `start` with a NUL in place of its comma. */
  method CutComma(a: array<char>, start: nat) returns (next: nat, more: bool)
    requires Terminated(a[..]) && start < a.Length
    modifies a
    ensures Terminated(a[..]) && start + |CString(a[..], start)| < next && (more ==> next < a.Length)
    ensures CString(a[..], start) == UpToComma(old(CString(a[..], start)))
    ensures BehindComma(old(CString(a[..], start))) == StringAt(a[..], next, more)
  {
    var at;
    at, more := StrChr(a, start, ',');
    CutAt(a[..], start, at - start);
    if more {
      a[at] := NUL;
      assert a[..] == old(a[..])[at := NUL];
    }
    next := at + 1;
  }

  /** Ends the item at `cp`. */
  method CutItem(a: array<char>, cp: nat) returns (start: nat, next: nat, more: bool)
    requires Terminated(a[..]) && cp < a.Length
    modifies a
    ensures Terminated(a[..]) && cp <= start < a.Length
    ensures start + |CString(a[..], start)| < next && (more ==> next < a.Length)
    ensures var t := Unlead(old(CString(a[..], cp)));
            CString(a[..], start) == UpToComma(t) && StringAt(a[..], next, more) == BehindComma(t)
  {
    start := cp;
    if a[cp] == ',' {
      start := cp + 1;
    }
    assert CString(a[..], start) == Unlead(CString(a[..], cp));
    next, more := CutComma(a, start);
  }

  /** Ends the string at `start` with a NUL; the string from `next` on is left as it is. */
  method EndAt(a: array<char>, start: nat, at: nat, ghost next: nat)
    requires Terminated(a[..]) && start < a.Length && start <= at < start + |CString(a[..], start)| < next
    modifies a
    ensures Terminated(a[..]) && at + 1 < a.Length
    ensures var s := old(CString(a[..], start));
            CString(a[..], start) == s[..at - start] && CString(a[..], at + 1) == s[at - start + 1..]
    ensures next < a.Length ==> CString(a[..], next) == old(CString(a[..], next))
  {
    CutAt(a[..], start, at - start);
    if next < a.Length {
      CutBefore(a[..], at, next);
    }
    a[at] := NUL;
    assert a[..] == old(a[..])[at := NUL];
  }

  /** Cuts the type off an item in place, if it has one. */
  method CutType(lib: Library, a: array<char>, start: nat, kind: nat, ghost next: nat)
    returns (k: nat, at: nat, named: bool)
    requires Terminated(a[..]) && start < a.Length && start + |CString(a[..], start)| < next
    modifies a
    ensures Terminated(a[..]) && at < a.Length
    ensures next < a.Length ==> CString(a[..], next) == old(CString(a[..], next))
    ensures var item := old(CString(a[..], start));
            var colon := Find(item, ':');
            && (named <==> colon < |item|)
            && k == (if named then lib.typeOf(item[..colon]) else kind)
            && CString(a[..], at) == if named then item[colon + 1..] else item
  {
    var colon, found := StrChr(a, start, ':');
    if !found {
      return kind, start, false;
    }
    EndAt(a, start, colon, next);
    var name := ReadString(a, start);
    k, at, named := lib.typeOf(name), colon + 1, true;
  }

  /** One item; the text from `next` on is left as it is. */
  method TakeItem(lib: Library, a: array<char>, start: nat, kind: nat, typed: bool, ghost next: nat) returns (r: Item)
    requires Terminated(a[..]) && start < a.Length && start + |CString(a[..], start)| < next
    modifies a
    ensures Terminated(a[..])
    ensures next < a.Length ==> CString(a[..], next) == old(CString(a[..], next))
    ensures r == ReadItem(lib, old(CString(a[..], start)), kind, typed)
  {
    if a[start] == NUL {
      return Skip(kind);
    }
    var k, at, named := kind, start, false;
    if typed {
      k, at, named := CutType(lib, a, start, kind, next);
    }
    var text := ReadString(a, at);
    if named && text == "" {
      return Skip(k);
    }
    var name := ToName(lib, k, text);
    r := if name.None? then Refuse else Accept(k, name.value);
  }

  /** The items from `cp` on, if there are more. */
  ghost function ItemsAt(a: seq<char>, cp: nat, more: bool): seq<string>
    requires more ==> Terminated(a) && cp < |a|
  {
    if more then Items(CString(a, cp)) else []
  }

  /** Reads the first item at `cp`, and finds where the next one starts. */
  method NextItem(lib: Library, a: array<char>, cp: nat, kind: nat, typed: bool)
    returns (r: Item, next: nat, more: bool)
    requires Terminated(a[..]) && cp < a.Length
    modifies a
    ensures Terminated(a[..]) && cp < next && (more ==> next < a.Length)
    ensures var items := old(Items(CString(a[..], cp)));
            items != [] && r == ReadItem(lib, items[0], kind, typed) && ItemsAt(a[..], next, more) == items[1..]
  {
    var start;
    start, next, more := CutItem(a, cp);
    r := TakeItem(lib, a, start, kind, typed, next);
  }

  /** What the items still bring, unless one was refused. */
  ghost function Left(lib: Library, items: seq<string>, kind: nat, typed: bool, ok: bool): Parsed {
    if ok then ReadItems(lib, items, kind, typed) else Parsed([], false)
  }

  /** The type after an item. */
  function KindAfter(item: Item, kind: nat): nat {
    if item.Refuse? then kind else item.kind
  }

  /** What one more item leaves to be read. */
  lemma OneItem(lib: Library, names: seq<Name>, items: seq<string>, kind: nat, typed: bool, item: Item)
    requires items != [] && item == ReadItem(lib, items[0], kind, typed)
    ensures Behind(names, ReadItems(lib, items, kind, typed)) ==
            Behind(names + NamesIn(item), Left(lib, items[1..], KindAfter(item, kind), typed, !item.Refuse?))
  {
    var p := Left(lib, items[1..], KindAfter(item, kind), typed, !item.Refuse?);
    assert names + (NamesIn(item) + p.names) == (names + NamesIn(item)) + p.names;
  }

  /** One turn of the loop in AddSubjectAltNames. */
  method ParseStep(lib: Library, a: array<char>, cp: nat, kind: nat, typed: bool,
      first: GeneralName?, last: GeneralName?, ghost chain: seq<GeneralName>)
    returns (ok: bool, cp': nat, kind': nat, more: bool,
      first': GeneralName?, last': GeneralName?, ghost chain': seq<GeneralName>)
    requires Terminated(a[..]) && cp < a.Length
    requires Distinct(chain) && Linked(chain) && Ends(chain, first, last)
    modifies a, if last == null then {} else {last}
    ensures Terminated(a[..]) && cp < cp' && (more ==> cp' < a.Length)
    ensures Behind(Names(chain'), Left(lib, ItemsAt(a[..], cp', more), kind', typed, ok)) ==
            Behind(Names(chain), ReadItems(lib, old(Items(CString(a[..], cp))), kind, typed))
    ensures chain' == chain || (chain' == chain + [last'] && fresh(last'))
    ensures Distinct(chain') && Linked(chain') && Ends(chain', first', last')
  {
    ghost var items := Items(CString(a[..], cp));
    var item;
    item, cp', more := NextItem(lib, a, cp, kind, typed);
    ok, kind' := !item.Refuse?, KindAfter(item, kind);
    OneItem(lib, Names(chain), items, kind, typed, item);
    ghost var text := a[..];
    first', last', chain' := AppendItem(item, first, last, chain);
    assert a[..] == text;
  }

  /** The loop of AddSubjectAltNames: a fresh chain of the accepted names. */
  method ParseNames(lib: Library, a: array<char>, kind0: nat, typed: bool)
    returns (ok: bool, first: GeneralName?, last: GeneralName?, ghost chain: seq<GeneralName>)
    requires Terminated(a[..])
    modifies a
    ensures old(Parse(lib, CString(a[..], 0), kind0, typed)) == Parsed(Names(chain), ok)
    ensures Distinct(chain) && Linked(chain) && Ends(chain, first, last)
    ensures forall i :: 0 <= i < |chain| ==> fresh(chain[i])
  {
    ghost var all := Parse(lib, CString(a[..], 0), kind0, typed);
    var cp: nat, kind: nat, more := 0, kind0, true;
    ok, first, last, chain := true, null, null, [];
    while ok && more
      invariant Terminated(a[..]) && (more ==> cp < a.Length)
      invariant all == Behind(Names(chain), Left(lib, ItemsAt(a[..], cp, more), kind, typed, ok))
      invariant Distinct(chain) && Linked(chain) && Ends(chain, first, last)
      invariant forall i :: 0 <= i < |chain| ==> fresh(chain[i])
      decreases ok && more, a.Length - cp
    {
      ok, cp, kind, more, first, last, chain := ParseStep(lib, a, cp, kind, typed, first, last, chain);
    }
  }

  // ------------------------------------------------------------------ adding to a ring

  ghost predicate HeadOf(ring: seq<GeneralName>, head: GeneralName?) {
    if ring == [] then head == null else head == ring[0]
  }

  /** What a list of names brings; a missing one is a failure. */
  ghost function Brings(lib: Library, names: Option<string>, kind: nat): Parsed {
    if names.None? then Parsed([], false) else Parse(lib, names.value, kind, kind == 0)
  }

  /** A list counts as a whole or not at all. */
  ghost function Kept(p: Parsed): seq<Name> {
    if p.ok then p.names else []
  }

  lemma NamesConcat(a: seq<GeneralName>, b: seq<GeneralName>)
    ensures Names(a + b) == Names(a) + Names(b)
  {
  }

  /** Parses a copy of the list. */
  method ParseCopy(lib: Library, s: string, kind: nat, typed: bool)
    returns (ok: bool, first: GeneralName?, last: GeneralName?, ghost chain: seq<GeneralName>)
    requires NUL !in s
    ensures Parse(lib, s, kind, typed) == Parsed(Names(chain), ok)
    ensures Distinct(chain) && Linked(chain) && Ends(chain, first, last)
    ensures forall i :: 0 <= i < |chain| ==> fresh(chain[i])
  {
    var names := new char[|s| + 1](i requires 0 <= i <= |s| => if i < |s| then s[i] else NUL);
    CStringIs(names[..], 0, s);
    ok, first, last, chain := ParseNames(lib, names, kind, typed);
  }

  /** A list that is added only if it is given. */
  datatype Request = Request(given: bool, names: Option<string>, kind: nat)

  ghost function IfGiven(lib: Library, r: Request): Parsed {
    if r.given then Brings(lib, r.names, r.kind) else Parsed([], true)
  }

  /** What several lists bring together; a list that fails brings nothing, and makes the whole fail. */
  ghost function Together(lib: Library, rs: seq<Request>): Parsed {
    if rs == [] then Parsed([], true)
    else
      var before, p := Together(lib, rs[..|rs| - 1]), IfGiven(lib, rs[|rs| - 1]);
      Parsed(before.names + Kept(p), before.ok && p.ok)
  }

  lemma TogetherSnoc(lib: Library, rs: seq<Request>, r: Request)
    ensures var before, p := Together(lib, rs), IfGiven(lib, r);
            Together(lib, rs + [r]) == Parsed(before.names + Kept(p), before.ok && p.ok)
  {
    var all := rs + [r];
    assert all[..|rs|] == rs;
  }

  lemma OneTwoThree(e: Request, d: Request, g: Request)
    ensures [] + [e] == [e] && [e] + [d] == [e, d] && [e, d] + [g] == [e, d, g]
  {
  }

  /** Three lists bring their names one behind the other. */
  lemma TogetherThree(lib: Library, e: Request, d: Request, g: Request)
    ensures var p, q, r := IfGiven(lib, e), IfGiven(lib, d), IfGiven(lib, g);
            Together(lib, [e, d, g]) == Parsed(Kept(p) + Kept(q) + Kept(r), p.ok && q.ok && r.ok)
  {
    var p := Kept(IfGiven(lib, e));
    TogetherSnoc(lib, [], e);
    TogetherSnoc(lib, [e], d);
    TogetherSnoc(lib, [e, d], g);
    OneTwoThree(e, d, g);
    assert [] + p == p;
  }

  /** A variable that points to the head of a ring. */
  class NameList {
    var head: GeneralName?
    ghost var ring: seq<GeneralName>
    ghost var repr: set<GeneralName>

    ghost predicate Valid()
      reads this, repr
    {
      (forall x :: x in ring ==> x in repr) && Ring(ring) && HeadOf(ring, head)
    }

    constructor ()
      ensures Valid() && ring == [] && repr == {}
    {
      head, ring, repr := null, [], {};
    }

    /** Puts a chain at the end of the ring. */
    method Extend(first: GeneralName, last: GeneralName, ghost chain: seq<GeneralName>)
      requires Valid() && head != null
      requires chain != [] && Distinct(chain) && Linked(chain) && Ends(chain, first, last)
      requires forall x :: x in chain ==> x !in repr
      modifies this, repr, chain
      ensures Valid() && ring == old(ring) + chain && repr == old(repr) + set x | x in chain
      ensures Names(ring) == old(Names(ring)) + Names(chain)
    {
      ghost var before := ring;
      DistinctConcat(before, chain);
      NamesConcat(before, chain);
      ring, repr := before + chain, repr + set x | x in chain;
      SpliceIn(head, first, last, before, chain);
    }

    /** Makes a chain the ring. */
    method Start(first: GeneralName, last: GeneralName, ghost chain: seq<GeneralName>)
      requires Valid() && head == null
      requires chain != [] && Distinct(chain) && Linked(chain) && Ends(chain, first, last)
      modifies this, chain
      ensures Valid() && ring == chain && repr == set x | x in chain
    {
      Close(first, last, chain);
      head, ring, repr := first, chain, set x | x in chain;
    }

    /** Puts a fresh chain behind what is there. */
    method Put(first: GeneralName, last: GeneralName, ghost chain: seq<GeneralName>)
      requires Valid()
      requires chain != [] && Distinct(chain) && Linked(chain) && Ends(chain, first, last)
      requires forall x :: x in chain ==> x !in repr
      modifies this, repr, chain
      ensures Valid() && ring == old(ring) + chain && repr <= old(repr) + set x | x in chain
      ensures Names(ring) == old(Names(ring)) + Names(chain)
    {
      if head != null {
        Extend(first, last, chain);
      } else {
        Start(first, last, chain);
      }
    }

    /** Adds a list of names to the ring; the ring is left as it is if any of them is refused. */
    method AddSubjectAltNames(lib: Library, constNames: Option<string>, kind: nat) returns (ok: bool)
      requires Valid()
      requires constNames.Some? ==> NUL !in constNames.value
      modifies this, repr
      ensures Valid() && fresh(repr - old(repr))
      ensures ok == Brings(lib, constNames, kind).ok
      ensures Names(ring) == old(Names(ring)) + Kept(Brings(lib, constNames, kind))
      ensures old(ring) <= ring
      ensures ring == old(ring) ==> unchanged(this) && unchanged(old(repr))
    {
      if constNames.None? {
        return false;
      }
      var first, last;
      ghost var chain;
      ok, first, last, chain := ParseCopy(lib, constNames.value, kind, kind == 0);
      if ok && first != null {
        Put(first, last, chain);
      }
    }

    method AddIfGiven(lib: Library, r: Request, ok: bool, ghost before: seq<Request>, ghost all: seq<Request>)
      returns (ok': bool)
      requires Valid() && Parsed(Names(ring), ok) == Together(lib, before) && all == before + [r]
      requires r.names.Some? ==> NUL !in r.names.value
      modifies this, repr
      ensures Valid() && fresh(repr - old(repr))
      ensures Parsed(Names(ring), ok') == Together(lib, all)
    {
      ok' := ok;
      TogetherSnoc(lib, before, r);
      if r.given {
        ok' := AddSubjectAltNames(lib, r.names, r.kind);
        ok' := ok && ok';
      } else {
        assert Names(ring) + [] == Names(ring);
      }
    }

    method AddThree(lib: Library, e: Request, d: Request, g: Request) returns (ok: bool)
      requires Valid() && ring == []
      requires forall r :: r in [e, d, g] && r.names.Some? ==> NUL !in r.names.value
      modifies this, repr
      ensures Valid() && Parsed(Names(ring), ok) == Together(lib, [e, d, g])
    {
      OneTwoThree(e, d, g);
      ok := AddIfGiven(lib, e, true, [], [e]);
      ok := AddIfGiven(lib, d, ok, [e], [e, d]);
      ok := AddIfGiven(lib, g, ok, [e, d], [e, d, g]);
    }
  }

  /**
    The subject alternative names of AddExtensions: every list that is given is added, also after one that failed, and
    the call succeeds if all of them did.
    */
  method AddAltNames(lib: Library, emails: Option<string>, dnsNames: Option<string>, activated: bool,
      arg: Option<string>)
    returns (ok: bool, list: NameList)
    requires emails.Some? ==> NUL !in emails.value
    requires dnsNames.Some? ==> NUL !in dnsNames.value
    requires arg.Some? ==> NUL !in arg.value
    ensures list.Valid() && fresh(list)
    ensures Parsed(Names(list.ring), ok) ==
            Together(lib, [Request(emails.Some?, emails, RFC822), Request(dnsNames.Some?, dnsNames, DNS),
                           Request(activated, arg, 0)])
  {
    list := new NameList();
    var e, d := Request(emails.Some?, emails, RFC822), Request(dnsNames.Some?, dnsNames, DNS);
    ok := list.AddThree(lib, e, d, Request(activated, arg, 0));
  }
}
