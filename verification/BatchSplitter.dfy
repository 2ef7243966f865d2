/**
  The splitter of certutil's batch lines (cmd/certutil/certutil.c): arguments are cut out of the line in place, at white
  space or between double quotes.
  */
module BatchSplitter {
  import opened Characters
  import opened CNumbers
  import opened CStrings

  const QUOTE: char := '"'

  // ------------------------------------------------------------------ what a line splits into

  /** Where the first white space of s is. */
  function FindSpace(s: string): (i: nat)
    ensures i <= |s| && (i < |s| ==> IsSpace(s[i]))
  {
    if s == "" || IsSpace(s[0]) then 0 else 1 + FindSpace(s[1..])
  }

  /** s up to its first white space. */
  function Bare(s: string): string {
    s[..FindSpace(s)]
  }

  /** s from the first word on that starts behind white space. */
  function Behind(s: string): (t: string)
    ensures t != "" ==> |t| < |s|
  {
    SkipShorter(s[FindSpace(s)..]);
    SkipSpace(s[FindSpace(s)..])
  }

  lemma {:induction false} SkipShorter(s: string)
    ensures |SkipSpace(s)| <= |s| && (s != "" && IsSpace(s[0]) ==> |SkipSpace(s)| < |s|)
    ensures SkipSpace(s) != "" ==> !IsSpace(SkipSpace(s)[0])
  {
    if s == "" || !IsSpace(s[0]) {
    } else {
      SkipShorter(s[1..]);
    }
  }

  /** The arguments of a line, and whether one of them lacks its closing quote. */
  datatype Split = Split(args: seq<string>, invalid: bool)

  /** The arguments that start behind the first white space of s. */
  function SplitBehind(s: string): Split
    decreases |s|
  {
    var t := Behind(s);
    if t == "" then Split([], false)
    else if t[0] != QUOTE then With(Bare(t), false, SplitBehind(t))
    else
      var q := Find(t[1..], QUOTE);
      if q < |t| - 1 then With(t[1..1 + q], false, SplitBehind(t[q + 2..]))
      else With(Bare(t), true, SplitBehind(t))
  }

  function With(arg: string, invalid: bool, rest: Split): Split {
    Split([arg] + rest.args, invalid || rest.invalid)
  }

  function SplitLine(s: string): Split {
    With(Bare(s), false, SplitBehind(s))
  }

  // ------------------------------------------------------------------ joining

  predicate AllSpace(s: string) {
    forall i :: 0 <= i < |s| ==> IsSpace(s[i])
  }

  predicate NoSpace(s: string) {
    forall i :: 0 <= i < |s| ==> !IsSpace(s[i])
  }

  /** An argument as a line has to write it. */
  function Quoted(arg: string): (r: string)
    ensures r != ""
  {
    if arg == "" || !NoSpace(arg) then [QUOTE] + (arg + [QUOTE]) else arg
  }

  /** The arguments, each with its white space in front of it, and white space at the end. */
  function Joined(seps: seq<string>, args: seq<string>, end: string): string
    requires |seps| == |args|
  {
    if args == [] then end else seps[0] + (Quoted(args[0]) + Joined(seps[1..], args[1..], end))
  }

  ghost predicate Separators(seps: seq<string>) {
    forall i :: 0 <= i < |seps| ==> seps[i] != "" && AllSpace(seps[i])
  }

  ghost predicate Quotable(args: seq<string>) {
    forall i :: 0 <= i < |args| ==> QUOTE !in args[i]
  }

  lemma {:induction false} FindSpaceAt(s: string, t: string)
    requires NoSpace(s) && (t != "" ==> IsSpace(t[0]))
    ensures FindSpace(s + t) == |s|
  {
    if s == "" {
    } else {
      assert (s + t)[1..] == s[1..] + t;
      FindSpaceAt(s[1..], t);
    }
  }

  lemma {:induction false} SkipSpaceAt(s: string, t: string)
    requires AllSpace(s) && (t != "" ==> !IsSpace(t[0]))
    ensures SkipSpace(s + t) == t
  {
    if s == "" {
      assert s + t == t;
    } else {
      assert (s + t)[1..] == s[1..] + t;
      SkipSpaceAt(s[1..], t);
    }
  }

  lemma BehindAt(word: string, sep: string, t: string)
    requires NoSpace(word) && AllSpace(sep) && (t != "" ==> sep != "" && !IsSpace(t[0]))
    ensures Behind(word + (sep + t)) == t && Bare(word + (sep + t)) == word
  {
    assert t == "" && sep == "" ==> sep + t == "";
    FindSpaceAt(word, sep + t);
    assert (word + (sep + t))[|word|..] == sep + t;
    SkipSpaceAt(sep, t);
  }

  lemma QuotedReads(arg: string, rest: string)
    requires QUOTE !in arg
    ensures var t := [QUOTE] + (arg + [QUOTE]) + rest;
            Find(t[1..], QUOTE) == |arg| && t[1..1 + |arg|] == arg && t[|arg| + 2..] == rest
  {
    var t := [QUOTE] + (arg + [QUOTE]) + rest;
    assert t[1..][..|arg|] == arg;
    FindAt(t[1..], QUOTE, |arg|);
  }

  /** The first argument behind a word; `rest` is what follows the argument. */
  lemma SplitFirst(word: string, sep: string, arg: string, rest: string)
    requires NoSpace(word) && sep != "" && AllSpace(sep) && QUOTE !in arg
    ensures var bare := arg != "" && NoSpace(arg);
            SplitBehind(word + (sep + (Quoted(arg) + rest))) ==
            if bare then With(Bare(arg + rest), false, SplitBehind(arg + rest)) else With(arg, false, SplitBehind(rest))
    ensures Bare(word + (sep + (Quoted(arg) + rest))) == word
  {
    BehindAt(word, sep, Quoted(arg) + rest);
    if arg == "" || !NoSpace(arg) {
      QuotedReads(arg, rest);
    }
  }

  /** Joined arguments split back, whatever word they follow. */
  lemma {:induction false} SplitJoined(word: string, seps: seq<string>, args: seq<string>, end: string)
    requires NoSpace(word) && AllSpace(end) && |seps| == |args| && Separators(seps) && Quotable(args)
    ensures SplitBehind(word + Joined(seps, args, end)) == Split(args, false)
    ensures Bare(word + Joined(seps, args, end)) == word
    decreases |args|
  {
    if args == [] {
      assert end + "" == end;
      BehindAt(word, end, "");
    } else {
      var arg, rest := args[0], Joined(seps[1..], args[1..], end);
      SplitJoined(if arg != "" && NoSpace(arg) then arg else "", seps[1..], args[1..], end);
      assert "" + rest == rest;
      SplitFirst(word, seps[0], arg, rest);
      assert [arg] + args[1..] == args;
    }
  }

  /** A joined line splits back into its arguments, and no quote is missing. */
  lemma SplitJoinedLine(first: string, seps: seq<string>, args: seq<string>, end: string)
    requires NoSpace(first) && AllSpace(end) && |seps| == |args| && Separators(seps) && Quotable(args)
    ensures SplitLine(first + Joined(seps, args, end)) == Split([first] + args, false)
  {
    SplitJoined(first, seps, args, end);
  }

  // ------------------------------------------------------------------ splitting in place

  /** The strings at the pointers of argv, all of which end before `limit`. */
  ghost predicate Holds(a: seq<char>, argv: seq<nat>, args: seq<string>, limit: nat)
    requires Terminated(a)
    decreases |argv|
  {
    && |argv| == |args|
    && (argv != [] ==>
          var n := |argv| - 1;
          && Holds(a, argv[..n], args[..n], limit)
          && argv[n] < |a| && argv[n] + |args[n]| < limit && CString(a, argv[n]) == args[n])
  }

  lemma {:induction false} HoldsCut(a: seq<char>, argv: seq<nat>, args: seq<string>, limit: nat, at: nat)
    requires Terminated(a) && Holds(a, argv, args, limit) && limit <= at < |a|
    ensures Terminated(a[at := NUL]) && Holds(a[at := NUL], argv, args, limit)
    decreases |argv|
  {
    if argv == [] {
    } else {
      var n := |argv| - 1;
      HoldsCut(a, argv[..n], args[..n], limit, at);
      CutBehind(a, argv[n], at);
    }
  }

  lemma {:induction false} HoldsLater(a: seq<char>, argv: seq<nat>, args: seq<string>, limit: nat, later: nat)
    requires Terminated(a) && Holds(a, argv, args, limit) && limit <= later
    ensures Holds(a, argv, args, later)
    decreases |argv|
  {
    if argv == [] {
    } else {
      HoldsLater(a, argv[..|argv| - 1], args[..|args| - 1], limit, later);
    }
  }

  lemma HoldsMore(a: seq<char>, argv: seq<nat>, args: seq<string>, limit: nat, p: nat, later: nat)
    requires Terminated(a) && Holds(a, argv, args, limit) && limit <= later
    requires p < |a| && p + |CString(a, p)| < later
    ensures Holds(a, argv + [p], args + [CString(a, p)], later)
  {
    HoldsLater(a, argv, args, limit, later);
    var argv', args' := argv + [p], args + [CString(a, p)];
    assert argv'[..|argv|] == argv && args'[..|args|] == args;
  }

  /** strpbrk with the white space characters. */
  method StrSpace(a: array<char>, from: nat) returns (at: nat, found: bool)
    requires Terminated(a[..]) && from < a.Length
    ensures var s := CString(a[..], from);
            at == from + FindSpace(s) && (found <==> FindSpace(s) < |s|)
  {
    at := from;
    ghost var s := CString(a[..], from);
    while a[at] != NUL && !IsSpace(a[at])
      invariant from <= at < a.Length
      invariant at + FindSpace(CString(a[..], at)) == from + FindSpace(s)
      invariant at + |CString(a[..], at)| == from + |s|
      decreases a.Length - at
    {
      at := at + 1;
    }
    found := a[at] != NUL;
  }

  /** Overwrites white space with NULs, which ends the word that starts at `from`. */
  method Blank(a: array<char>, at: nat, ghost from: nat, ghost argv: seq<nat>, ghost args: seq<string>)
    returns (space: nat)
    requires Terminated(a[..]) && from <= at < a.Length && Holds(a[..], argv, args, from)
    requires at - from < |CString(a[..], from)| && IsSpace(a[at])
    modifies a
    ensures Terminated(a[..]) && at < space < a.Length && Holds(a[..], argv, args, from)
    ensures CString(a[..], from) == old(CString(a[..], from))[..at - from]
    ensures CString(a[..], space) == SkipSpace(old(CString(a[..], from))[at - from..])
  {
    ghost var s := CString(a[..], from);
    Suffix(a[..], from, at - from);
    CutAt(a[..], from, at - from);
    space := at;
    while IsSpace(a[space])
      invariant Terminated(a[..]) && at <= space < a.Length && Holds(a[..], argv, args, from)
      invariant if space == at then a[..] == old(a[..]) else CString(a[..], from) == s[..at - from]
      invariant SkipSpace(CString(a[..], space)) == SkipSpace(s[at - from..])
      decreases a.Length - space
    {
      ghost var b := a[..];
      HoldsCut(b, argv, args, from, space);
      CutBefore(b, space, space + 1);
      if space > at {
        CutBehind(b, from, space);
      }
      a[space] := NUL;
      assert a[..] == b[space := NUL];
      space := space + 1;
    }
  }

  /** The arguments found so far; the last one is open if it starts at `nextarg` and has no end yet. */
  ghost predicate Words(a: seq<char>, argv: seq<nat>, args: seq<string>, open: bool, nextarg: nat)
    requires Terminated(a)
  {
    && nextarg < |a|
    && if open then argv != [] && argv[|argv| - 1] == nextarg && Holds(a, argv[..|argv| - 1], args, nextarg)
       else Holds(a, argv, args, nextarg)
  }

  /** Ends the word at `nextarg`, and finds the first character behind the white space that follows it. */
  method CutWord(a: array<char>, nextarg: nat, ghost argv: seq<nat>, ghost args: seq<string>)
    returns (space: nat, found: bool)
    requires Terminated(a[..]) && nextarg < a.Length && Holds(a[..], argv, args, nextarg)
    modifies a
    ensures Terminated(a[..]) && nextarg <= space < a.Length && Holds(a[..], argv, args, nextarg)
    ensures var s := old(CString(a[..], nextarg));
            && CString(a[..], nextarg) == Bare(s) && CString(a[..], space) == Behind(s)
            && nextarg + |Bare(s)| < (if found then space else space + 1)
    ensures !found ==> a[space] == NUL
  {
    ghost var s := CString(a[..], nextarg);
    CStringStands(a[..], nextarg);
    space, found := StrSpace(a, nextarg);
    if found {
      space := Blank(a, space, nextarg, argv, args);
    } else {
      Suffix(a[..], nextarg, |s|);
      assert s == s[..|s|];
    }
  }

  lemma CloseWord(a: seq<char>, argv: seq<nat>, args: seq<string>, open: bool, nextarg: nat, limit: nat)
    requires Terminated(a) && Words(a, argv, args, open, nextarg) && nextarg + |CString(a, nextarg)| < limit
    ensures Holds(a, argv, if open then args + [CString(a, nextarg)] else args, limit)
  {
    if open {
      var closed := argv[..|argv| - 1];
      HoldsMore(a, closed, args, nextarg, nextarg, limit);
      assert closed + [nextarg] == argv;
    } else {
      HoldsLater(a, argv, args, nextarg, limit);
    }
  }

  /** Ends the word at `nextarg`, which ends the last argument if that is open. */
  method EndWord(a: array<char>, nextarg: nat, ghost argv: seq<nat>, ghost args: seq<string>, ghost open: bool)
    returns (space: nat, found: bool, ghost args': seq<string>)
    requires Terminated(a[..]) && Words(a[..], argv, args, open, nextarg)
    modifies a
    ensures Terminated(a[..]) && nextarg <= space < a.Length && (if found then nextarg < space else a[space] == NUL)
    ensures args' == if open then args + [Bare(old(CString(a[..], nextarg)))] else args
    ensures Holds(a[..], argv, args', if found then space else space + 1)
    ensures CString(a[..], space) == Behind(old(CString(a[..], nextarg)))
  {
    args' := if open then args + [Bare(CString(a[..], nextarg))] else args;
    space, found := CutWord(a, nextarg, if open then argv[..|argv| - 1] else argv, args);
    CloseWord(a[..], argv, args, open, nextarg, if found then space else space + 1);
  }

  /** The arguments of a line of which some are known, and what the rest of it splits into. */
  ghost function Result(args: seq<string>, invalid: bool, rest: Split): Split {
    Split(args + rest.args, invalid || rest.invalid)
  }

  lemma ResultWith(args: seq<string>, invalid: bool, arg: string, bad: bool, rest: Split)
    ensures Result(args, invalid, With(arg, bad, rest)) == Result(args + [arg], invalid || bad, rest)
  {
    assert args + ([arg] + rest.args) == (args + [arg]) + rest.args;
  }

  /** What the text at `nextarg` still brings; an open argument is part of it. */
  ghost function Left(rest: string, open: bool): Split {
    if open then With(Bare(rest), false, SplitBehind(rest)) else SplitBehind(rest)
  }

  /** What the first argument behind the white space adds. */
  lemma SplitStep(before: string, args: seq<string>, invalid: bool)
    requires Behind(before) != ""
    ensures var t := Behind(before);
            var q := Find(t[1..], QUOTE);
            Result(args, invalid, SplitBehind(before)) ==
            if t[0] == QUOTE && q < |t| - 1 then Result(args + [t[1..1 + q]], invalid, Left(t[q + 2..], false))
            else Result(args, invalid || t[0] == QUOTE, Left(t, true))
  {
    var t := Behind(before);
    var q := Find(t[1..], QUOTE);
    if t[0] == QUOTE && q < |t| - 1 {
      ResultWith(args, invalid, t[1..1 + q], false, SplitBehind(t[q + 2..]));
    }
  }

  /** Ends a quoted argument, whose opening quote is at `space`. */
  method CloseQuote(a: array<char>, space: nat, closing: nat, ghost argv: seq<nat>, ghost args: seq<string>)
    requires Terminated(a[..]) && space < a.Length && Holds(a[..], argv, args, space)
    requires space < closing < space + |CString(a[..], space)|
    modifies a
    ensures Terminated(a[..]) && closing + 1 < a.Length
    ensures var t := old(CString(a[..], space));
            && Holds(a[..], argv + [space + 1], args + [t[1..closing - space]], closing + 1)
            && CString(a[..], closing + 1) == t[closing - space + 1..]
  {
    ghost var b, t := a[..], CString(a[..], space);
    Suffix(b, space, 1);
    CutAt(b, space + 1, closing - (space + 1));
    HoldsCut(b, argv, args, space, closing);
    a[closing] := NUL;
    assert a[..] == b[closing := NUL];
    assert CString(a[..], space + 1) == t[1..closing - space];
    HoldsMore(a[..], argv, args, space, space + 1, closing + 1);
  }

  /** Looks for the quote that closes the one at `space`. */
  method FindClosing(a: array<char>, space: nat) returns (closing: nat, found: bool)
    requires Terminated(a[..]) && space < a.Length && a[space] != NUL
    ensures var t := CString(a[..], space);
            t != "" && closing == space + 1 + Find(t[1..], QUOTE) && (found <==> Find(t[1..], QUOTE) < |t| - 1)
  {
    Suffix(a[..], space, 1);
    closing, found := StrChr(a, space + 1, QUOTE);
  }

  lemma OpenWord(a: seq<char>, argv: seq<nat>, args: seq<string>, space: nat)
    requires Terminated(a) && space < |a| && Holds(a, argv, args, space)
    ensures Words(a, argv + [space], args, true, space)
  {
    var argv' := argv + [space];
    assert argv'[..|argv|] == argv;
  }

  /** The argument that starts at `space`, which is neither white space nor the end of the line. */
  method TakeArg(a: array<char>, space: nat, ghost argv: seq<nat>, ghost args: seq<string>)
    returns (arg: nat, nextarg: nat, bad: bool, ghost args': seq<string>, ghost open: bool)
    requires Terminated(a[..]) && space < a.Length && a[space] != NUL && Holds(a[..], argv, args, space)
    modifies a
    ensures Terminated(a[..]) && space <= nextarg && Words(a[..], argv + [arg], args', open, nextarg)
    ensures var t := old(CString(a[..], space));
            var q := Find(t[1..], QUOTE);
            if t[0] == QUOTE && q < |t| - 1
            then !open && !bad && args' == args + [t[1..1 + q]] && CString(a[..], nextarg) == t[q + 2..]
            else open && bad == (t[0] == QUOTE) && args' == args && CString(a[..], nextarg) == t
  {
    OpenWord(a[..], argv, args, space);
    arg, nextarg, bad, args', open := space, space, false, args, true;
    if a[space] == QUOTE {
      ghost var t := CString(a[..], space);
      var closing, found := FindClosing(a, space);
      if found {
        CloseQuote(a, space, closing, argv, args);
        arg, nextarg, open := space + 1, closing + 1, false;
        args' := args + [t[1..closing - space]];
      } else {
        bad := true;
      }
    }
  }

  /** The argument behind the white space in `before`. */
  method TakeNext(a: array<char>, space: nat, argv: seq<nat>, invalid: bool, ghost args: seq<string>,
      ghost before: string)
    returns (nextarg: nat, argv': seq<nat>, invalid': bool, ghost args': seq<string>, ghost open: bool)
    requires Terminated(a[..]) && space < a.Length && a[space] != NUL && Holds(a[..], argv, args, space)
    requires CString(a[..], space) == Behind(before)
    modifies a
    ensures Terminated(a[..]) && space <= nextarg && Words(a[..], argv', args', open, nextarg)
    ensures Result(args', invalid', Left(CString(a[..], nextarg), open)) == Result(args, invalid, SplitBehind(before))
  {
    SplitStep(before, args, invalid);
    var arg, bad;
    arg, nextarg, bad, args', open := TakeArg(a, space, argv, args);
    argv', invalid' := argv + [arg], invalid || bad;
  }

  /** One turn of the loop; `done` once the line has no more arguments. */
  method NextArg(a: array<char>, nextarg: nat, argv: seq<nat>, invalid: bool, ghost args: seq<string>, ghost open: bool)
    returns (done: bool, nextarg': nat, argv': seq<nat>, invalid': bool, ghost args': seq<string>, ghost open': bool)
    requires Terminated(a[..]) && Words(a[..], argv, args, open, nextarg)
    modifies a
    ensures Terminated(a[..])
    ensures done ==> Holds(a[..], argv', args', a.Length) &&
                     Split(args', invalid') == Result(args, invalid, Left(old(CString(a[..], nextarg)), open))
    ensures !done ==> nextarg < nextarg' && Words(a[..], argv', args', open', nextarg') &&
                      Result(args', invalid', Left(CString(a[..], nextarg'), open')) ==
                      Result(args, invalid, Left(old(CString(a[..], nextarg)), open))
  {
    ghost var rest := CString(a[..], nextarg);
    if open {
      ResultWith(args, invalid, Bare(rest), false, SplitBehind(rest));
    }
    var space, found;
    nextarg', argv', invalid', open' := nextarg, argv, invalid, open;
    space, found, args' := EndWord(a, nextarg, argv, args, open);
    done := !found || a[space] == NUL;
    if done {
      HoldsLater(a[..], argv, args', if found then space else space + 1, a.Length);
    } else {
      nextarg', argv', invalid', args', open' := TakeNext(a, space, argv, invalid, args', rest);
    }
  }

  /** Splits a line in place; argv points to the arguments. */
  method SplitInPlace(a: array<char>) returns (argv: seq<nat>, invalid: bool)
    requires Terminated(a[..])
    modifies a
    ensures Terminated(a[..])
    ensures invalid == SplitLine(old(CString(a[..], 0))).invalid
    ensures Holds(a[..], argv, SplitLine(old(CString(a[..], 0))).args, a.Length)
  {
    ghost var args, open := [], true;
    argv, invalid := [0], false;
    var nextarg, done := 0, false;
    while !done
      invariant Terminated(a[..])
      invariant if done
                then Holds(a[..], argv, args, a.Length) && Split(args, invalid) == SplitLine(old(CString(a[..], 0)))
                else Words(a[..], argv, args, open, nextarg) &&
                     Result(args, invalid, Left(CString(a[..], nextarg), open)) == SplitLine(old(CString(a[..], 0)))
      decreases !done, a.Length - nextarg
    {
      done, nextarg, argv, invalid, args, open := NextArg(a, nextarg, argv, invalid, args, open);
    }
  }
}
