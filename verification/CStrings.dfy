/** NUL-terminated strings in a character array, and the searches C makes in them. */
module CStrings {
  import opened Characters
  import opened CNumbers

  ghost predicate Terminated(a: seq<char>) {
    a != [] && a[|a| - 1] == NUL
  }

  /** The string that starts at `from`. */
  ghost function CString(a: seq<char>, from: nat): string
    requires Terminated(a) && from < |a|
    decreases |a| - from
  {
    if a[from] == NUL then "" else [a[from]] + CString(a, from + 1)
  }

  lemma {:induction false} CStringStands(a: seq<char>, from: nat)
    requires Terminated(a) && from < |a|
    ensures var s := CString(a, from);
            && from + |s| < |a| && a[from + |s|] == NUL
            && (forall i :: from <= i < from + |s| ==> a[i] == s[i - from] && a[i] != NUL)
    decreases |a| - from
  {
    if a[from] == NUL {
    } else {
      CStringStands(a, from + 1);
      var s, t := CString(a, from), CString(a, from + 1);
      assert forall i :: from < i < from + |s| ==> a[i] == t[i - from - 1] == s[i - from];
    }
  }

  lemma {:induction false} CStringIs(a: seq<char>, from: nat, s: string)
    requires Terminated(a) && from + |s| < |a| && a[from + |s|] == NUL
    requires forall i :: from <= i < from + |s| ==> a[i] == s[i - from] && a[i] != NUL
    ensures CString(a, from) == s
    decreases |s|
  {
    if s == "" {
    } else {
      CStringIs(a, from + 1, s[1..]);
    }
  }

  /** Writing a NUL into a string leaves the part before it, and the part behind it stands on its own. */
  lemma CutAt(a: seq<char>, from: nat, i: nat)
    requires Terminated(a) && from < |a| && i <= |CString(a, from)|
    ensures var s := CString(a, from);
            && from + i < |a| && Terminated(a[from + i := NUL])
            && CString(a[from + i := NUL], from) == s[..i]
            && (i < |s| ==> from + i + 1 < |a| && CString(a[from + i := NUL], from + i + 1) == s[i + 1..])
  {
    var s := CString(a, from);
    CStringStands(a, from);
    CStringIs(a[from + i := NUL], from, s[..i]);
    if i < |s| {
      CStringIs(a[from + i := NUL], from + i + 1, s[i + 1..]);
    }
  }

  /** A NUL written before a string does not change it. */
  lemma {:induction false} CutBefore(a: seq<char>, at: nat, from: nat)
    requires Terminated(a) && at < from < |a|
    ensures Terminated(a[at := NUL]) && CString(a[at := NUL], from) == CString(a, from)
    decreases |a| - from
  {
    if a[from] == NUL {
    } else {
      CutBefore(a, at, from + 1);
    }
  }

  /** Neither does a NUL written behind it. */
  lemma {:induction false} CutBehind(a: seq<char>, from: nat, at: nat)
    requires Terminated(a) && from < |a| && from + |CString(a, from)| <= at < |a|
    ensures Terminated(a[at := NUL]) && CString(a[at := NUL], from) == CString(a, from)
    decreases |a| - from
  {
    if a[from] == NUL {
    } else {
      CutBehind(a, from + 1, at);
    }
  }

  lemma {:induction false} Suffix(a: seq<char>, from: nat, i: nat)
    requires Terminated(a) && from < |a| && i <= |CString(a, from)|
    ensures from + i < |a| && CString(a, from + i) == CString(a, from)[i..]
    decreases i
  {
    if i == 0 {
    } else {
      Suffix(a, from + 1, i - 1);
    }
  }

  /** strchr */
  method StrChr(a: array<char>, from: nat, c: char) returns (at: nat, found: bool)
    requires Terminated(a[..]) && from < a.Length && c != NUL
    ensures var s := CString(a[..], from);
            at == from + Find(s, c) && (found <==> Find(s, c) < |s|) && at < a.Length
  {
    at := from;
    ghost var s := CString(a[..], from);
    while a[at] != NUL && a[at] != c
      invariant from <= at < a.Length
      invariant at + Find(CString(a[..], at), c) == from + Find(s, c)
      invariant at + |CString(a[..], at)| == from + |s|
      decreases a.Length - at
    {
      at := at + 1;
    }
    found := a[at] == c;
  }

  /** Reads the string that starts at `from`. */
  method ReadString(a: array<char>, from: nat) returns (r: string)
    requires Terminated(a[..]) && from < a.Length
    ensures r == CString(a[..], from)
  {
    ghost var s := CString(a[..], from);
    CStringStands(a[..], from);
    var at := from;
    while a[at] != NUL
      invariant from <= at <= from + |s|
      decreases from + |s| - at
    {
      at := at + 1;
    }
    r := a[from..at];
  }
}
