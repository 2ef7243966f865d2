/**
  The order in which coreconf/static_libs.py lists the static libraries: a depth-first walk of the
  dependency graph from each root in turn, with one set of targets already seen; the post-order of each
  root's walk is reversed on its own and appended.
  */
module LinkOrder {
  import opened Sequences

  /** A target's dependencies, in order; a target without an entry has none. */
  type Graph = map<string, seq<string>>

  function Deps(g: Graph, t: string): seq<string> {
    if t in g then g[t] else []
  }

  // ------------------------------------------------------------------ reachability

  /** p is a path of dependencies from its first target to its last. */
  ghost predicate IsPath(g: Graph, p: seq<string>) {
    p != [] && forall i :: 0 <= i < |p| - 1 ==> p[i + 1] in Deps(g, p[i])
  }

  ghost predicate Reaches(g: Graph, a: string, b: string) {
    exists p :: IsPath(g, p) && p[0] == a && p[|p| - 1] == b
  }

  lemma ReachesSelf(g: Graph, a: string)
    ensures Reaches(g, a, a)
  {
    assert IsPath(g, [a]) && [a][0] == a && [a][|[a]| - 1] == a;
  }

  lemma ReachesStep(g: Graph, a: string, b: string, c: string)
    requires Reaches(g, a, b) && c in Deps(g, b)
    ensures Reaches(g, a, c)
  {
    var p :| IsPath(g, p) && p[0] == a && p[|p| - 1] == b;
    var q := p + [c];
    forall i | 0 <= i < |q| - 1 ensures q[i + 1] in Deps(g, q[i]) {
      if i < |p| - 1 {
        assert q[i] == p[i] && q[i + 1] == p[i + 1];
      }
    }
    assert IsPath(g, q) && q[0] == a && q[|q| - 1] == c;
  }

  lemma ReachesTrans(g: Graph, a: string, b: string, c: string)
    requires Reaches(g, a, b) && Reaches(g, b, c)
    ensures Reaches(g, a, c)
  {
    var p :| IsPath(g, p) && p[0] == b && p[|p| - 1] == c;
    for i := 0 to |p| - 1
      invariant Reaches(g, a, p[i])
    {
      ReachesStep(g, a, p[i], p[i + 1]);
    }
  }

  /** Every dependency of a target in s is in s. */
  ghost predicate Closed(g: Graph, s: set<string>) {
    forall x, y :: x in s && y in Deps(g, x) ==> y in s
  }

  lemma ClosedReaches(g: Graph, s: set<string>, a: string, b: string)
    requires Closed(g, s) && a in s && Reaches(g, a, b)
    ensures b in s
  {
    var p :| IsPath(g, p) && p[0] == a && p[|p| - 1] == b;
    for i := 0 to |p| - 1
      invariant p[i] in s
    {
    }
  }

  ghost predicate Acyclic(g: Graph) {
    forall a, b :: b in Deps(g, a) ==> !Reaches(g, b, a)
  }

  // ------------------------------------------------------------------ the walk

  ghost function Elements(s: seq<string>): set<string> {
    set x | x in s
  }

  ghost predicate NoDuplicates(s: seq<string>) {
    forall i, j :: 0 <= i < j < |s| ==> s[i] != s[j]
  }

  /**
    Each dependency of a target in s stands before it in s, or was finished before, or reaches the target, so that
    the two lie on a cycle.
    */
  ghost predicate PostOrder(g: Graph, finished: set<string>, s: seq<string>) {
    forall i, y :: 0 <= i < |s| && y in Deps(g, s[i]) ==> y in finished || y in s[..i] || Reaches(g, y, s[i])
  }

  ghost predicate DepsIn(g: Graph, s: seq<string>, seen: set<string>) {
    forall x, y :: x in s && y in Deps(g, x) ==> y in seen
  }

  /** What a walk from `target` appends: new targets only, each once, all reached from the target. */
  ghost predicate Visited(g: Graph, target: string, seen: set<string>, open: set<string>, s: seq<string>,
      seen': set<string>)
  {
    && NoDuplicates(s) && seen' == seen + Elements(s) && Elements(s) !! seen
    && (forall x :: x in s ==> Reaches(g, target, x))
    && PostOrder(g, seen - open, s) && DepsIn(g, s, seen')
  }

  /** The walk of one dependency after those before it. */
  lemma VisitedConcat(g: Graph, target: string, dep: string, seen: set<string>, open: set<string>,
                      s: seq<string>, mid: set<string>, t: seq<string>, seen': set<string>)
    requires dep in Deps(g, target) && target !in seen && open <= seen
    requires Visited(g, target, seen + {target}, open + {target}, s, mid)
    requires Visited(g, dep, mid, open + {target}, t, seen')
    ensures Visited(g, target, seen + {target}, open + {target}, s + t, seen')
  {
    var st := s + t;
    forall x | x in t ensures Reaches(g, target, x) {
      ReachesSelf(g, target);
      ReachesStep(g, target, target, dep);
      ReachesTrans(g, target, dep, x);
    }
    forall i, y | 0 <= i < |st| && y in Deps(g, st[i])
      ensures y in (seen + {target}) - (open + {target}) || y in st[..i] || Reaches(g, y, st[i])
    {
      if i < |s| {
        assert st[..i] == s[..i];
      } else {
        assert st[i] == t[i - |s|] && st[..i] == s + t[..i - |s|];
        assert y in mid - (open + {target}) ==> y in (seen + {target}) - (open + {target}) || y in s;
      }
    }
    assert Elements(st) == Elements(s) + Elements(t);
    forall i, j | 0 <= i < j < |st| ensures st[i] != st[j] {
      if i < |s| <= j {
        assert st[i] in Elements(s) && st[j] in Elements(t);
      }
    }
  }

  /** All dependencies were walked, and the target is appended. */
  lemma VisitedTarget(g: Graph, target: string, seen: set<string>, open: set<string>, s: seq<string>, mid: set<string>)
    requires target !in seen && open <= seen
    requires forall o :: o in open ==> Reaches(g, o, target)
    requires Visited(g, target, seen + {target}, open + {target}, s, mid)
    requires forall y :: y in Deps(g, target) ==> y in mid
    ensures Visited(g, target, seen, open, s + [target], mid)
  {
    var st := s + [target];
    ReachesSelf(g, target);
    forall i, y | 0 <= i < |st| && y in Deps(g, st[i])
      ensures y in seen - open || y in st[..i] || Reaches(g, y, st[i])
    {
      if i < |s| {
        assert st[..i] == s[..i];
        assert (seen + {target}) - (open + {target}) == seen - open;
      } else {
        assert st[..i] == s;
      }
    }
  }

  class Walk {
    const edges: Graph
    var seen: set<string>
    var subtree: seq<string>

    constructor (g: Graph)
      ensures edges == g && seen == {} && subtree == []
    {
      edges, seen, subtree := g, {}, [];
    }

    /** visit: `open` holds the targets whose visit has begun and not ended, all of which reach this one. */
    method Visit(target: string, ghost all: set<string>, ghost open: set<string>) returns (ghost s: seq<string>)
      requires target in all && Closed(edges, all) && seen <= all && open <= seen
      requires forall o :: o in open ==> Reaches(edges, o, target)
      modifies this
      ensures seen <= all && target in seen && subtree == old(subtree) + s
      ensures Visited(edges, target, old(seen), open, s, seen)
      decreases all - seen, 0
    {
      s := [];
      if target in seen {
        return;
      }
      ghost var before := seen;
      seen := seen + {target};
      s := VisitDeps(target, all, open, before);
      VisitedTarget(edges, target, before, open, s, seen);
      subtree := subtree + [target];
      s := s + [target];
    }

    /** The loop in visit. */
    method VisitDeps(target: string, ghost all: set<string>, ghost open: set<string>, ghost before: set<string>)
      returns (ghost s: seq<string>)
      requires target in all && Closed(edges, all) && open <= before && target !in before
      requires seen == before + {target} <= all
      requires forall o :: o in open ==> Reaches(edges, o, target)
      modifies this
      ensures old(seen) <= seen <= all && subtree == old(subtree) + s
      ensures Visited(edges, target, before + {target}, open + {target}, s, seen)
      ensures forall y :: y in Deps(edges, target) ==> y in seen
      decreases all - seen, 2
    {
      s := [];
      var deps := Deps(edges, target);
      for i := 0 to |deps|
        invariant old(seen) <= seen <= all && subtree == old(subtree) + s
        invariant Visited(edges, target, before + {target}, open + {target}, s, seen)
        invariant forall j :: 0 <= j < i ==> deps[j] in seen
      {
        s := VisitDep(target, deps[i], all, open, before, s);
      }
    }

    /** One turn of the loop in visit. */
    method VisitDep(target: string, dep: string, ghost all: set<string>, ghost open: set<string>,
                    ghost before: set<string>, ghost s0: seq<string>) returns (ghost s: seq<string>)
      requires dep in Deps(edges, target) && target in all && Closed(edges, all) && open <= before && target !in before
      requires before + {target} <= seen <= all
      requires forall o :: o in open ==> Reaches(edges, o, target)
      requires Visited(edges, target, before + {target}, open + {target}, s0, seen)
      modifies this
      ensures old(seen) <= seen <= all && dep in seen && s0 <= s && subtree == old(subtree) + s[|s0|..]
      ensures Visited(edges, target, before + {target}, open + {target}, s, seen)
      decreases all - seen, 1
    {
      forall o | o in open + {target} ensures Reaches(edges, o, dep) {
        ReachesSelf(edges, target);
        ReachesStep(edges, o, target, dep);
      }
      ghost var mid := seen;
      ghost var t := Visit(dep, all, open + {target});
      VisitedConcat(edges, target, dep, before, open, s0, mid, t, seen);
      s := s0 + t;
    }
  }

  // ------------------------------------------------------------------ the list

  /** All targets that can be met in a walk from the roots. */
  ghost function Universe(g: Graph, roots: seq<string>): set<string> {
    g.Keys + (set t, d | t in g && d in g[t] :: d) + Elements(roots)
  }

  lemma UniverseClosed(g: Graph, roots: seq<string>)
    ensures Closed(g, Universe(g, roots)) && forall i :: 0 <= i < |roots| ==> roots[i] in Universe(g, roots)
  {
    assert forall i :: 0 <= i < |roots| ==> roots[i] in Elements(roots);
  }

  ghost predicate ReachedFrom(g: Graph, roots: seq<string>, x: string) {
    exists i :: 0 <= i < |roots| && Reaches(g, roots[i], x)
  }

  /** s is the piece of `root`, when `earlier` are the roots before it. */
  ghost predicate IsPiece(g: Graph, earlier: seq<string>, root: string, s: seq<string>) {
    && NoDuplicates(s)
    && (forall x :: x in s <==> Reaches(g, root, x) && !ReachedFrom(g, earlier, x))
    // a dependency stands behind its dependent, or belongs to an earlier root, or closes a cycle
    && (forall i, y :: 0 <= i < |s| && y in Deps(g, s[i]) ==>
          ReachedFrom(g, earlier, y) || y in s[i + 1..] || Reaches(g, y, s[i]))
  }

  /** The pieces of all roots. */
  ghost predicate ArePieces(g: Graph, roots: seq<string>, pieces: seq<seq<string>>) {
    |pieces| == |roots| && forall k :: 0 <= k < |roots| ==> IsPiece(g, roots[..k], roots[k], pieces[k])
  }

  function Reversed(s: seq<string>): (r: seq<string>)
    ensures |r| == |s| && forall i :: 0 <= i < |s| ==> r[i] == s[|s| - 1 - i]
  {
    seq(|s|, i requires 0 <= i < |s| => s[|s| - 1 - i])
  }

  /** After the walks from `earlier`, exactly what they reach has been seen. */
  ghost predicate SeenFrom(g: Graph, earlier: seq<string>, seen: set<string>) {
    forall x :: x in seen <==> ReachedFrom(g, earlier, x)
  }

  lemma SeenClosed(g: Graph, earlier: seq<string>, seen: set<string>)
    requires SeenFrom(g, earlier, seen)
    ensures Closed(g, seen)
  {
    forall x, y | x in seen && y in Deps(g, x) ensures y in seen {
      var i :| 0 <= i < |earlier| && Reaches(g, earlier[i], x);
      ReachesStep(g, earlier[i], x, y);
    }
  }

  lemma VisitedSees(g: Graph, earlier: seq<string>, root: string, seen: set<string>, s: seq<string>, seen': set<string>)
    requires SeenFrom(g, earlier, seen) && Visited(g, root, seen, {}, s, seen') && root in seen'
    ensures SeenFrom(g, earlier + [root], seen')
    ensures forall x :: x in s <==> Reaches(g, root, x) && x !in seen
  {
    SeenClosed(g, earlier, seen);
    assert Closed(g, seen');
    var all := earlier + [root];
    forall x | x in seen' ensures ReachedFrom(g, all, x) {
      if x in seen {
        var i :| 0 <= i < |earlier| && Reaches(g, earlier[i], x);
        assert all[i] == earlier[i];
      } else {
        assert x in s && all[|earlier|] == root;
      }
    }
    forall x | ReachedFrom(g, all, x) ensures x in seen' {
      var i :| 0 <= i < |all| && Reaches(g, all[i], x);
      if i < |earlier| {
        assert all[i] == earlier[i] && ReachedFrom(g, earlier, x);
      } else {
        ClosedReaches(g, seen', root, x);
      }
    }
    forall x | Reaches(g, root, x) ensures x in seen' {
      ClosedReaches(g, seen', root, x);
    }
  }

  lemma ReversedElements(s: seq<string>, x: string)
    ensures x in Reversed(s) <==> x in s
  {
    var r := Reversed(s);
    if x in s {
      var i :| 0 <= i < |s| && s[i] == x;
      assert r[|s| - 1 - i] == x;
    }
    if x in r {
      var i :| 0 <= i < |s| && r[i] == x;
      assert s[|s| - 1 - i] == x;
    }
  }

  lemma ReversedBehind(s: seq<string>, i: nat, y: string)
    requires i < |s| && y in s[..|s| - 1 - i]
    ensures y in Reversed(s)[i + 1..]
  {
    var m :| 0 <= m < |s| - 1 - i && s[m] == y;
    assert Reversed(s)[i + 1..][|s| - 1 - m - (i + 1)] == y;
  }

  lemma ReversedOrder(g: Graph, finished: set<string>, s: seq<string>, i: nat, y: string)
    requires PostOrder(g, finished, s) && i < |s| && y in Deps(g, Reversed(s)[i])
    ensures y in finished || y in Reversed(s)[i + 1..] || Reaches(g, y, Reversed(s)[i])
  {
    var j := |s| - 1 - i;
    assert y in finished || y in s[..j] || Reaches(g, y, s[j]);
    if y in s[..j] {
      ReversedBehind(s, i, y);
    }
  }

  lemma VisitedPiece(g: Graph, earlier: seq<string>, root: string, seen: set<string>, s: seq<string>,
      seen': set<string>)
    requires SeenFrom(g, earlier, seen) && Visited(g, root, seen, {}, s, seen') && root in seen'
    ensures IsPiece(g, earlier, root, Reversed(s)) && SeenFrom(g, earlier + [root], seen')
  {
    VisitedSees(g, earlier, root, seen, s, seen');
    var r := Reversed(s);
    forall x ensures x in r <==> Reaches(g, root, x) && !ReachedFrom(g, earlier, x) {
      ReversedElements(s, x);
    }
    forall i, y | 0 <= i < |r| && y in Deps(g, r[i])
      ensures ReachedFrom(g, earlier, y) || y in r[i + 1..] || Reaches(g, y, r[i])
    {
      ReversedOrder(g, seen - {}, s, i, y);
    }
  }

  /** One turn of the loop in link_order. */
  method VisitRoot(walk: Walk, root: string, ghost all: set<string>, ghost earlier: seq<string>)
    returns (piece: seq<string>)
    requires root in all && Closed(walk.edges, all) && walk.seen <= all && SeenFrom(walk.edges, earlier, walk.seen)
    modifies walk
    ensures walk.seen <= all && SeenFrom(walk.edges, earlier + [root], walk.seen)
    ensures IsPiece(walk.edges, earlier, root, piece)
  {
    walk.subtree := [];
    ghost var seen := walk.seen;
    ghost var s := walk.Visit(root, all, {});
    VisitedPiece(walk.edges, earlier, root, seen, s, walk.seen);
    assert walk.subtree == s;
    piece := Reversed(walk.subtree);
  }

  /** link_order: for every graph, the pieces of the roots one after the other. */
  method ComputeLinkOrder(edges: Graph, roots: seq<string>)
    returns (ordered: seq<string>, ghost pieces: seq<seq<string>>)
    ensures ordered == Concat(pieces) && ArePieces(edges, roots, pieces)
  {
    ghost var all := Universe(edges, roots);
    UniverseClosed(edges, roots);
    var walk := new Walk(edges);
    ordered, pieces := [], [];
    for i := 0 to |roots|
      invariant walk.edges == edges && walk.seen <= all && SeenFrom(edges, roots[..i], walk.seen)
      invariant ordered == Concat(pieces) && ArePieces(edges, roots[..i], pieces)
    {
      assert roots[..i + 1] == roots[..i] + [roots[i]];
      var subtree := VisitRoot(walk, roots[i], all, roots[..i]);
      ordered := ordered + subtree;
      AddPiece(edges, roots[..i], roots[i], pieces, subtree);
      pieces := pieces + [subtree];
    }
    assert roots[..|roots|] == roots;
  }

  lemma AddPiece(g: Graph, earlier: seq<string>, root: string, pieces: seq<seq<string>>, s: seq<string>)
    requires ArePieces(g, earlier, pieces) && IsPiece(g, earlier, root, s)
    ensures ArePieces(g, earlier + [root], pieces + [s]) && Concat(pieces + [s]) == Concat(pieces) + s
  {
    assert (pieces + [s])[..|pieces|] == pieces;
    var all := earlier + [root];
    forall k | 0 <= k < |all| ensures IsPiece(g, all[..k], all[k], (pieces + [s])[k]) {
      if k < |earlier| {
        assert all[..k] == earlier[..k];
      } else {
        assert all[..k] == earlier;
      }
    }
  }

  // ------------------------------------------------------------------ what the order guarantees

  /** a stands before b in s. */
  ghost predicate Before(s: seq<string>, a: string, b: string) {
    exists i, j :: 0 <= i < j < |s| && s[i] == a && s[j] == b
  }

  lemma {:induction false} ConcatHas(pieces: seq<seq<string>>, x: string)
    ensures x in Concat(pieces) <==> exists k :: 0 <= k < |pieces| && x in pieces[k]
  {
    if pieces == [] {
    } else {
      var init := pieces[..|pieces| - 1];
      ConcatHas(init, x);
      if x in Concat(init) {
        var k :| 0 <= k < |init| && x in init[k];
        assert x in pieces[k];
      }
      if k :| 0 <= k < |pieces| && x in pieces[k] {
        if k < |init| {
          assert x in init[k];
        }
      }
    }
  }

  /** The list holds exactly the targets the roots reach. */
  lemma ListedIffReached(g: Graph, roots: seq<string>, pieces: seq<seq<string>>, x: string)
    requires ArePieces(g, roots, pieces)
    ensures x in Concat(pieces) <==> ReachedFrom(g, roots, x)
  {
    ConcatHas(pieces, x);
    if k :| 0 <= k < |pieces| && x in pieces[k] {
      assert IsPiece(g, roots[..k], roots[k], pieces[k]);
    }
    if ReachedFrom(g, roots, x) {
      var k := FirstRoot(g, roots, x);
      assert IsPiece(g, roots[..k], roots[k], pieces[k]);
    }
  }

  /** The first root that reaches x. */
  lemma FirstRoot(g: Graph, roots: seq<string>, x: string) returns (k: nat)
    requires ReachedFrom(g, roots, x)
    ensures k < |roots| && Reaches(g, roots[k], x) && !ReachedFrom(g, roots[..k], x)
  {
    k :| 0 <= k < |roots| && Reaches(g, roots[k], x);
    while ReachedFrom(g, roots[..k], x)
      invariant k < |roots| && Reaches(g, roots[k], x)
      decreases k
    {
      var m :| 0 <= m < |roots[..k]| && Reaches(g, roots[..k][m], x);
      k := m;
    }
  }

  /** What the first m roots reach stands in the piece of one of them. */
  lemma PieceOf(g: Graph, roots: seq<string>, pieces: seq<seq<string>>, m: nat, x: string) returns (k: nat)
    requires ArePieces(g, roots, pieces) && m <= |roots| && ReachedFrom(g, roots[..m], x)
    ensures k < m && Reaches(g, roots[k], x) && x in pieces[k]
  {
    k := FirstRoot(g, roots[..m], x);
    assert roots[..m][..k] == roots[..k] && IsPiece(g, roots[..k], roots[k], pieces[k]);
  }

  /** Distinct roots have disjoint pieces. */
  lemma PiecesDisjoint(g: Graph, roots: seq<string>, pieces: seq<seq<string>>, k: nat, m: nat, x: string)
    requires ArePieces(g, roots, pieces) && k < m < |pieces| && x in pieces[k]
    ensures x !in pieces[m]
  {
    assert IsPiece(g, roots[..k], roots[k], pieces[k]) && IsPiece(g, roots[..m], roots[m], pieces[m]);
    assert roots[..m][k] == roots[k] && ReachedFrom(g, roots[..m], x);
  }

  /** No target is listed twice. */
  lemma {:induction false} ListedOnce(g: Graph, roots: seq<string>, pieces: seq<seq<string>>)
    requires ArePieces(g, roots, pieces)
    ensures NoDuplicates(Concat(pieces))
    decreases |pieces|
  {
    if pieces == [] {
    } else {
      var n := |pieces| - 1;
      var init, last := Concat(pieces[..n]), pieces[n];
      InitPieces(g, roots, pieces);
      ListedOnce(g, roots[..n], pieces[..n]);
      assert IsPiece(g, roots[..n], roots[n], last);
      forall x | x in init ensures x !in last {
        ConcatHas(pieces[..n], x);
        var k :| 0 <= k < n && x in pieces[..n][k];
        PiecesDisjoint(g, roots, pieces, k, n, x);
      }
      ConcatDistinct(init, last);
    }
  }

  lemma ConcatDistinct(a: seq<string>, b: seq<string>)
    requires NoDuplicates(a) && NoDuplicates(b) && forall x :: x in a ==> x !in b
    ensures NoDuplicates(a + b)
  {
    var c := a + b;
    forall i, j | 0 <= i < j < |c| ensures c[i] != c[j] {
      if i < |a| <= j {
        assert c[i] in a && c[j] in b;
      }
    }
  }

  lemma InitPieces(g: Graph, roots: seq<string>, pieces: seq<seq<string>>)
    requires ArePieces(g, roots, pieces) && pieces != []
    ensures ArePieces(g, roots[..|roots| - 1], pieces[..|pieces| - 1])
  {
    var n := |pieces| - 1;
    forall k | 0 <= k < n ensures IsPiece(g, roots[..n][..k], roots[..n][k], pieces[..n][k]) {
      assert roots[..n][..k] == roots[..k];
      assert IsPiece(g, roots[..k], roots[k], pieces[k]);
    }
  }

  /** Where a piece stands in the list. */
  lemma {:induction false} PieceStands(pieces: seq<seq<string>>, k: nat) returns (rest: seq<string>)
    requires k < |pieces|
    ensures Concat(pieces) == Concat(pieces[..k]) + pieces[k] + rest
    decreases |pieces|
  {
    var n := |pieces| - 1;
    if k == n {
      rest := [];
    } else {
      rest := PieceStands(pieces[..n], k);
      assert pieces[..n][..k] == pieces[..k];
      rest := rest + pieces[n];
    }
  }

  lemma PieceBefore(pieces: seq<seq<string>>, m: nat, k: nat, a: string, b: string)
    requires m < k < |pieces| && a in pieces[m] && b in pieces[k]
    ensures Before(Concat(pieces), a, b)
  {
    var rest := PieceStands(pieces, k);
    var init := Concat(pieces[..k]);
    assert pieces[..k][m] == pieces[m];
    ConcatHas(pieces[..k], a);
    var i :| 0 <= i < |init| && init[i] == a;
    var j :| 0 <= j < |pieces[k]| && pieces[k][j] == b;
    assert Concat(pieces)[i] == a && Concat(pieces)[|init| + j] == b;
  }

  lemma InPieceBefore(pieces: seq<seq<string>>, k: nat, i: nat, b: string)
    requires k < |pieces| && i < |pieces[k]| && b in pieces[k][i + 1..]
    ensures Before(Concat(pieces), pieces[k][i], b)
  {
    var rest := PieceStands(pieces, k);
    var init := Concat(pieces[..k]);
    var j :| 0 <= j < |pieces[k][i + 1..]| && pieces[k][i + 1..][j] == b;
    assert Concat(pieces)[|init| + i] == pieces[k][i] && Concat(pieces)[|init| + i + 1 + j] == b;
  }

  /** A dependency between the pieces of two roots, the earlier root's target being the dependency. */
  ghost predicate BackDependency(g: Graph, pieces: seq<seq<string>>, x: string, y: string) {
    y in Deps(g, x) && exists k, m :: 0 <= m < k < |pieces| && x in pieces[k] && y in pieces[m]
  }

  /**
    For every graph, a dependency stands behind its dependent, or was listed for an earlier root, or lies on a cycle
    with it.
    */
  lemma DependencyOrder(g: Graph, roots: seq<string>, pieces: seq<seq<string>>, x: string, y: string)
    requires ArePieces(g, roots, pieces) && x in Concat(pieces) && y in Deps(g, x)
    ensures Before(Concat(pieces), x, y) || BackDependency(g, pieces, x, y) || Reaches(g, y, x)
  {
    ConcatHas(pieces, x);
    var k :| 0 <= k < |pieces| && x in pieces[k];
    var i :| 0 <= i < |pieces[k]| && pieces[k][i] == x;
    assert IsPiece(g, roots[..k], roots[k], pieces[k]);
    if y in pieces[k][i + 1..] {
      InPieceBefore(pieces, k, i, y);
    } else if ReachedFrom(g, roots[..k], y) {
      var m := PieceOf(g, roots, pieces, k, y);
    }
  }

  /** Every dependency stands behind its dependent. */
  ghost predicate DependentsFirst(g: Graph, s: seq<string>) {
    forall x, y :: x in s && y in Deps(g, x) ==> Before(s, x, y)
  }

  lemma BeforeOnce(s: seq<string>, a: string, b: string)
    requires NoDuplicates(s) && Before(s, a, b)
    ensures !Before(s, b, a)
  {
  }

  /** x depends on y, and some of the roots reach y when none of them reaches x yet. */
  ghost predicate Overtaken(g: Graph, roots: seq<string>, x: string, y: string) {
    && y in Deps(g, x) && ReachedFrom(g, roots, x)
    && exists m :: 0 <= m <= |roots| && ReachedFrom(g, roots[..m], y) && !ReachedFrom(g, roots[..m], x)
  }

  lemma FewerRoots(g: Graph, roots: seq<string>, m: nat, k: nat, x: string)
    requires m <= k <= |roots| && ReachedFrom(g, roots[..m], x)
    ensures ReachedFrom(g, roots[..k], x)
  {
    var i :| 0 <= i < m && Reaches(g, roots[..m][i], x);
    assert roots[..k][i] == roots[..m][i];
  }

  lemma RootReaches(g: Graph, roots: seq<string>, k: nat, m: nat, x: string)
    requires k < m <= |roots| && Reaches(g, roots[k], x)
    ensures ReachedFrom(g, roots[..m], x)
  {
    assert roots[..m][k] == roots[k];
  }

  lemma OvertakenIsBack(g: Graph, roots: seq<string>, pieces: seq<seq<string>>, x: string, y: string)
    requires ArePieces(g, roots, pieces) && Overtaken(g, roots, x, y)
    ensures BackDependency(g, pieces, x, y)
  {
    var m :| 0 <= m <= |roots| && ReachedFrom(g, roots[..m], y) && !ReachedFrom(g, roots[..m], x);
    assert roots[..|roots|] == roots;
    var j := PieceOf(g, roots, pieces, m, y);
    var k := PieceOf(g, roots, pieces, |roots|, x);
    if k < m {
      RootReaches(g, roots, k, m, x);
    }
  }

  lemma PieceMember(g: Graph, roots: seq<string>, pieces: seq<seq<string>>, k: nat, x: string)
    requires ArePieces(g, roots, pieces) && k < |pieces| && x in pieces[k]
    ensures Reaches(g, roots[k], x) && !ReachedFrom(g, roots[..k], x)
  {
    assert IsPiece(g, roots[..k], roots[k], pieces[k]);
  }

  lemma OvertakenAt(g: Graph, roots: seq<string>, k: nat, m: nat, x: string, y: string)
    requires m < k < |roots| && y in Deps(g, x)
    requires Reaches(g, roots[k], x) && !ReachedFrom(g, roots[..k], x) && Reaches(g, roots[m], y)
    ensures Overtaken(g, roots, x, y)
  {
    RootReaches(g, roots, m, m + 1, y);
    if ReachedFrom(g, roots[..m + 1], x) {
      FewerRoots(g, roots, m + 1, k, x);
    }
    assert ReachedFrom(g, roots, x);
  }

  lemma BackIsOvertaken(g: Graph, roots: seq<string>, pieces: seq<seq<string>>, x: string, y: string)
    requires ArePieces(g, roots, pieces) && BackDependency(g, pieces, x, y)
    ensures Overtaken(g, roots, x, y)
  {
    var k, m :| 0 <= m < k < |pieces| && x in pieces[k] && y in pieces[m];
    PieceMember(g, roots, pieces, k, x);
    PieceMember(g, roots, pieces, m, y);
    OvertakenAt(g, roots, k, m, x, y);
  }

  /** For an acyclic graph, a dependent stands before its dependency exactly if it is not overtaken by it. */
  lemma EdgeOrder(g: Graph, roots: seq<string>, pieces: seq<seq<string>>, x: string, y: string)
    requires ArePieces(g, roots, pieces) && Acyclic(g) && x in Concat(pieces) && y in Deps(g, x)
    ensures Before(Concat(pieces), x, y) <==> !Overtaken(g, roots, x, y)
  {
    if Overtaken(g, roots, x, y) {
      OvertakenIsBack(g, roots, pieces, x, y);
      var k, m :| 0 <= m < k < |pieces| && x in pieces[k] && y in pieces[m];
      PieceBefore(pieces, m, k, y, x);
      ListedOnce(g, roots, pieces);
      BeforeOnce(Concat(pieces), y, x);
    } else {
      DependencyOrder(g, roots, pieces, x, y);
      if BackDependency(g, pieces, x, y) {
        BackIsOvertaken(g, roots, pieces, x, y);
      }
    }
  }

  /**
    For an acyclic graph, dependents stand before dependencies throughout the list exactly if no dependency is reached
    from an earlier root than its dependent.
    */
  lemma DependentsFirstIff(g: Graph, roots: seq<string>, pieces: seq<seq<string>>)
    requires ArePieces(g, roots, pieces) && Acyclic(g)
    ensures DependentsFirst(g, Concat(pieces)) <==> forall x, y :: !Overtaken(g, roots, x, y)
  {
    var s := Concat(pieces);
    if x, y :| Overtaken(g, roots, x, y) {
      ListedIffReached(g, roots, pieces, x);
      EdgeOrder(g, roots, pieces, x, y);
      assert x in s && !Before(s, x, y);
    } else {
      forall x, y | x in s && y in Deps(g, x) ensures Before(s, x, y) {
        EdgeOrder(g, roots, pieces, x, y);
      }
    }
  }

  /** Dependents do not always come first: here b depends on a, and a is the first root. */
  lemma DependentsNotAlwaysFirst(pieces: seq<seq<string>>)
    ensures var g := map["b" := ["a"]];
            Acyclic(g) && (ArePieces(g, ["a", "b"], pieces) ==> !DependentsFirst(g, Concat(pieces)))
  {
    var g, roots := map["b" := ["a"]], ["a", "b"];
    forall x, y | y in Deps(g, x) ensures !Reaches(g, y, x) {
      if Reaches(g, y, x) {
        ClosedReaches(g, {"a"}, "a", "b");
      }
    }
    FirstIsOvertaken();
    if ArePieces(g, roots, pieces) {
      DependentsFirstIff(g, roots, pieces);
    }
  }

  lemma FirstIsOvertaken()
    ensures Overtaken(map["b" := ["a"]], ["a", "b"], "b", "a")
  {
    var g, roots := map["b" := ["a"]], ["a", "b"];
    ReachesSelf(g, "a");
    ReachesSelf(g, "b");
    assert roots[1] == "b" && roots[..1] == ["a"] && roots[..1][0] == "a";
    if ReachedFrom(g, roots[..1], "b") {
      ClosedReaches(g, {"a"}, "a", "b");
    }
  }

  // ------------------------------------------------------------------ the libraries that were built

  /** The targets of the list whose archive exists. */
  function Built(s: seq<string>, archives: set<string>): seq<string> {
    if s == [] then []
    else Built(s[..|s| - 1], archives) + if s[|s| - 1] in archives then [s[|s| - 1]] else []
  }

  lemma {:induction false} BuiltHas(s: seq<string>, archives: set<string>, x: string)
    ensures x in Built(s, archives) <==> x in s && x in archives
  {
    if s == [] {
    } else {
      BuiltHas(s[..|s| - 1], archives, x);
    }
  }

  /** Leaving out what was not built keeps the order of the rest. */
  lemma {:induction false} BuiltKeepsOrder(s: seq<string>, archives: set<string>, a: string, b: string)
    requires a in archives && b in archives
    ensures Before(s, a, b) <==> Before(Built(s, archives), a, b)
  {
    if s == [] {
    } else {
      var init, last := s[..|s| - 1], s[|s| - 1];
      var r := Built(init, archives);
      BuiltKeepsOrder(init, archives, a, b);
      BuiltHas(init, archives, a);
      BeforeSnoc(init, last, a, b);
      BeforeSnoc(r, last, a, b);
      assert s == init + [last];
      if last !in archives {
        assert Built(s, archives) == r;
      }
    }
  }

  lemma BeforeSnoc(s: seq<string>, c: string, a: string, b: string)
    ensures Before(s + [c], a, b) <==> Before(s, a, b) || (a in s && b == c)
  {
    var t := s + [c];
    if Before(s, a, b) {
      var i, j :| 0 <= i < j < |s| && s[i] == a && s[j] == b;
      assert t[i] == a && t[j] == b;
    }
    if a in s && b == c {
      var i :| 0 <= i < |s| && s[i] == a;
      assert t[i] == a && t[|s|] == b;
    }
    if Before(t, a, b) {
      var i, j :| 0 <= i < j < |t| && t[i] == a && t[j] == b;
      assert s[i] == a;
    }
  }

  lemma BuiltOnce(s: seq<string>, archives: set<string>)
    requires NoDuplicates(s)
    ensures NoDuplicates(Built(s, archives))
  {
    var r := Built(s, archives);
    forall i, j | 0 <= i < j < |r| ensures r[i] != r[j] {
      if r[i] == r[j] {
        BuiltHas(s, archives, r[i]);
        assert Before(r, r[i], r[i]);
        BuiltKeepsOrder(s, archives, r[i], r[i]);
      }
    }
  }

  /**
    The libraries to link: exactly the built targets that some root reaches, each once; and for an acyclic graph each
    library stands before one it depends on exactly if it is not overtaken by it.
    */
  method LinkedLibraries(edges: Graph, roots: seq<string>, archives: set<string>) returns (libs: seq<string>)
    ensures NoDuplicates(libs)
    ensures forall x :: x in libs <==> x in archives && ReachedFrom(edges, roots, x)
    ensures Acyclic(edges) ==>
              forall x, y :: x in libs && y in archives && y in Deps(edges, x) ==>
                (Before(libs, x, y) <==> !Overtaken(edges, roots, x, y))
  {
    var ordered;
    ghost var pieces;
    ordered, pieces := ComputeLinkOrder(edges, roots);
    libs := Built(ordered, archives);
    ListedOnce(edges, roots, pieces);
    BuiltOnce(ordered, archives);
    forall x ensures x in libs <==> x in archives && ReachedFrom(edges, roots, x) {
      BuiltHas(ordered, archives, x);
      ListedIffReached(edges, roots, pieces, x);
    }
    forall x, y | Acyclic(edges) && x in libs && y in archives && y in Deps(edges, x)
      ensures Before(libs, x, y) <==> !Overtaken(edges, roots, x, y)
    {
      BuiltHas(ordered, archives, x);
      EdgeOrder(edges, roots, pieces, x, y);
      BuiltKeepsOrder(ordered, archives, x, y);
    }
  }
}
