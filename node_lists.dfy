/**
 * The child list of a DOM parent as a sequence of distinct nodes, and the
 * sequence surgery that the node-part primitives perform on it: the DOM's
 * `nextSibling`, `remove` and `insertBefore`, a part's region between its two
 * markers, and moving a run of siblings.
 */
module NodeLists {
  import opened Wrappers

  /** No node occurs twice in a child list (a node has at most one place in a parent). */
  predicate Distinct<T(==)>(s: seq<T>) {
    forall p, q :: 0 <= p < q < |s| ==> s[p] != s[q]
  }

  /** No node of `a` occurs in `b`. */
  predicate Disjoint<T(==)>(a: seq<T>, b: seq<T>) {
    forall p, q :: 0 <= p < |a| && 0 <= q < |b| ==> a[p] != b[q]
  }

  /** The position of the first occurrence of `x` in `s`. */
  function IndexOf<T(==)>(s: seq<T>, x: T): (p: nat)
    requires x in s
    ensures p < |s| && s[p] == x && x !in s[..p]
  {
    if s[0] == x then 0
    else
      var p := 1 + IndexOf(s[1..], x);
      assert s[..p] == [s[0]] + s[1..][..p - 1];
      p
  }

  /** The node at position `m`, or `None` (JavaScript's `null`) past the end. */
  function At<T>(s: seq<T>, m: nat): Option<T> {
    if m < |s| then Some(s[m]) else None
  }

  /** `x.nextSibling` for a child `x` of a parent whose child list is `s`. */
  function NextSibling<T(==)>(s: seq<T>, x: T): Option<T>
    requires x in s
  {
    At(s, IndexOf(s, x) + 1)
  }

  /** The child list after `x.remove()` (unchanged when `x` is not a child). */
  function Remove<T(==)>(s: seq<T>, x: T): seq<T> {
    if x in s then s[..IndexOf(s, x)] + s[IndexOf(s, x) + 1..] else s
  }

  /** The child list after `parent.insertBefore(x, ref)`: `x` leaves its old place, if any,
      and is put immediately before `ref`. */
  function InsertBefore<T(==)>(s: seq<T>, x: T, ref: T): seq<T>
    requires ref in s && ref != x
  {
    var u := Remove(s, x);
    assert ref in u by { RemoveKeeps(s, x, ref); }
    var q := IndexOf(u, ref);
    u[..q] + [x] + u[q..]
  }

  /** `a` and `b` are children in that order: they bound a part's region. */
  predicate Bracketed<T(==)>(s: seq<T>, a: T, b: T) {
    Distinct(s) && a in s && b in s && IndexOf(s, a) < IndexOf(s, b)
  }

  /** The nodes strictly between the markers `a` and `b`. */
  function Region<T(==)>(s: seq<T>, a: T, b: T): seq<T>
    requires Bracketed(s, a, b)
  {
    s[IndexOf(s, a) + 1 .. IndexOf(s, b)]
  }

  /** The child list with the region between `a` and `b` replaced by `c`. */
  function Fill<T(==)>(s: seq<T>, a: T, b: T, c: seq<T>): seq<T>
    requires Bracketed(s, a, b)
  {
    s[..IndexOf(s, a) + 1] + c + s[IndexOf(s, b)..]
  }

  /** The child list with the run `s[i..j]` moved, in order, to just before `s[b]`; a run
      that holds `s[b]` stays where it is. */
  function MoveBlock<T>(s: seq<T>, i: nat, j: nat, b: nat): seq<T>
    requires i <= j <= |s| && b < |s|
  {
    if b < i then s[..b] + s[i..j] + s[b..i] + s[j..]
    else if j <= b then s[..i] + s[j..b] + s[i..j] + s[b..]
    else s
  }

  /** Where the moved run starts in `MoveBlock(s, i, j, b)`. */
  function MovedStart(i: nat, j: nat, b: nat): nat
    requires i <= j && (b < i || j <= b)
  {
    if b < i then b else b - (j - i)
  }

  /** The child list with every node of `xs` filtered out: the other nodes in their order. */
  function Without<T(==)>(s: seq<T>, xs: set<T>): seq<T> {
    if s == [] then []
    else (if s[0] in xs then [] else [s[0]]) + Without(s[1..], xs)
  }

  // ---------------------------------------------------------------------------
  // Distinctness
  // ---------------------------------------------------------------------------

  lemma {:induction false} DistinctCount<T>(s: seq<T>, x: T)
    requires Distinct(s)
    ensures multiset(s)[x] <= 1
  {
    if s != [] {
      assert s == [s[0]] + s[1..];
      assert Distinct(s[1..]);
      DistinctCount(s[1..], x);
      if x == s[0] {
        assert x !in s[1..];
      }
    }
  }

  lemma PairCount<T>(s: seq<T>, p: nat, q: nat)
    requires p < q < |s|
    ensures multiset(s)[s[p]] >= if s[p] == s[q] then 2 else 1
  {
    assert s == s[..q] + s[q..];
    assert s[p] == s[..q][p];
    assert s[q] == s[q..][0];
  }

  lemma CountDistinct<T>(s: seq<T>)
    requires forall x :: multiset(s)[x] <= 1
    ensures Distinct(s)
  {
    forall p, q | 0 <= p < q < |s| ensures s[p] != s[q] {
      PairCount(s, p, q);
    }
  }

  /** A list that holds at most the nodes of a distinct list is distinct. */
  lemma DistinctSub<T>(a: seq<T>, b: seq<T>)
    requires Distinct(b) && multiset(a) <= multiset(b)
    ensures Distinct(a)
  {
    forall x ensures multiset(a)[x] <= 1 {
      DistinctCount(b, x);
    }
    CountDistinct(a);
  }

  lemma DistinctConcat<T>(a: seq<T>, b: seq<T>)
    requires Distinct(a) && Distinct(b) && Disjoint(a, b)
    ensures Distinct(a + b)
  {
    forall p, q | 0 <= p < q < |a + b| ensures (a + b)[p] != (a + b)[q] {
      if q < |a| {
        assert (a + b)[p] == a[p] && (a + b)[q] == a[q];
      } else if |a| <= p {
        assert (a + b)[p] == b[p - |a|] && (a + b)[q] == b[q - |a|];
      } else {
        assert (a + b)[p] == a[p] && (a + b)[q] == b[q - |a|];
      }
    }
  }

  // ---------------------------------------------------------------------------
  // Slicing concatenations
  // ---------------------------------------------------------------------------

  lemma SplitLeft<T>(a: seq<T>, b: seq<T>, n: nat)
    requires n <= |a|
    ensures (a + b)[..n] == a[..n] && (a + b)[n..] == a[n..] + b
  {
  }

  lemma SplitRight<T>(a: seq<T>, b: seq<T>, n: nat)
    requires |a| <= n <= |a| + |b|
    ensures (a + b)[..n] == a + b[..n - |a|] && (a + b)[n..] == b[n - |a|..]
  {
  }

  lemma Split3<T>(s: seq<T>, i: nat, j: nat)
    requires i <= j <= |s|
    ensures s == s[..i] + s[i..j] + s[j..]
  {
  }

  lemma Pieces4<T>(a: seq<T>, b: seq<T>, c: seq<T>, d: seq<T>)
    ensures var t := a + b + c + d;
      && t[..|a| + |b|] == a + b
      && t[|a| + |b|..|a| + |b| + |c|] == c
      && t[|a| + |b| + |c|..] == d
  {
    var t := a + b + c + d;
    assert t == (a + b) + (c + d);
    assert t[|a| + |b|..] == c + d;
  }

  // ---------------------------------------------------------------------------
  // DOM primitives on a distinct child list
  // ---------------------------------------------------------------------------

  lemma IndexOfAt<T>(s: seq<T>, p: nat)
    requires Distinct(s) && p < |s|
    ensures IndexOf(s, s[p]) == p
  {
    var q := IndexOf(s, s[p]);
    NotInPrefix(s, q, s[p]);
  }

  lemma NotInPrefix<T>(s: seq<T>, q: nat, x: T)
    requires q <= |s| && x !in s[..q]
    ensures forall m :: 0 <= m < q ==> s[m] != x
  {
    forall m | 0 <= m < q ensures s[m] != x {
      assert s[..q][m] == s[m];
    }
  }

  lemma AtInjective<T>(s: seq<T>, m: nat, n: nat)
    requires Distinct(s) && m <= |s| && n <= |s| && At(s, m) == At(s, n)
    ensures m == n
  {
  }

  lemma RemoveKeeps<T>(s: seq<T>, x: T, y: T)
    requires y in s && y != x
    ensures y in Remove(s, x)
  {
    if x in s {
      var p := IndexOf(s, x);
      assert s == s[..p] + [x] + s[p + 1..];
    }
  }

  lemma RemoveAt<T>(s: seq<T>, p: nat)
    requires Distinct(s) && p < |s|
    ensures Remove(s, s[p]) == s[..p] + s[p + 1..]
  {
    IndexOfAt(s, p);
  }

  lemma NextSiblingAt<T>(s: seq<T>, p: nat)
    requires Distinct(s) && p < |s|
    ensures NextSibling(s, s[p]) == At(s, p + 1)
  {
    IndexOfAt(s, p);
  }

  /** `insertBefore(s[p], s[q])` on a distinct list, by position. */
  lemma InsertBeforeAt<T>(s: seq<T>, p: nat, q: nat)
    requires Distinct(s) && p < |s| && q < |s| && p != q
    ensures InsertBefore(s, s[p], s[q]) ==
      if p < q then s[..p] + s[p + 1..q] + [s[p]] + s[q..]
      else s[..q] + [s[p]] + s[q..p] + s[p + 1..]
  {
    RemoveAt(s, p);
    RemoveDistinct(s, p);
    var q' := RemoveSlices(s, p, q);
    IndexOfAt(s[..p] + s[p + 1..], q');
  }

  lemma RemoveDistinct<T>(s: seq<T>, p: nat)
    requires Distinct(s) && p < |s|
    ensures Distinct(s[..p] + s[p + 1..])
  {
    assert s == s[..p] + [s[p]] + s[p + 1..];
    DistinctSub(s[..p] + s[p + 1..], s);
  }

  /** Where `s[q]` sits once `s[p]` is cut out, and the list with `s[p]` put back before it. */
  lemma RemoveSlices<T>(s: seq<T>, p: nat, q: nat) returns (q': nat)
    requires p < |s| && q < |s| && p != q
    ensures var u := s[..p] + s[p + 1..];
      && q' < |u| && u[q'] == s[q]
      && u[..q'] + [s[p]] + u[q'..] ==
         if p < q then s[..p] + s[p + 1..q] + [s[p]] + s[q..]
         else s[..q] + [s[p]] + s[q..p] + s[p + 1..]
  {
    var a, b := s[..p], s[p + 1..];
    if p < q {
      q' := q - 1;
      SplitRight(a, b, q');
      assert b[..q' - p] == s[p + 1..q];
      assert b[q' - p..] == s[q..];
    } else {
      q' := q;
      SplitLeft(a, b, q');
      assert a[q..] == s[q..p];
    }
  }

  /** `insertBefore(x, s[q])` for a node `x` that has no place in `s` yet. */
  lemma InsertFreshBefore<T>(s: seq<T>, x: T, q: nat)
    requires Distinct(s) && q < |s| && x !in s
    ensures InsertBefore(s, x, s[q]) == s[..q] + [x] + s[q..]
  {
    IndexOfAt(s, q);
  }

  // ---------------------------------------------------------------------------
  // Regions between markers
  // ---------------------------------------------------------------------------

  /** Filling a region with nodes of no other place keeps the markers and everything
      outside the region, and the region then holds exactly those nodes. */
  lemma FillSpec<T>(s: seq<T>, a: T, b: T, c: seq<T>)
    requires Bracketed(s, a, b) && Distinct(c) && Disjoint(c, s)
    ensures var r := Fill(s, a, b, c);
      && Bracketed(r, a, b)
      && Region(r, a, b) == c
      && IndexOf(r, a) == IndexOf(s, a)
      && r[..IndexOf(r, a) + 1] == s[..IndexOf(s, a) + 1]
      && r[IndexOf(r, b)..] == s[IndexOf(s, b)..]
  {
    var ia, ib := IndexOf(s, a), IndexOf(s, b);
    FillDistinct(s, ia, ib, c);
    FillSlices(s, ia, ib, c);
    BracketedAt(Fill(s, a, b, c), ia, ia + 1 + |c|);
  }

  /** In a distinct list, the nodes at `p < q` bracket the region `r[p + 1..q]`. */
  lemma BracketedAt<T>(r: seq<T>, p: nat, q: nat)
    requires Distinct(r) && p < q < |r|
    ensures IndexOf(r, r[p]) == p && IndexOf(r, r[q]) == q
    ensures Bracketed(r, r[p], r[q]) && Region(r, r[p], r[q]) == r[p + 1..q]
  {
    IndexOfAt(r, p);
    IndexOfAt(r, q);
  }

  lemma FillDistinct<T>(s: seq<T>, ia: nat, ib: nat, c: seq<T>)
    requires Distinct(s) && Distinct(c) && Disjoint(c, s) && ia < ib < |s|
    ensures Distinct(s[..ia + 1] + c + s[ib..])
  {
    DisjointSym(c, s);
    DistinctConcat(s, c);
    FillSlices(s, ia, ib, c);
    DistinctSub(s[..ia + 1] + c + s[ib..], s + c);
  }

  lemma DisjointSym<T>(a: seq<T>, b: seq<T>)
    requires Disjoint(a, b)
    ensures Disjoint(b, a)
  {
    forall p, q | 0 <= p < |b| && 0 <= q < |a| ensures b[p] != a[q] {
      assert a[q] != b[p];
    }
  }

  lemma FillSlices<T>(s: seq<T>, ia: nat, ib: nat, c: seq<T>)
    requires ia < ib < |s|
    ensures var r := s[..ia + 1] + c + s[ib..];
      && multiset(r) <= multiset(s + c)
      && r[ia] == s[ia] && r[ia + 1 + |c|] == s[ib]
      && r[ia + 1 .. ia + 1 + |c|] == c
      && r[..ia + 1] == s[..ia + 1] && r[ia + 1 + |c|..] == s[ib..]
  {
    assert s + c == s[..ia + 1] + s[ia + 1..ib] + s[ib..] + c;
  }

  /** Emptying a region and then filling it with what it held restores the child list. */
  lemma FillRoundTrip<T>(s: seq<T>, a: T, b: T)
    requires Bracketed(s, a, b)
    ensures Bracketed(Fill(s, a, b, []), a, b)
    ensures Fill(Fill(s, a, b, []), a, b, Region(s, a, b)) == s
  {
    FillSpec(s, a, b, []);
    Split3(s, IndexOf(s, a) + 1, IndexOf(s, b));
  }

  /** The positions a loop over a region walks: from the node after `a` up to `b`. */
  lemma RegionBounds<T>(s: seq<T>, a: T, b: T) returns (i: nat, j: nat)
    requires Bracketed(s, a, b)
    ensures i == IndexOf(s, a) + 1 && j == IndexOf(s, b)
    ensures 0 < i <= j < |s| && At(s, j) == Some(b) && NextSibling(s, a) == At(s, i)
  {
    i, j := IndexOf(s, a) + 1, IndexOf(s, b);
  }

  /** Cutting a region out of the child list leaves the markers adjacent. */
  lemma RegionCut<T>(s: seq<T>, a: T, b: T)
    requires Bracketed(s, a, b)
    ensures var i, j := IndexOf(s, a) + 1, IndexOf(s, b);
      && s[i..j] == Region(s, a, b)
      && var r := s[..i] + s[j..];
      && r == Fill(s, a, b, []) && Bracketed(r, a, b) && Region(r, a, b) == []
  {
    FillSpec(s, a, b, []);
    assert s[..IndexOf(s, a) + 1] + [] == s[..IndexOf(s, a) + 1];
  }

  /** A region's nodes are distinct, and none of them is left in the child list once the
      region is emptied. */
  lemma RegionApart<T>(s: seq<T>, a: T, b: T)
    requires Bracketed(s, a, b)
    ensures Distinct(Region(s, a, b)) && Disjoint(Region(s, a, b), Fill(s, a, b, []))
  {
    var ia, ib := IndexOf(s, a), IndexOf(s, b);
    Split3(s, ia + 1, ib);
    ThreeApart(s[..ia + 1], s[ia + 1..ib], s[ib..]);
  }

  lemma ThreeApart<T>(p: seq<T>, r: seq<T>, q: seq<T>)
    requires Distinct(p + r + q)
    ensures Distinct(r) && Disjoint(r, p + [] + q)
  {
    var t, u := p + r + q, p + [] + q;
    forall x, y | 0 <= x < y < |r| ensures r[x] != r[y] {
      assert t[|p| + x] == r[x] && t[|p| + y] == r[y];
    }
    forall x, y | 0 <= x < |r| && 0 <= y < |u| ensures r[x] != u[y] {
      assert t[|p| + x] == r[x];
      if y < |p| {
        assert t[y] == u[y];
      } else {
        assert t[|r| + y] == u[y];
      }
    }
  }

  /** One step of a loop that cuts the nodes after position `i` out of `s`, one by one:
      with `k` nodes gone, the next one is the follower of the current one. */
  lemma CutStep<T>(s: seq<T>, i: nat, k: nat)
    requires Distinct(s) && i + k < |s|
    ensures var t := s[..i] + s[i + k..];
      && Distinct(t) && s[i + k] in t
      && NextSibling(t, s[i + k]) == At(s, i + k + 1)
      && Remove(t, s[i + k]) == s[..i] + s[i + k + 1..]
  {
    var t := s[..i] + s[i + k..];
    CutSlices(s, i, k);
    DistinctSub(t, s);
    NextSiblingAt(t, i);
    RemoveAt(t, i);
  }

  /** `CutStep` as one turn of a loop over `s[i..j]` that stops at `At(s, j)`: when the
      loop goes on, the current node is `s[m]`, and cutting it leaves `s[i..m + 1]` gone. */
  lemma CutTurn<T>(s: seq<T>, i: nat, m: nat, j: nat, cur: Option<T>, stop: Option<T>)
    requires Distinct(s) && i <= m <= j <= |s| && At(s, j) == stop
    requires cur == At(s, m) && cur != stop
    ensures m < j && cur == Some(s[m])
    ensures var t := s[..i] + s[m..];
      && Distinct(t) && s[m] in t
      && NextSibling(t, s[m]) == At(s, m + 1)
      && Remove(t, s[m]) == s[..i] + s[m + 1..]
  {
    CutStep(s, i, m - i);
  }

  /** Appending the next node of a run to what was gathered of it. */
  lemma GatherStep<T>(f: seq<T>, s: seq<T>, i: nat, m: nat)
    requires i <= m < |s|
    ensures f + s[i..m] + [s[m]] == f + s[i..m + 1]
  {
    assert s[i..m + 1] == s[i..m] + [s[m]];
  }

  lemma CutSlices<T>(s: seq<T>, i: nat, k: nat)
    requires i + k < |s|
    ensures var t := s[..i] + s[i + k..];
      && multiset(t) <= multiset(s) && i < |t| && t[i] == s[i + k]
      && At(t, i + 1) == At(s, i + k + 1)
      && t[..i] + t[i + 1..] == s[..i] + s[i + k + 1..]
  {
    var A, M, D := s[..i], s[i..i + k], s[i + k..];
    assert s == A + M + D;
    CutShape(A, M, D);
    assert D[1..] == s[i + k + 1..];
  }

  /** `a + d`, the list `a + m + d` with the run `m` cut out, around the first node of `d`. */
  lemma CutShape<T>(a: seq<T>, m: seq<T>, d: seq<T>)
    requires d != []
    ensures var t, i := a + d, |a|;
      && multiset(t) <= multiset(a + m + d) && t[i] == d[0]
      && At(t, i + 1) == At(d, 1) && |t| == |a| + |d|
      && t[..i] + t[i + 1..] == a + d[1..]
  {
    var t, i := a + d, |a|;
    assert t[..i] == a;
    assert t[i + 1..] == d[1..];
  }

  // ---------------------------------------------------------------------------
  // Moving a run of siblings
  // ---------------------------------------------------------------------------

  lemma MoveBlockPermutes<T>(s: seq<T>, i: nat, j: nat, b: nat)
    requires i <= j <= |s| && b < |s| && (b < i || j <= b)
    ensures multiset(MoveBlock(s, i, j, b)) == multiset(s)
  {
    if b < i {
      assert s == s[..b] + s[b..i] + s[i..j] + s[j..];
      SwapMiddle(s[..b], s[b..i], s[i..j], s[j..]);
    } else {
      assert s == s[..i] + s[i..j] + s[j..b] + s[b..];
      SwapMiddle(s[..i], s[i..j], s[j..b], s[b..]);
    }
  }

  lemma SwapMiddle<T>(a: seq<T>, b: seq<T>, c: seq<T>, d: seq<T>)
    ensures multiset(a + c + b + d) == multiset(a + b + c + d)
  {
  }

  lemma MoveBlockEmpty<T>(s: seq<T>, i: nat, b: nat)
    requires i <= |s| && b < |s|
    ensures MoveBlock(s, i, i, b) == s
  {
    if b < i {
      assert s == s[..b] + s[b..i] + s[i..];
    } else {
      assert s == s[..i] + s[i..b] + s[b..];
    }
  }

  /** Moving a run to just before the node that already follows it changes nothing. */
  lemma MoveBlockInPlace<T>(s: seq<T>, i: nat, j: nat)
    requires i <= j < |s|
    ensures MoveBlock(s, i, j, j) == s
  {
    assert s == s[..i] + s[i..j] + s[j..];
  }

  /** One step of moving the run `s[i..j]` before `s[b]`: with `s[i..m]` already moved,
      the current node's next sibling is the next node of the run, and moving the current
      node extends the moved prefix by one. */
  lemma MoveBlockStep<T>(s: seq<T>, i: nat, m: nat, j: nat, b: nat)
    requires Distinct(s) && i <= m < j <= |s| && b < |s| && (b < i || j < b)
    ensures var t := MoveBlock(s, i, m, b);
      && Distinct(t) && s[m] in t && s[b] in t && s[m] != s[b]
      && NextSibling(t, s[m]) == At(s, m + 1)
      && InsertBefore(t, s[m], s[b]) == MoveBlock(s, i, m + 1, b)
  {
    MoveBlockDistinct(s, i, m, b);
    if b < i {
      MoveBlockStepEarlier(s, i, m, j, b);
    } else {
      MoveBlockStepLater(s, i, m, j, b);
    }
  }

  lemma MoveBlockStepEarlier<T>(s: seq<T>, i: nat, m: nat, j: nat, b: nat)
    requires i <= m < j <= |s| && b < i && Distinct(MoveBlock(s, i, m, b))
    ensures var t := MoveBlock(s, i, m, b);
      && s[m] in t && s[b] in t && s[m] != s[b]
      && NextSibling(t, s[m]) == At(s, m + 1)
      && InsertBefore(t, s[m], s[b]) == MoveBlock(s, i, m + 1, b)
  {
    var p, q := MoveStepEarlier(s, i, m, j, b);
    MoveStepDom(MoveBlock(s, i, m, b), p, q);
  }

  lemma MoveBlockStepLater<T>(s: seq<T>, i: nat, m: nat, j: nat, b: nat)
    requires i <= m < j < b < |s| && Distinct(MoveBlock(s, i, m, b))
    ensures var t := MoveBlock(s, i, m, b);
      && s[m] in t && s[b] in t && s[m] != s[b]
      && NextSibling(t, s[m]) == At(s, m + 1)
      && InsertBefore(t, s[m], s[b]) == MoveBlock(s, i, m + 1, b)
  {
    var p, q := MoveStepLater(s, i, m, j, b);
    MoveStepDom(MoveBlock(s, i, m, b), p, q);
  }

  /** `MoveBlockStep` as one turn of a loop that stops at `At(s, j)`. */
  lemma MoveTurn<T>(s: seq<T>, i: nat, m: nat, j: nat, b: nat, cur: Option<T>, stop: Option<T>) returns (n: nat)
    requires Distinct(s) && i <= m <= j <= |s| && b < |s| && (b < i || j < b) && At(s, j) == stop
    requires cur == At(s, m) && cur != stop
    ensures n == m + 1 && n <= j && cur == Some(s[m])
    ensures var t := MoveBlock(s, i, m, b);
      && Distinct(t) && s[m] in t && s[b] in t && s[m] != s[b]
      && NextSibling(t, s[m]) == At(s, n)
      && InsertBefore(t, s[m], s[b]) == MoveBlock(s, i, n, b)
  {
    n := m + 1;
    TurnBound(s, m, j, cur, stop);
    MoveBlockStep(s, i, m, j, b);
  }

  /** A loop over `s[m..j]` that has not reached its stop is at a node before `j`. */
  lemma TurnBound<T>(s: seq<T>, m: nat, j: nat, cur: Option<T>, stop: Option<T>)
    requires m <= j <= |s| && At(s, j) == stop && cur == At(s, m) && cur != stop
    ensures m < j && cur == Some(s[m])
  {
  }

  lemma MoveBlockDistinct<T>(s: seq<T>, i: nat, j: nat, b: nat)
    requires Distinct(s) && i <= j <= |s| && b < |s| && (b < i || j <= b)
    ensures Distinct(MoveBlock(s, i, j, b))
  {
    MoveBlockPermutes(s, i, j, b);
    DistinctSub(MoveBlock(s, i, j, b), s);
  }

  lemma MoveStepDom<T>(t: seq<T>, p: nat, q: nat)
    requires Distinct(t) && p < |t| && q < |t| && p != q
    ensures t[p] in t && t[q] in t && t[p] != t[q]
    ensures NextSibling(t, t[p]) == At(t, p + 1)
    ensures InsertBefore(t, t[p], t[q]) ==
      if p < q then t[..p] + t[p + 1..q] + [t[p]] + t[q..]
      else t[..q] + [t[p]] + t[q..p] + t[p + 1..]
  {
    NextSiblingAt(t, p);
    InsertBeforeAt(t, p, q);
  }

  /** `a + b + c + d` with the first node of `d` moved to just before `c`. */
  lemma EarlierShape<T>(a: seq<T>, b: seq<T>, c: seq<T>, d: seq<T>)
    requires c != [] && d != []
    ensures var t, q, p := a + b + c + d, |a| + |b|, |a| + |b| + |c|;
      && t[q] == c[0] && t[p] == d[0] && t[p + 1..] == d[1..]
      && t[..q] + [t[p]] + t[q..p] + t[p + 1..] == a + (b + [d[0]]) + c + d[1..]
  {
    var t, q, p := a + b + c + d, |a| + |b|, |a| + |b| + |c|;
    assert t == (a + b) + c + d;
    assert t[..q] == a + b;
    assert t[q..p] == c;
    assert t[p..] == d;
  }

  /** `a + c + b + e` with the first node of `c` moved to just before `e`. */
  lemma LaterShape<T>(a: seq<T>, c: seq<T>, b: seq<T>, e: seq<T>)
    requires c != []
    ensures var t, p, q := a + c + b + e, |a|, |a| + |c| + |b|;
      && t[p] == c[0] && (|c| >= 2 ==> t[p + 1] == c[1])
      && t[..p] + t[p + 1..q] + [t[p]] + t[q..] == a + c[1..] + (b + [c[0]]) + e
  {
    var t, p, q := a + c + b + e, |a|, |a| + |c| + |b|;
    assert t == a + (c + b) + e;
    assert t[..p] == a;
    assert t[p..q] == c + b;
    assert t[p + 1..q] == c[1..] + b;
    assert t[q..] == e;
  }

  lemma MoveStepEarlier<T>(s: seq<T>, i: nat, m: nat, j: nat, b: nat) returns (p: nat, q: nat)
    requires i <= m < j <= |s| && b < i
    ensures var t := MoveBlock(s, i, m, b);
      && q < p < |t| && t[p] == s[m] && t[q] == s[b]
      && At(t, p + 1) == At(s, m + 1)
      && t[..q] + [t[p]] + t[q..p] + t[p + 1..] == MoveBlock(s, i, m + 1, b)
  {
    var A, B, C, D := s[..b], s[i..m], s[b..i], s[m..];
    EarlierShape(A, B, C, D);
    p, q := m, b + (m - i);
    assert D[1..] == s[m + 1..];
    assert B + [D[0]] == s[i..m + 1];
  }

  lemma MoveStepLater<T>(s: seq<T>, i: nat, m: nat, j: nat, b: nat) returns (p: nat, q: nat)
    requires i <= m < j < b < |s|
    ensures var t := MoveBlock(s, i, m, b);
      && p < q < |t| && t[p] == s[m] && t[q] == s[b]
      && At(t, p + 1) == At(s, m + 1)
      && t[..p] + t[p + 1..q] + [t[p]] + t[q..] == MoveBlock(s, i, m + 1, b)
  {
    var A, C, B, E := s[..i], s[m..b], s[i..m], s[b..];
    LaterShape(A, C, B, E);
    p, q := i, b;
    assert C[1..] == s[m + 1..b];
    assert B + [C[0]] == s[i..m + 1];
    assert (A + C + B + E)[q] == E[0];
  }

  /** After the move, the run sits contiguously, in its old order, immediately before `s[b]`. */
  lemma MoveBlockPlaces<T>(s: seq<T>, i: nat, j: nat, b: nat)
    requires i <= j <= |s| && b < |s| && (b < i || j <= b)
    ensures var r, m := MoveBlock(s, i, j, b), MovedStart(i, j, b);
      && |r| == |s| && m + (j - i) < |r|
      && r[m..m + (j - i)] == s[i..j]
      && r[m + (j - i)] == s[b]
  {
    if b < i {
      assert MoveBlock(s, i, j, b) == s[..b] + s[i..j] + s[b..i] + s[j..];
      Pieces4(s[..b], s[i..j], s[b..i], s[j..]);
      assert s[b..i][0] == s[b];
    } else {
      assert MoveBlock(s, i, j, b) == s[..i] + s[j..b] + s[i..j] + s[b..];
      Pieces4(s[..i], s[j..b], s[i..j], s[b..]);
      assert s[b..][0] == s[b];
    }
  }

  /** A run that holds two markers and what lies between them, moved as a whole, keeps the
      markers in order around the same region. */
  lemma MoveBlockKeepsBracket<T>(s: seq<T>, i: nat, j: nat, b: nat, x: T, y: T)
    requires Distinct(s) && i + 1 < j <= |s| && b < |s| && (b < i || j <= b)
    requires s[i] == x && s[j - 1] == y
    ensures var r := MoveBlock(s, i, j, b);
      Bracketed(r, x, y) && Region(r, x, y) == s[i + 1..j - 1]
  {
    var r, m := MoveBlock(s, i, j, b), MovedStart(i, j, b);
    MoveBlockDistinct(s, i, j, b);
    MoveBlockPlaces(s, i, j, b);
    WindowBracket(r, s, m, i, j, x, y);
  }

  /** Moving a run before the node that already follows it changes nothing. */
  lemma MoveRunStop<T>(s: seq<T>, i: nat, j: nat, b: nat)
    requires Distinct(s) && i <= j <= |s| && b < |s|
    ensures At(s, j) == Some(s[b]) ==> MoveBlock(s, i, j, b) == s
  {
    if At(s, j) == Some(s[b]) {
      AtInjective(s, j, b);
      MoveBlockInPlace(s, i, j);
    }
  }

  lemma WindowBracket<T>(r: seq<T>, s: seq<T>, m: nat, i: nat, j: nat, x: T, y: T)
    requires Distinct(r) && i + 1 < j <= |s| && m + (j - i) <= |r| && r[m..m + (j - i)] == s[i..j]
    requires s[i] == x && s[j - 1] == y
    ensures Bracketed(r, x, y) && Region(r, x, y) == s[i + 1..j - 1]
  {
    BracketShift(r, s[i..j], m);
    SliceOfSlice(s, i, j, 1, j - i - 1);
  }

  lemma SliceOfSlice<T>(s: seq<T>, i: nat, j: nat, x: nat, y: nat)
    requires i <= j <= |s| && x <= y <= j - i
    ensures s[i..j][x..y] == s[i + x..i + y]
  {
    var u, v := s[i..j][x..y], s[i + x..i + y];
    forall k | 0 <= k < y - x ensures u[k] == v[k] {
      assert u[k] == s[i..j][x + k];
    }
  }

  /** Markers at both ends of a window `w` of a distinct list bracket the inside of `w`. */
  lemma BracketShift<T>(r: seq<T>, w: seq<T>, m: nat)
    requires Distinct(r) && 2 <= |w| && m + |w| <= |r| && r[m..m + |w|] == w
    ensures Bracketed(r, w[0], w[|w| - 1]) && Region(r, w[0], w[|w| - 1]) == w[1..|w| - 1]
  {
    var n := |w|;
    assert r[m] == w[0] && r[m + n - 1] == w[n - 1];
    BracketedAt(r, m, m + n - 1);
    var u := r[m + 1..m + n - 1];
    forall x | 0 <= x < n - 2 ensures u[x] == w[1 + x] {
      assert r[m + 1 + x] == w[1 + x];
    }
  }

  lemma {:induction false} WithoutConcat<T>(a: seq<T>, b: seq<T>, xs: set<T>)
    ensures Without(a + b, xs) == Without(a, xs) + Without(b, xs)
  {
    if a != [] {
      var head := if a[0] in xs then [] else [a[0]];
      assert (a + b)[0] == a[0];
      assert (a + b)[1..] == a[1..] + b;
      assert Without(a + b, xs) == head + Without(a[1..] + b, xs);
      WithoutConcat(a[1..], b, xs);
      assert Without(a, xs) == head + Without(a[1..], xs);
    } else {
      assert a + b == b;
    }
  }

  lemma {:induction false} WithoutNone<T>(a: seq<T>, xs: set<T>)
    requires forall k :: 0 <= k < |a| ==> a[k] !in xs
    ensures Without(a, xs) == a
  {
    if a != [] {
      WithoutNone(a[1..], xs);
      assert a == [a[0]] + a[1..];
    }
  }

  lemma {:induction false} WithoutAll<T>(a: seq<T>, xs: set<T>)
    requires forall k :: 0 <= k < |a| ==> a[k] in xs
    ensures Without(a, xs) == []
  {
    if a != [] {
      WithoutAll(a[1..], xs);
    }
  }

  lemma Without4<T>(a: seq<T>, b: seq<T>, c: seq<T>, d: seq<T>, xs: set<T>)
    ensures Without(a + b + c + d, xs) == Without(a, xs) + Without(b, xs) + Without(c, xs) + Without(d, xs)
  {
    WithoutConcat(a + b + c, d, xs);
    WithoutConcat(a + b, c, xs);
    WithoutConcat(a, b, xs);
  }

  lemma {:induction false} WithoutShorter<T>(a: seq<T>, xs: set<T>)
    ensures |Without(a, xs)| <= |a|
  {
    if a != [] {
      WithoutShorter(a[1..], xs);
    }
  }

  /** When filtering keeps all of `a + b`, it keeps all of each part. */
  lemma WithoutKeepsParts<T>(a: seq<T>, b: seq<T>, xs: set<T>)
    requires Without(a + b, xs) == a + b
    ensures Without(a, xs) == a && Without(b, xs) == b
  {
    WithoutConcat(a, b, xs);
    WithoutShorter(a, xs);
    WithoutShorter(b, xs);
    assert Without(a, xs) == (a + b)[..|a|];
  }

  /** The nodes of the run `s[i..j]`. */
  function RunNodes<T>(s: seq<T>, i: nat, j: nat): set<T>
    requires i <= j <= |s|
  {
    set k | i <= k < j :: s[k]
  }

  /** In a distinct list, a node belongs to the run exactly when its position is inside it. */
  lemma InRun<T>(s: seq<T>, i: nat, j: nat)
    requires Distinct(s) && i <= j <= |s|
    ensures forall k :: 0 <= k < |s| ==> (s[k] in RunNodes(s, i, j) <==> i <= k < j)
  {
    forall k | 0 <= k < |s| && !(i <= k < j) ensures s[k] !in RunNodes(s, i, j) {
      forall m | i <= m < j ensures s[m] != s[k] {
        assert m != k;
      }
    }
  }

  lemma RunSlices<T>(s: seq<T>, i: nat, j: nat, xs: set<T>)
    requires i <= j <= |s|
    requires forall k :: 0 <= k < |s| ==> (s[k] in xs <==> i <= k < j)
    ensures Without(s[..i], xs) == s[..i] && Without(s[i..j], xs) == [] && Without(s[j..], xs) == s[j..]
  {
    WithoutNone(s[..i], xs);
    WithoutAll(s[i..j], xs);
    WithoutNone(s[j..], xs);
  }

  /** Dropping a run's nodes from a distinct list leaves the nodes outside the run, and
      leaves the part before the run and the part after it whole. */
  lemma WithoutRun<T>(s: seq<T>, i: nat, j: nat)
    requires Distinct(s) && i <= j <= |s|
    ensures Without(s, RunNodes(s, i, j)) == s[..i] + s[j..]
    ensures var xs := RunNodes(s, i, j);
      Without(s[..i], xs) == s[..i] && Without(s[i..j], xs) == [] && Without(s[j..], xs) == s[j..]
  {
    InRun(s, i, j);
    RunSlices(s, i, j, RunNodes(s, i, j));
    CutPieces(s, i, j, RunNodes(s, i, j));
  }

  lemma CutPieces<T>(s: seq<T>, i: nat, j: nat, xs: set<T>)
    requires i <= j <= |s|
    requires Without(s[..i], xs) == s[..i] && Without(s[i..j], xs) == [] && Without(s[j..], xs) == s[j..]
    ensures Without(s, xs) == s[..i] + s[j..]
  {
    assert s == s[..i] + s[i..j] + s[j..];
    Without3(s[..i], s[i..j], s[j..], xs);
  }

  lemma Without3<T>(a: seq<T>, r: seq<T>, c: seq<T>, xs: set<T>)
    requires Without(a, xs) == a && Without(r, xs) == [] && Without(c, xs) == c
    ensures Without(a + r + c, xs) == a + c
  {
    WithoutConcat(a, r, xs);
    assert Without(a + r, xs) == a;
    WithoutConcat(a + r, c, xs);
  }

  /** Moving a run changes the order of no other node: dropping the run's nodes from the
      result leaves exactly the nodes outside the run, in their old order. */
  lemma MoveBlockKeepsOthers<T>(s: seq<T>, i: nat, j: nat, b: nat)
    requires Distinct(s) && i <= j <= |s| && b < |s| && (b < i || j <= b)
    ensures Without(MoveBlock(s, i, j, b), RunNodes(s, i, j)) == Without(s, RunNodes(s, i, j))
  {
    WithoutRun(s, i, j);
    MovePieces(s, i, j, b, RunNodes(s, i, j));
  }

  lemma MovePieces<T>(s: seq<T>, i: nat, j: nat, b: nat, xs: set<T>)
    requires i <= j <= |s| && b < |s| && (b < i || j <= b)
    requires Without(s[..i], xs) == s[..i] && Without(s[i..j], xs) == [] && Without(s[j..], xs) == s[j..]
    ensures Without(MoveBlock(s, i, j, b), xs) == s[..i] + s[j..]
  {
    if b < i {
      assert s[..i] == s[..b] + s[b..i];
      WithoutRunEarlier(s[..b], s[i..j], s[b..i], s[j..], xs);
    } else {
      assert s[j..] == s[j..b] + s[b..];
      WithoutRunLater(s[..i], s[j..b], s[i..j], s[b..], xs);
    }
  }

  lemma WithoutRunEarlier<T>(a: seq<T>, r: seq<T>, c: seq<T>, d: seq<T>, xs: set<T>)
    requires Without(a + c, xs) == a + c && Without(r, xs) == [] && Without(d, xs) == d
    ensures Without(a + r + c + d, xs) == a + c + d
  {
    WithoutKeepsParts(a, c, xs);
    Without4(a, r, c, d, xs);
  }

  lemma WithoutRunLater<T>(a: seq<T>, c: seq<T>, r: seq<T>, e: seq<T>, xs: set<T>)
    requires Without(a, xs) == a && Without(r, xs) == [] && Without(c + e, xs) == c + e
    ensures Without(a + c + r + e, xs) == a + (c + e)
  {
    WithoutKeepsParts(c, e, xs);
    Without4(a, c, r, e, xs);
  }

  /** Two fresh nodes inserted together before `s[q]`, as two `insertBefore` calls. */
  lemma InsertPairBefore<T>(s: seq<T>, q: nat, x: T, y: T)
    requires Distinct(s) && q < |s| && x !in s && y !in s && x != y
    ensures Distinct(s[..q] + [x, y] + s[q..])
    ensures InsertBefore(InsertBefore(s, x, s[q]), y, s[q]) == s[..q] + [x, y] + s[q..]
  {
    var t := s[..q] + [x] + s[q..];
    var u := s + [x, y];
    InsertFreshBefore(s, x, q);
    FreshPairDisjoint(s, x, y);
    DistinctConcat(s, [x, y]);
    PairSlices(s, q, x, y);
    DistinctSub(t, u);
    InsertFreshBefore(t, y, q + 1);
    DistinctSub(s[..q] + [x, y] + s[q..], u);
  }

  lemma FreshPairDisjoint<T>(s: seq<T>, x: T, y: T)
    requires x !in s && y !in s && x != y
    ensures Distinct([x, y]) && Disjoint(s, [x, y])
  {
  }

  lemma PairSlices<T>(s: seq<T>, q: nat, x: T, y: T)
    requires q < |s| && y !in s && y != x
    ensures var t := s[..q] + [x] + s[q..];
      && multiset(t) <= multiset(s + [x, y])
      && multiset(s[..q] + [x, y] + s[q..]) == multiset(s + [x, y])
      && t[q + 1] == s[q] && y !in t
      && t[..q + 1] + [y] + t[q + 1..] == s[..q] + [x, y] + s[q..]
  {
    assert s == s[..q] + s[q..];
    PairShape(s[..q], s[q..], x, y);
  }

  /** `a + [x] + b`, then `y` too, before the first node of `b`. */
  lemma PairShape<T>(a: seq<T>, b: seq<T>, x: T, y: T)
    requires b != [] && y !in a + b && y != x
    ensures var t, q := a + [x] + b, |a|;
      && multiset(t) <= multiset(a + b + [x, y])
      && multiset(a + [x, y] + b) == multiset(a + b + [x, y])
      && t[q + 1] == b[0] && y !in t
      && t[..q + 1] + [y] + t[q + 1..] == a + [x, y] + b
  {
    var t, q := a + [x] + b, |a|;
    assert t[..q + 1] == a + [x];
    assert t[q + 1..] == b;
    assert y !in a && y !in b;
  }

  /** The two fresh markers bound an empty region that sits immediately before `s[q]`,
      and no other node moves relative to the rest. */
  lemma InsertPairSpec<T>(s: seq<T>, q: nat, x: T, y: T)
    requires q < |s| && Distinct(s[..q] + [x, y] + s[q..])
    ensures var r := s[..q] + [x, y] + s[q..];
      && Bracketed(r, x, y) && Region(r, x, y) == []
      && NextSibling(r, y) == Some(s[q])
      && Without(r, {x, y}) == s
  {
    var r := s[..q] + [x, y] + s[q..];
    assert r[q] == x && r[q + 1] == y && r[q + 2] == s[q];
    IndexOfAt(r, q);
    IndexOfAt(r, q + 1);
    NextSiblingAt(r, q + 1);
    WithoutFresh(s, q, x, y);
  }

  lemma WithoutFresh<T>(s: seq<T>, q: nat, x: T, y: T)
    requires q < |s| && Distinct(s[..q] + [x, y] + s[q..])
    ensures Without(s[..q] + [x, y] + s[q..], {x, y}) == s
  {
    assert s[..q] + [x, y] + s[q..] == s[..q] + [x] + [y] + s[q..];
    assert s == s[..q] + s[q..];
    WithoutMarkers(s[..q], x, y, s[q..]);
  }

  lemma WithoutMarkers<T>(a: seq<T>, x: T, y: T, b: seq<T>)
    requires Distinct(a + [x] + [y] + b)
    ensures Without(a + [x] + [y] + b, {x, y}) == a + b
  {
    MarkersApart(a, x, y, b);
    WithoutNone(a, {x, y});
    WithoutNone(b, {x, y});
    WithoutAll([x], {x, y});
    WithoutAll([y], {x, y});
    Without4(a, [x], [y], b, {x, y});
  }

  lemma MarkersApart<T>(a: seq<T>, x: T, y: T, b: seq<T>)
    requires Distinct(a + [x] + [y] + b)
    ensures forall k :: 0 <= k < |a| ==> a[k] !in {x, y}
    ensures forall k :: 0 <= k < |b| ==> b[k] !in {x, y}
  {
    var r := a + [x] + [y] + b;
    assert r[|a|] == x && r[|a| + 1] == y;
    forall k | 0 <= k < |a| ensures a[k] !in {x, y} {
      assert r[k] == a[k];
    }
    forall k | 0 <= k < |b| ensures b[k] !in {x, y} {
      assert r[|a| + 2 + k] == b[k];
    }
  }

  /** Inserting fresh nodes anywhere keeps every pair of markers in order. */
  lemma InsertPairKeeps<T>(s: seq<T>, q: nat, x: T, y: T, a: T, b: T)
    requires q < |s| && Distinct(s[..q] + [x, y] + s[q..]) && Bracketed(s, a, b)
    ensures Bracketed(s[..q] + [x, y] + s[q..], a, b)
  {
    var r := s[..q] + [x, y] + s[q..];
    var ia, ib := IndexOf(s, a), IndexOf(s, b);
    var ja := if ia < q then ia else ia + 2;
    var jb := if ib < q then ib else ib + 2;
    assert r[ja] == a && r[jb] == b;
    IndexOfAt(r, ja);
    IndexOfAt(r, jb);
  }

  lemma MultisetCut<T>(s: seq<T>, i: nat, j: nat)
    requires i <= j <= |s|
    ensures multiset(s) == multiset(s[..i] + s[j..]) + multiset(s[i..j])
  {
    assert s == s[..i] + s[i..j] + s[j..];
  }

  /** Removing the run `s[i..j]` removes exactly its nodes and keeps the others' order. */
  lemma CutSpec<T>(s: seq<T>, i: nat, j: nat)
    requires Distinct(s) && i <= j <= |s|
    ensures s[..i] + s[j..] == Without(s, RunNodes(s, i, j))
    ensures multiset(s) == multiset(s[..i] + s[j..]) + multiset(s[i..j])
  {
    WithoutRun(s, i, j);
    MultisetCut(s, i, j);
  }
}
