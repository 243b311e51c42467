/**
 * The node-part primitives of lit-html's `parts` module: detaching a part's
 * nodes into a fragment and restoring them, creating a part between two fresh
 * comment markers, setting and reading a part's value, moving a part's block of
 * nodes before another part, and removing a part's nodes.
 *
 * A DOM node is a `Node` object whose child list is the field `children`. A node
 * part is bounded by two marker nodes, `start` (lit's `D`) and `end` (lit's `E`),
 * children of the same parent; its region is what lies strictly between them.
 * The list surgery the DOM performs is specified in module `NodeLists`.
 */
module Parts {
  import opened Wrappers
  import opened NodeLists

  /** A DOM node; only its child list matters here. Comments and fragments are nodes too. */
  class Node {
    var children: seq<Node>

    /** `document.createComment('')` and `document.createDocumentFragment()`. */
    constructor ()
      ensures children == []
    {
      children := [];
    }
  }

  /** A value a part may hold. `Nothing` is lit's `nothing` sentinel, `Undefined` is
      JavaScript's `undefined`, `Items` an array of values, `Opaque` any other value. */
  datatype Value = Nothing | Undefined | Opaque(id: nat) | Items(items: seq<Value>)

  /** One call of the renderer's `_setValue`: the value handed over and the index argument. */
  datatype Commit = Commit(value: Value, valueIndex: Option<nat>)

  /** What `detachNodePart` returns: the part's value and the fragment holding its nodes. */
  datatype NodePartState = NodePartState(value: Value, fragment: Node)

  const IndexRequired := "An index must be provided to set an AttributePart's value."

  /** JavaScript arrays take integer keys from 0 up to 2^32 - 2 as element positions. */
  const MaxArrayIndex: int := 0xFFFF_FFFE

  /** A part over a run of sibling nodes, bracketed by the markers `start` and `end`. */
  class NodePart {
    const parent: Node
    const start: Node
    const end: Node
    const options: nat
    var value: Value
    /** The calls made to the renderer's `_setValue`, oldest first. */
    var commits: seq<Commit>

    /** Both markers are children of `parent`, `start` before `end`. */
    predicate Valid()
      reads parent
    {
      Bracketed(parent.children, start, end)
    }

    /** lit's `NodePart` constructor, which is not part of this model beyond its fields. */
    constructor (parent: Node, start: Node, end: Node, options: nat)
      ensures this.parent == parent && this.start == start && this.end == end
      ensures this.options == options && value == Undefined && commits == []
    {
      this.parent := parent;
      this.start := start;
      this.end := end;
      this.options := options;
      value := Undefined;
      commits := [];
    }

    /** The renderer's node commit `k`, taken to put exactly the fragment's nodes in the
        region (the old region's nodes leave the parent) and to leave the fragment empty. */
    method CommitNode(fragment: Node)
      requires Valid() && fragment != parent
      requires Distinct(fragment.children) && Disjoint(fragment.children, parent.children)
      modifies parent, fragment
      ensures parent.children == old(Fill(parent.children, start, end, fragment.children))
      ensures fragment.children == [] && Valid()
      ensures Region(parent.children, start, end) == old(fragment.children)
    {
      FillSpec(parent.children, start, end, fragment.children);
      parent.children := Fill(parent.children, start, end, fragment.children);
      fragment.children := [];
    }
  }

  /** A part over an attribute. `strings` are the literal pieces around its bindings,
      `None` when the attribute has a single binding and no literal text. */
  class AttributePart {
    const strings: Option<seq<string>>
    var value: Value
    var commits: seq<Commit>

    /** With several bindings the part's value is the array of their values. */
    predicate Valid()
      reads this
    {
      strings.Some? ==> value.Items?
    }

    constructor (strings: Option<seq<string>>, value: Value)
      ensures this.strings == strings && this.value == value && commits == []
    {
      this.strings := strings;
      this.value := value;
      commits := [];
    }
  }

  /** Either kind of part, as `setPartValue` accepts both. */
  datatype Part = NodeP(node: NodePart) | AttributeP(attribute: AttributePart)
  {
    function Object(): object {
      match this
      case NodeP(n) => n
      case AttributeP(a) => a
    }

    /** A node part has no `strings`. */
    function Strings(): Option<seq<string>> {
      match this
      case NodeP(_) => None
      case AttributeP(a) => a.strings
    }

    function CurrentValue(): Value
      reads Object()
    {
      match this
      case NodeP(n) => n.value
      case AttributeP(a) => a.value
    }

    function Commits(): seq<Commit>
      reads Object()
    {
      match this
      case NodeP(n) => n.commits
      case AttributeP(a) => a.commits
    }

    predicate Valid()
      reads Object()
    {
      AttributeP? ==> attribute.Valid()
    }
  }

  // ---------------------------------------------------------------------------
  // setPartValue and getPartValue
  // ---------------------------------------------------------------------------

  /** The array `items` after the JavaScript assignment `r[n] = v`: a position past the end
      grows the array (the gap reads as `undefined`), and a key that is not an array
      position (a negative one, or one past 2^32 - 2) leaves the elements as they were. */
  function ArraySet(items: seq<Value>, n: int, v: Value): (r: seq<Value>)
    ensures !(0 <= n <= MaxArrayIndex) ==> r == items
    ensures 0 <= n <= MaxArrayIndex ==>
      && |r| == (if n < |items| then |items| else n + 1)
      && r[n] == v
      && (forall m :: 0 <= m < |r| && m != n ==> r[m] == if m < |items| then items[m] else Undefined)
  {
    if !(0 <= n <= MaxArrayIndex) then items
    else if n < |items| then items[n := v]
    else items + seq(n - |items|, _ => Undefined) + [v]
  }

  /** The one `_setValue` call `setPartValue` makes, or the error it throws instead. */
  function SetValueCommit(strings: Option<seq<string>>, current: Value, v: Value, index: Option<int>)
    : (r: Result<Commit, string>)
    requires strings.Some? ==> current.Items?
    ensures r.Failure? <==> strings.Some? && index.None?
    ensures r.Failure? ==> r.error == IndexRequired
    ensures r.Success? && strings.None? ==> r.value == Commit(v, None)
    ensures r.Success? && strings.Some? ==>
      var n := index.value;
      && r.value.valueIndex == Some(0) && r.value.value.Items?
      && var items := r.value.value.items;
      && |items| == (if 0 <= n <= MaxArrayIndex && n >= |current.items| then n + 1 else |current.items|)
      && (0 <= n <= MaxArrayIndex ==> n < |items| && items[n] == v)
      && (forall m :: 0 <= m < |current.items| && m != n ==> m < |items| && items[m] == current.items[m])
      && (forall m :: |current.items| <= m < |items| && m != n ==> items[m] == Undefined)
  {
    if strings.Some? then
      if index.None? then Failure(IndexRequired)
      else Success(Commit(Items(ArraySet(current.items, index.value, v)), Some(0)))
    else Success(Commit(v, None))
  }

  /** lit's `setPartValue`: commits through `_setValue` and returns the same part. The
      commit goes to the renderer, whose effect on the part's value is not modelled. */
  method SetPartValue(part: Part, v: Value, index: Option<int>) returns (r: Result<Part, string>)
    requires part.Valid()
    modifies part.Object()
    ensures var c := SetValueCommit(part.Strings(), old(part.CurrentValue()), v, index);
      && (c.Success? ==> r == Success(part) && part.Commits() == old(part.Commits()) + [c.value])
      && (c.Failure? ==> r == Failure(IndexRequired) && part.Commits() == old(part.Commits()))
    ensures part.CurrentValue() == old(part.CurrentValue())
  {
    var c := SetValueCommit(part.Strings(), part.CurrentValue(), v, index);
    if c.Failure? {
      return Failure(c.error);
    }
    match part {
      case NodeP(n) => n.commits := n.commits + [c.value];
      case AttributeP(a) => a.commits := a.commits + [c.value];
    }
    r := Success(part);
  }

  /** lit's `getPartValue`. */
  function GetPartValue(part: NodePart): Value
    reads part
  {
    part.value
  }

  // ---------------------------------------------------------------------------
  // The two sibling loops
  // ---------------------------------------------------------------------------

  /** lit's `f`: removes `from` and each following sibling up to, not including, `stop`
      (`None` for `null`: to the last child). `parent` is `from.parentNode`. The ghost
      parameters name the child list and the positions of `from` and `stop` in it, `|s|`
      standing for `null`. */
  method RemoveNodes(parent: Node, from: Node, stop: Option<Node>, ghost s: seq<Node>, ghost i: nat, ghost j: nat)
    requires parent.children == s && Distinct(s) && i <= j <= |s|
    requires At(s, i) == Some(from) && At(s, j) == stop
    modifies parent
    ensures parent.children == s[..i] + s[j..]
  {
    var t := Some(from);
    ghost var m := i;
    while t != stop
      invariant i <= m <= j && t == At(s, m)
      invariant parent.children == s[..i] + s[m..]
      decreases j - m
    {
      CutTurn(s, i, m, j, t, stop);
      var node := t.value;
      var o := NextSibling(parent.children, node);
      parent.children := Remove(parent.children, node);
      t := o;
      m := m + 1;
    }
    AtInjective(s, m, j);
  }

  /** lit's `d`: moves `from` and each following sibling up to, not including, `stop`,
      one by one and in order, to just before `before`; the ghost parameters are as for
      `RemoveNodes`, with `b` the position of `before`, which must lie outside the run.
      With `before` inside the run the DOM loop either reorders the run (`before` its first
      or second node) or walks the same nodes forever (any later node). */
  method MoveNodes(parent: Node, from: Node, stop: Option<Node>, before: Node,
                   ghost s: seq<Node>, ghost i: nat, ghost j: nat, ghost b: nat)
    requires parent.children == s && Distinct(s) && i <= j <= |s|
    requires At(s, i) == Some(from) && At(s, j) == stop
    requires b < |s| && s[b] == before && (b < i || j < b)
    modifies parent
    ensures parent.children == MoveBlock(s, i, j, b)
  {
    MoveBlockEmpty(s, i, b);
    var o := Some(from);
    ghost var m := i;
    while o != stop
      invariant i <= m <= j && o == At(s, m)
      invariant parent.children == MoveBlock(s, i, m, b)
      decreases j - m
    {
      ghost var n := MoveTurn(s, i, m, j, b, o, stop);
      var node := o.value;
      var next := NextSibling(parent.children, node);
      parent.children := InsertBefore(parent.children, node, before);
      o := next;
      m := n;
    }
    AtInjective(s, m, j);
  }

  /** The loop of `detachNodePart`: appends `from` and each following sibling up to, not
      including, `end` to `fragment`, in order, which takes each out of `parent`. */
  method AppendNodes(parent: Node, from: Option<Node>, end: Node, fragment: Node,
                     ghost s: seq<Node>, ghost i: nat, ghost j: nat)
    requires parent.children == s && Distinct(s) && i <= j < |s| && fragment != parent
    requires At(s, i) == from && s[j] == end
    modifies parent, fragment
    ensures parent.children == s[..i] + s[j..]
    ensures fragment.children == old(fragment.children) + s[i..j]
  {
    ghost var f := fragment.children;
    var l := from;
    ghost var m := i;
    while l != Some(end)
      invariant i <= m <= j && l == At(s, m)
      invariant parent.children == s[..i] + s[m..]
      invariant fragment.children == f + s[i..m]
      decreases j - m
    {
      l := AppendOneNode(parent, l, end, fragment, s, f, i, m, j);
      m := m + 1;
    }
    AtInjective(s, m, j);
  }

  /** The body of `detachNodePart`'s loop: notes the next sibling of the current node `l`,
      then appends `l` to `fragment`. The nodes of `s[i..m]` have already been appended,
      after the fragment's first nodes `f`. */
  method AppendOneNode(parent: Node, l: Option<Node>, end: Node, fragment: Node,
                       ghost s: seq<Node>, ghost f: seq<Node>, ghost i: nat, ghost m: nat, ghost j: nat)
    returns (next: Option<Node>)
    requires Distinct(s) && i <= m <= j < |s| && s[j] == end && fragment != parent
    requires l == At(s, m) && l != Some(end)
    requires parent.children == s[..i] + s[m..] && fragment.children == f + s[i..m]
    modifies parent, fragment
    ensures m < j && next == At(s, m + 1)
    ensures parent.children == s[..i] + s[m + 1..] && fragment.children == f + s[i..m + 1]
  {
    CutTurn(s, i, m, j, l, Some(end));
    GatherStep(f, s, i, m);
    var node := l.value;
    next := NextSibling(parent.children, node);
    parent.children := Remove(parent.children, node);
    fragment.children := fragment.children + [node];
  }

  // ---------------------------------------------------------------------------
  // The exported primitives
  // ---------------------------------------------------------------------------

  /** lit's `detachNodePart`: moves the region's nodes, in order, into a fresh fragment,
      and returns them with the part's value, which becomes `nothing`. */
  method DetachNodePart(part: NodePart) returns (state: NodePartState)
    requires part.Valid()
    modifies part, part.parent
    ensures fresh(state.fragment) && state.value == old(part.value)
    ensures state.fragment.children == old(Region(part.parent.children, part.start, part.end))
    ensures part.parent.children == old(Fill(part.parent.children, part.start, part.end, []))
    ensures part.Valid() && Region(part.parent.children, part.start, part.end) == []
    ensures GetPartValue(part) == Nothing && part.commits == old(part.commits)
  {
    var fragment := new Node();
    state := NodePartState(part.value, fragment);
    ghost var s := part.parent.children;
    ghost var i, j := RegionBounds(s, part.start, part.end);
    var l := NextSibling(part.parent.children, part.start);
    AppendNodes(part.parent, l, part.end, fragment, s, i, j);
    RegionCut(s, part.start, part.end);
    part.value := Nothing;
  }

  /** lit's `restoreNodePart`: commits the fragment's nodes into the part's region and
      reinstates the saved value. */
  method RestoreNodePart(part: NodePart, state: NodePartState)
    requires part.Valid() && state.fragment != part.parent
    requires Distinct(state.fragment.children)
    requires Disjoint(state.fragment.children, part.parent.children)
    modifies part, part.parent, state.fragment
    ensures part.parent.children ==
      old(Fill(part.parent.children, part.start, part.end, state.fragment.children))
    ensures part.Valid() && Region(part.parent.children, part.start, part.end) == old(state.fragment.children)
    ensures state.fragment.children == []
    ensures GetPartValue(part) == state.value && part.commits == old(part.commits)
  {
    part.CommitNode(state.fragment);
    part.value := state.value;
  }

  /** Detaching a part and restoring it from its own snapshot gives back the child list
      and the value the part had. */
  method DetachThenRestore(part: NodePart)
    requires part.Valid()
    modifies part, part.parent
    ensures part.parent.children == old(part.parent.children)
    ensures part.Valid() && GetPartValue(part) == old(part.value)
  {
    ghost var s := part.parent.children;
    RegionApart(s, part.start, part.end);
    FillRoundTrip(s, part.start, part.end);
    var state := DetachNodePart(part);
    RestoreNodePart(part, state);
  }

  /** lit's `createAndInsertPart`: two fresh comment markers, inserted before the
      reference part's start marker (before the container's end marker without one),
      bound a new part that shares the container's options. */
  method CreateAndInsertPart(container: NodePart, refPart: Option<NodePart>) returns (part: NodePart)
    requires container.Valid()
    requires refPart.Some? ==>
      refPart.value.parent == container.parent && refPart.value.start in container.parent.children
    modifies container.parent
    ensures fresh(part) && fresh(part.start) && fresh(part.end) && part.start != part.end
    ensures part.parent == container.parent && part.options == container.options
    ensures var s := old(container.parent.children);
      var l := if refPart.None? then container.end else refPart.value.start;
      var q := IndexOf(s, l);
      && part.parent.children == s[..q] + [part.start, part.end] + s[q..]
      && NextSibling(part.parent.children, part.end) == Some(l)
    ensures part.Valid() && Region(part.parent.children, part.start, part.end) == []
    ensures Without(part.parent.children, {part.start, part.end}) == old(container.parent.children)
    ensures container.Valid() && part.value == Undefined && part.commits == []
  {
    var r := container.parent;
    var l := if refPart.None? then container.end else refPart.value.start;
    ghost var s := r.children;
    ghost var q := IndexOf(s, l);
    var m1 := new Node();
    var m2 := new Node();
    InsertPairBefore(s, q, m1, m2);
    r.children := InsertBefore<Node>(r.children, m1, l);
    r.children := InsertBefore<Node>(r.children, m2, l);
    InsertPairSpec(s, q, m1, m2);
    InsertPairKeeps(s, q, m1, m2, container.start, container.end);
    part := new NodePart(r, m1, m2, container.options);
  }

  /** The node before which `insertPartBefore` puts the moved block: the reference part's
      start marker, or the container's end marker without one (`n ? n.D : t.E`). */
  function TargetNode(container: NodePart, refPart: Option<NodePart>): (n: Node)
    ensures refPart.Some? ==> n == refPart.value.start
    ensures refPart.None? ==> n == container.end
  {
    if refPart.Some? then refPart.value.start else container.end
  }

  /** lit's `insertPartBefore`: moves `part`'s block, from its start marker through its end
      marker, in order to just before the reference part's start marker (before the
      container's end marker without one); nothing moves when it already sits there.
      `MoveBlockKeepsBracket` shows that the part keeps its markers and its region. */
  method InsertPartBefore(container: NodePart, part: NodePart, refPart: Option<NodePart>)
    requires container.Valid() && part.Valid() && part.parent == container.parent
    requires refPart.Some? ==>
      refPart.value.parent == container.parent && refPart.value.start in container.parent.children
    requires var s, e := part.parent.children, TargetNode(container, refPart);
      IndexOf(s, e) < IndexOf(s, part.start) || IndexOf(s, part.end) < IndexOf(s, e)
    modifies container.parent
    ensures var s := old(part.parent.children);
      part.parent.children ==
        MoveBlock(s, IndexOf(s, part.start), IndexOf(s, part.end) + 1, IndexOf(s, TargetNode(container, refPart)))
  {
    var r := part.parent;
    var e := TargetNode(container, refPart);
    ghost var s := r.children;
    ghost var i, j, b := IndexOf(s, part.start), IndexOf(s, part.end) + 1, IndexOf(s, e);
    MoveRunStop(s, i, j, b);
    var l := NextSibling(r.children, part.end);
    if l != Some(e) {
      MoveNodes(r, part.start, l, e, s, i, j, b);
    }
  }

  /** lit's `removePart`: removes the part's nodes from its start marker through its end
      marker. */
  method RemovePart(part: NodePart)
    requires part.Valid()
    modifies part.parent
    ensures var s := old(part.parent.children);
      part.parent.children == s[..IndexOf(s, part.start)] + s[IndexOf(s, part.end) + 1..]
  {
    ghost var s := part.parent.children;
    RemoveNodes(part.parent, part.start, NextSibling(part.parent.children, part.end),
      s, IndexOf(s, part.start), IndexOf(s, part.end) + 1);
  }
}
