/**
 * The TypeScript syntax tree the generator searches, and the traversal helpers
 * of `src/core/typescript-util.ts` over it. A node is its kind, its text and
 * its children in `ts.forEachChild` order; the compiler's own node classes are
 * not modelled. The helpers of `src/typescript-util.ts` are the same code and
 * are modelled by the same members.
 */
module TSTree {
  import opened Wrappers

  /** The node kinds the generator inspects; every other kind is `OtherKind`. */
  datatype SyntaxKind =
    | Identifier
    | StringLiteral
    | NoSubstitutionTemplateLiteral
    | TemplateExpression
    | TaggedTemplateExpression
    | VariableDeclaration
    | ImportDeclaration
    | ImportClause
    | NamedImports
    | ImportSpecifier
    | OtherKind(code: nat)

  /**
   * A node: its kind, its text (an identifier's `escapedText`, a literal's
   * `text` or `rawText`, empty otherwise) and its children.
   */
  datatype TSNode = TSNode(kind: SyntaxKind, text: string, children: seq<TSNode>)

  /** A `traverseTSNodes` filter, given the node and its depth below the start. */
  type NodeFilter = (TSNode, nat) -> bool

  /** `FilterType`: a node predicate, or a kind to match. */
  datatype FilterType = NodePredicate(p: TSNode -> bool) | Kind(kind: SyntaxKind)

  function AsNodeFilter(filter: FilterType): NodeFilter
  {
    match filter
    case NodePredicate(p) => (node: TSNode, depth: nat) => p(node)
    case Kind(kind) => (node: TSNode, depth: nat) => node.kind == kind
  }

  /** `d` lies strictly below `n`. */
  predicate Below(d: TSNode, n: TSNode)
    decreases n
  {
    exists i :: 0 <= i < |n.children| && (d == n.children[i] || Below(d, n.children[i]))
  }

  lemma {:induction false} BelowTransitive(a: TSNode, b: TSNode, c: TSNode)
    requires Below(a, b) && Below(b, c)
    ensures Below(a, c)
    decreases c
  {
    var i :| 0 <= i < |c.children| && (b == c.children[i] || Below(b, c.children[i]));
    if b != c.children[i] {
      BelowTransitive(a, b, c.children[i]);
    }
  }

  /**
   * Every node below `node` with its depth, in the order `traverseTSNodes`
   * visits them: each child, then everything below that child, child by child.
   * The start node itself is not visited.
   */
  function Visits(node: TSNode, depth: nat): seq<(TSNode, nat)>
    decreases node, 1
  {
    VisitsAll(node.children, depth)
  }

  function VisitsAll(nodes: seq<TSNode>, depth: nat): seq<(TSNode, nat)>
    decreases nodes, 0
  {
    if nodes == [] then []
    else [(nodes[0], depth)] + Visits(nodes[0], depth + 1) + VisitsAll(nodes[1..], depth)
  }

  /** Only nodes below the start node are visited. */
  lemma {:induction false} VisitedAreBelow(node: TSNode, depth: nat)
    ensures forall v :: v in Visits(node, depth) ==> Below(v.0, node)
    decreases node, 1
  {
    VisitedAllAreBelow(node, node.children, depth);
  }

  lemma {:induction false} VisitedAllAreBelow(node: TSNode, nodes: seq<TSNode>, depth: nat)
    requires forall i :: 0 <= i < |nodes| ==> nodes[i] in node.children
    ensures forall v :: v in VisitsAll(nodes, depth) ==> Below(v.0, node)
    decreases nodes, 0
  {
    if nodes != [] {
      var c := nodes[0];
      var k :| 0 <= k < |node.children| && node.children[k] == c;
      assert Below(c, node);
      VisitedAreBelow(c, depth + 1);
      forall v | v in Visits(c, depth + 1) ensures Below(v.0, node) {
        BelowTransitive(v.0, c, node);
      }
      VisitedAllAreBelow(node, nodes[1..], depth);
    }
  }

  /** The node of the first visit the filter accepts. */
  function FirstOf(visits: seq<(TSNode, nat)>, filter: NodeFilter): (r: Option<TSNode>)
    ensures r.None? <==> forall i :: 0 <= i < |visits| ==> !filter(visits[i].0, visits[i].1)
    ensures r.Some? ==> exists v :: v in visits && v.0 == r.value && filter(v.0, v.1)
  {
    if visits == [] then None
    else if filter(visits[0].0, visits[0].1) then Some(visits[0].0)
    else
      var r := FirstOf(visits[1..], filter);
      assert forall v :: v in visits[1..] ==> v in visits;
      r
  }

  /** A match in the first part wins; the second part is searched only when there is none. */
  lemma {:induction false} FirstOfAppend(a: seq<(TSNode, nat)>, b: seq<(TSNode, nat)>, filter: NodeFilter)
    ensures FirstOf(a + b, filter) == if FirstOf(a, filter).Some? then FirstOf(a, filter) else FirstOf(b, filter)
  {
    if a != [] {
      assert (a + b)[0] == a[0];
      assert (a + b)[1..] == a[1..] + b;
      FirstOfAppend(a[1..], b, filter);
    } else {
      assert a + b == b;
    }
  }

  /** The nodes of every visit the filter accepts, in visit order. */
  function Matching(visits: seq<(TSNode, nat)>, filter: NodeFilter): seq<TSNode>
  {
    if visits == [] then []
    else (if filter(visits[0].0, visits[0].1) then [visits[0].0] else []) + Matching(visits[1..], filter)
  }

  /** Exactly the accepted visits contribute, each once, and nothing else. */
  lemma {:induction false} MatchingSpec(visits: seq<(TSNode, nat)>, filter: NodeFilter)
    ensures |Matching(visits, filter)| <= |visits|
    ensures forall x :: x in Matching(visits, filter) ==> exists v :: v in visits && v.0 == x && filter(v.0, v.1)
    ensures forall i :: 0 <= i < |visits| && filter(visits[i].0, visits[i].1) ==> visits[i].0 in Matching(visits, filter)
  {
    if visits != [] {
      MatchingSpec(visits[1..], filter);
      assert forall v :: v in visits[1..] ==> v in visits;
      assert forall i :: 1 <= i < |visits| ==> visits[i] == visits[1..][i - 1];
    }
  }

  lemma {:induction false} MatchingAppend(a: seq<(TSNode, nat)>, b: seq<(TSNode, nat)>, filter: NodeFilter)
    ensures Matching(a + b, filter) == Matching(a, filter) + Matching(b, filter)
  {
    if a != [] {
      assert (a + b)[0] == a[0];
      assert (a + b)[1..] == a[1..] + b;
      MatchingAppend(a[1..], b, filter);
    } else {
      assert a + b == b;
    }
  }

  /** `getTSChildNodes`: the direct children, in visit order. */
  method GetTSChildNodes(node: TSNode) returns (children: seq<TSNode>)
    ensures children == node.children
    ensures forall i :: 0 <= i < |children| ==> Below(children[i], node)
  {
    children := [];
    var i := 0;
    while i < |node.children|
      invariant 0 <= i <= |node.children| && children == node.children[..i]
    {
      children := children + [node.children[i]];
      i := i + 1;
    }
    assert node.children[..i] == node.children;
  }

  /** `filterTSNodesByKind`: the direct children of the given kind, in order; none without a source. */
  function FilterTSNodesByKind(source: Option<TSNode>, kind: SyntaxKind): (r: seq<TSNode>)
    ensures source.None? ==> r == []
    ensures forall i :: 0 <= i < |r| ==> r[i].kind == kind && source.Some? && r[i] in source.value.children
    ensures source.Some? ==>
              forall c :: c in source.value.children && c.kind == kind ==> c in r
  {
    if source.None? then [] else OfKind(source.value.children, kind)
  }

  function OfKind(nodes: seq<TSNode>, kind: SyntaxKind): (r: seq<TSNode>)
    ensures |r| <= |nodes|
    ensures forall i :: 0 <= i < |r| ==> r[i].kind == kind && r[i] in nodes
    ensures forall c :: c in nodes && c.kind == kind ==> c in r
  {
    if nodes == [] then []
    else
      var rest := OfKind(nodes[1..], kind);
      assert forall c :: c in nodes[1..] ==> c in nodes;
      assert forall c :: c in nodes ==> c == nodes[0] || c in nodes[1..];
      (if nodes[0].kind == kind then [nodes[0]] else []) + rest
  }

  /**
   * `traverseTSNodes`: depth first over the children, testing each child
   * before searching below it; the first node the filter accepts, never the
   * start node itself.
   */
  method TraverseTSNodes(node: TSNode, filter: NodeFilter, depth: nat) returns (r: Option<TSNode>)
    ensures r == FirstOf(Visits(node, depth), filter)
    ensures r.Some? ==> Below(r.value, node)
    decreases node
  {
    var children := GetTSChildNodes(node);
    var i := 0;
    while i < |children|
      invariant 0 <= i <= |children|
      invariant FirstOf(Visits(node, depth), filter) == FirstOf(VisitsAll(children[i..], depth), filter)
    {
      var child := children[i];
      assert children[i..][0] == child && children[i..][1..] == children[i + 1..];
      var rest := VisitsAll(children[i + 1..], depth);
      FirstOfAppend([(child, depth)] + Visits(child, depth + 1), rest, filter);
      FirstOfAppend([(child, depth)], Visits(child, depth + 1), filter);
      if filter(child, depth) {
        r := Some(child);
        VisitedAreBelow(node, depth);
        return;
      }
      var value := TraverseTSNodes(child, filter, depth + 1);
      if value.Some? {
        r := value;
        VisitedAreBelow(node, depth);
        return;
      }
      i := i + 1;
    }
    r := None;
  }

  /**
   * `selectTSNode`: each filter searches below the previous step's result;
   * once a step finds nothing the answer is undefined.
   */
  function Selected(node: Option<TSNode>, filters: seq<FilterType>): (r: Option<TSNode>)
    ensures node.None? ==> r.None?
    ensures filters != [] && r.Some? ==> Below(r.value, node.value)
    decreases |filters|
  {
    if filters == [] || node.None? then node
    else
      var next := FirstOf(Visits(node.value, 0), AsNodeFilter(filters[0]));
      VisitedAreBelow(node.value, 0);
      var r := Selected(next, filters[1..]);
      assert r.Some? && filters[1..] != [] ==> Below(r.value, next.value);
      if r.Some? && filters[1..] != [] then
        BelowTransitive(r.value, next.value, node.value);
        r
      else r
  }

  method SelectTSNode(node: Option<TSNode>, filters: seq<FilterType>) returns (r: Option<TSNode>)
    ensures r == Selected(node, filters)
  {
    var nextNode := node;
    var i := 0;
    while i < |filters|
      invariant 0 <= i <= |filters|
      invariant Selected(nextNode, filters[i..]) == Selected(node, filters)
    {
      if nextNode.None? {
        return None;
      }
      assert filters[i..][0] == filters[i] && filters[i..][1..] == filters[i + 1..];
      nextNode := TraverseTSNodes(nextNode.value, AsNodeFilter(filters[i]), 0);
      i := i + 1;
    }
    r := nextNode;
  }

  /**
   * `selectTSNodes`: with no filter, no nodes; with one, every node below the
   * start that it accepts, in visit order; with more, undefined, because the
   * collecting traversal never reports a match to continue from.
   */
  function SelectedAll(node: Option<TSNode>, filters: seq<FilterType>): (r: Option<seq<TSNode>>)
    ensures filters == [] ==> r == Some([])
    ensures |filters| >= 2 ==> r.None?
    ensures r.Some? ==> forall x :: x in r.value ==> node.Some? && Below(x, node.value)
  {
    if filters == [] then Some([])
    else if node.None? || |filters| >= 2 then None
    else
      VisitedAreBelow(node.value, 0);
      MatchingSpec(Visits(node.value, 0), AsNodeFilter(filters[0]));
      Some(Matching(Visits(node.value, 0), AsNodeFilter(filters[0])))
  }

  /** With one filter, every accepted node below the start is selected. */
  lemma SelectedAllFindsEvery(node: TSNode, filter: FilterType, d: TSNode, depth: nat)
    requires (d, depth) in Visits(node, 0) && AsNodeFilter(filter)(d, depth)
    ensures SelectedAll(Some(node), [filter]).Some? && d in SelectedAll(Some(node), [filter]).value
  {
    var visits := Visits(node, 0);
    var i :| 0 <= i < |visits| && visits[i] == (d, depth);
    MatchingSpec(visits, AsNodeFilter(filter));
  }

  method SelectTSNodes(node: Option<TSNode>, filters: seq<FilterType>) returns (r: Option<seq<TSNode>>)
    ensures r == SelectedAll(node, filters)
  {
    var matchingNodes: seq<TSNode> := [];
    var nextNode := node;
    var i := 0;
    while i < |filters|
      invariant 0 <= i <= |filters| && i <= 1
      invariant i == 0 ==> nextNode == node && matchingNodes == []
      invariant i >= 1 ==>
                  nextNode.None? && node.Some? &&
                  matchingNodes == Matching(Visits(node.value, 0), AsNodeFilter(filters[0]))
    {
      if nextNode.None? {
        return None;
      }
      var found := CollectTSNodes(nextNode.value, AsNodeFilter(filters[i]), 0);
      matchingNodes := matchingNodes + found;
      // The collecting filter answers false to every node, so the traversal returns undefined.
      nextNode := None;
      i := i + 1;
    }
    r := Some(matchingNodes);
  }

  /**
   * `traverseTSNodes` run with the recording filter of `selectTSNodes`: every
   * accepted node is pushed in visit order and the search never stops early.
   */
  method CollectTSNodes(node: TSNode, filter: NodeFilter, depth: nat) returns (found: seq<TSNode>)
    ensures found == Matching(Visits(node, depth), filter)
    decreases node
  {
    var children := GetTSChildNodes(node);
    found := [];
    assert children[0..] == children;
    var i := 0;
    while i < |children|
      invariant 0 <= i <= |children|
      invariant found + Matching(VisitsAll(children[i..], depth), filter) == Matching(Visits(node, depth), filter)
    {
      var child := children[i];
      var here := if filter(child, depth) then [child] else [];
      var below := CollectTSNodes(child, filter, depth + 1);
      MatchingAdvance(children, i, depth, filter, found, below);
      found := found + here + below;
      i := i + 1;
    }
    assert children[i..] == [];
  }

  /** One child's own match and its subtree's matches move from what is left to what was found. */
  lemma MatchingAdvance(children: seq<TSNode>, i: nat, depth: nat, filter: NodeFilter,
                        found: seq<TSNode>, below: seq<TSNode>)
    requires i < |children| && below == Matching(Visits(children[i], depth + 1), filter)
    ensures found + Matching(VisitsAll(children[i..], depth), filter)
         == found + (if filter(children[i], depth) then [children[i]] else []) + below
            + Matching(VisitsAll(children[i + 1..], depth), filter)
  {
    MatchingStep(children, i, depth, filter);
  }

  lemma MatchingStep(children: seq<TSNode>, i: nat, depth: nat, filter: NodeFilter)
    requires i < |children|
    ensures Matching(VisitsAll(children[i..], depth), filter)
         == (if filter(children[i], depth) then [children[i]] else [])
            + Matching(Visits(children[i], depth + 1), filter)
            + Matching(VisitsAll(children[i + 1..], depth), filter)
  {
    var child := children[i];
    assert children[i..][0] == child && children[i..][1..] == children[i + 1..];
    MatchingAppend([(child, depth)] + Visits(child, depth + 1), VisitsAll(children[i + 1..], depth), filter);
    MatchingAppend([(child, depth)], Visits(child, depth + 1), filter);
    assert [(child, depth)][1..] == [];
  }

  /** `getTSNodeName`: undefined for no node, else the node's escaped text. */
  function GetTSNodeName(name: Option<TSNode>): (r: Option<string>)
    ensures r.Some? <==> name.Some?
    ensures r.Some? ==> r.value == name.value.text
  {
    match name
    case None => None
    case Some(n) => Some(n.text)
  }
}
