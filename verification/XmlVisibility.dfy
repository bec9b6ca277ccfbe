/** Which nodes of a document are canonicalized: node sets combined in a circular list, each
    decided along the ancestors of the node. */
module XmlVisibility {
  import opened Text

  datatype NodeKind = Document | Element | Attribute | CharacterData | Comment | Other

  /** A document: the kind of each node and its parent, which has a smaller number. */
  datatype Doc = Doc(kinds: seq<NodeKind>, parents: seq<Option<nat>>)

  /** Nodes hang below elements or below the document node, which is the only root. */
  predicate WellFormed(doc: Doc) {
    && |doc.kinds| == |doc.parents|
    && forall i :: 0 <= i < |doc.parents| ==>
         match doc.parents[i]
         case None => true
         case Some(p) => p < i && (doc.kinds[p] == Element || doc.kinds[p] == Document)
  }

  datatype SetKind = Tree | TreeNoComments | TreeInvert

  datatype NodeSet = NodeSet(kind: SetKind, nodes: set<nat>)

  /** The recursive test of one set: it climbs while the parent is an element. */
  predicate OneContains(doc: Doc, s: NodeSet, node: nat)
    requires WellFormed(doc) && node < |doc.kinds|
    decreases node
  {
    if s.kind == TreeNoComments && doc.kinds[node] == Comment then false
    else if node in s.nodes then s.kind != TreeInvert
    else
      match doc.parents[node]
      case None => s.kind == TreeInvert
      case Some(p) =>
        if doc.kinds[p] == Element then OneContains(doc, s, p) else s.kind == TreeInvert
  }

  // Reference: ancestors

  predicate AncestorOrSelf(doc: Doc, a: nat, node: nat)
    requires WellFormed(doc) && node < |doc.kinds|
    decreases node
  {
    a == node || match doc.parents[node] case None => false case Some(p) => AncestorOrSelf(doc, a, p)
  }

  /** The document node has no parent. */
  predicate RootsAreDocuments(doc: Doc)
    requires WellFormed(doc)
  {
    forall i :: 0 <= i < |doc.kinds| && doc.kinds[i] == Document ==> doc.parents[i] == None
  }

  /** A set made from one node that is not the document node itself holds exactly that node's
      subtree, or everything else when it is inverted. */
  lemma {:induction false} OneContainsIsSubtree(doc: Doc, s: NodeSet, root: nat, node: nat)
    requires WellFormed(doc) && RootsAreDocuments(doc)
    requires root < |doc.kinds| && doc.kinds[root] != Document && node < |doc.kinds|
    requires s.nodes == {root}
    ensures OneContains(doc, s, node) <==>
              match s.kind
              case Tree => AncestorOrSelf(doc, root, node)
              case TreeNoComments => AncestorOrSelf(doc, root, node) && doc.kinds[node] != Comment
              case TreeInvert => !AncestorOrSelf(doc, root, node)
    decreases node
  {
    match doc.parents[node]
    case None =>
    case Some(p) =>
      if doc.kinds[p] == Element {
        OneContainsIsSubtree(doc, s, root, p);
      }
  }

  // The circular list

  class Nset {
    var next: Nset
    var prev: Nset
    const contents: NodeSet

    constructor (contents: NodeSet)
      ensures next == this && prev == this && this.contents == contents
    {
      this.contents := contents;
      next, prev := this, this;
    }
  }

  /** `ring` is a well-formed circular list, in order. */
  ghost predicate IsRing(ring: seq<Nset>)
    reads ring
  {
    && |ring| > 0
    && (forall i, j :: 0 <= i < j < |ring| ==> ring[i] != ring[j])
    && (forall i :: 0 <= i < |ring| - 1 ==> ring[i].next == ring[i + 1] && ring[i + 1].prev == ring[i])
    && ring[|ring| - 1].next == ring[0]
    && ring[0].prev == ring[|ring| - 1]
  }

  /** Puts `add` before `nset`, that is at the end of the list `nset` starts. */
  method Add(nset: Nset?, add: Nset, ghost ring: seq<Nset>) returns (r: Nset)
    requires nset != null ==> IsRing(ring) && ring[0] == nset && add !in ring
    requires nset == null ==> ring == []
    requires add.next == add && add.prev == add
    modifies ring, add
    ensures IsRing(ring + [add]) && r == (ring + [add])[0]
  {
    if nset == null {
      assert ring + [add] == [add];
      return add;
    }
    add.next := nset;
    add.prev := nset.prev;
    nset.prev.next := add;
    nset.prev := add;
    return nset;
  }

  /** The visibility callback: one round of the list, every set asked at most once and none
      left out. */
  method Visible(doc: Doc, nset: Nset?, node: nat, ghost ring: seq<Nset>) returns (status: bool)
    requires WellFormed(doc) && node < |doc.kinds|
    requires if nset == null then ring == [] else IsRing(ring) && ring[0] == nset
    ensures status <==> forall i :: 0 <= i < |ring| ==> OneContains(doc, ring[i].contents, node)
  {
    if nset == null {
      return true;
    }
    status := OneContains(doc, nset.contents, node);
    var n := nset.next;
    ghost var k := 1;
    while n != nset
      invariant 1 <= k <= |ring|
      invariant n == if k < |ring| then ring[k] else ring[0]
      invariant status <==> forall i :: 0 <= i < k ==> OneContains(doc, ring[i].contents, node)
      decreases |ring| - k
    {
      if status && !OneContains(doc, n.contents, node) {
        status := false;
      }
      n := n.next;
      k := k + 1;
    }
  }

  /** Canonicalization of the subtree of `root`, without the subtree of `excluded` if there is
      one: the sets it builds make a node visible exactly when it lies in the first subtree,
      not in the second, and is not an unwanted comment. Excluding something hides comments
      whatever was asked. */
  method CanonicalizedNode(doc: Doc, root: nat, excluded: Option<nat>, comments: bool, node: nat)
    returns (status: bool)
    requires WellFormed(doc) && RootsAreDocuments(doc) && node < |doc.kinds|
    requires root < |doc.kinds| && doc.kinds[root] != Document
    requires excluded.Some? ==> excluded.value < |doc.kinds| && doc.kinds[excluded.value] != Document
    ensures status <==>
              && AncestorOrSelf(doc, root, node)
              && (excluded.Some? ==> !AncestorOrSelf(doc, excluded.value, node))
              && (doc.kinds[node] == Comment ==> comments && excluded.None?)
  {
    hide OneContains, AncestorOrSelf;
    if excluded.Some? {
      var first := new Nset(NodeSet(TreeNoComments, {root}));
      var second := new Nset(NodeSet(TreeInvert, {excluded.value}));
      var nset := Add(first, second, [first]);
      OneContainsIsSubtree(doc, first.contents, root, node);
      OneContainsIsSubtree(doc, second.contents, excluded.value, node);
      ghost var ring := [first] + [second];
      status := Visible(doc, nset, node, ring);
      assert ring[0] == first && ring[1] == second;
    } else {
      var only := new Nset(NodeSet(if comments then Tree else TreeNoComments, {root}));
      OneContainsIsSubtree(doc, only.contents, root, node);
      ghost var ring := [only];
      status := Visible(doc, only, node, ring);
      assert ring[0] == only;
    }
  }
}
