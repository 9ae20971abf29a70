/** The parser at work on the document tree: every node it reads is created unlinked, filled, and then inserted at the
    end of its parent's children, or deleted again. */
module DomBuild {
  import opened XmlText
  import opened XmlTree
  import opened XmlParser
  import D = Dom

  // ----- the tree that stands for what was parsed -----

  /** Below x the tree has the shape of n. */
  ghost predicate Mirrors(t: D.Tree, x: D.XMLNode, n: Node<Segment>)
    decreases n, 1
  {
    x in t && if n.Element? then MirrorsAll(t, t[x], n.children) else t[x] == []
  }

  /** The nodes xs stand for ns, one for one and in this order. */
  ghost predicate MirrorsAll(t: D.Tree, xs: seq<D.XMLNode>, ns: seq<Node<Segment>>)
    decreases ns, 0
  {
    if ns == [] then xs == [] else xs != [] && Mirrors(t, xs[0], ns[0]) && MirrorsAll(t, xs[1..], ns[1..])
  }

  /** No edge leads out of the set, and t' has all of them. */
  ghost predicate Keeps(t: D.Tree, t': D.Tree, nodes: set<D.XMLNode>) {
    forall n :: n in nodes && n in t ==> n in t' && t'[n] == t[n] && forall c :: c in t[n] ==> c in nodes
  }

  lemma {:induction false} MirrorsFrame(t: D.Tree, t': D.Tree, nodes: set<D.XMLNode>, x: D.XMLNode, n: Node<Segment>)
    requires Keeps(t, t', nodes) && x in nodes && Mirrors(t, x, n)
    ensures Mirrors(t', x, n)
    decreases n, 1
  {
    if n.Element? { MirrorsAllFrame(t, t', nodes, t[x], n.children); }
  }

  lemma {:induction false} MirrorsAllFrame(t: D.Tree, t': D.Tree, nodes: set<D.XMLNode>, xs: seq<D.XMLNode>,
                                           ns: seq<Node<Segment>>)
    requires Keeps(t, t', nodes) && (forall x :: x in xs ==> x in nodes) && MirrorsAll(t, xs, ns)
    ensures MirrorsAll(t', xs, ns)
    decreases ns, 0
  {
    hide Keeps;
    if ns != [] {
      MirrorsFrame(t, t', nodes, xs[0], ns[0]);
      MirrorsAllFrame(t, t', nodes, xs[1..], ns[1..]);
    }
  }

  lemma {:induction false} MirrorsAppend(t: D.Tree, xs: seq<D.XMLNode>, ns: seq<Node<Segment>>, x: D.XMLNode,
                                         n: Node<Segment>)
    requires MirrorsAll(t, xs, ns) && Mirrors(t, x, n)
    ensures MirrorsAll(t, xs + [x], ns + [n])
  {
    hide Mirrors;
    if ns == [] {
      assert xs + [x] == [x] && ns + [n] == [n] && [x][1..] == [] && [n][1..] == [];
    } else {
      assert (xs + [x])[1..] == xs[1..] + [x] && (ns + [n])[1..] == ns[1..] + [n];
      MirrorsAppend(t, xs[1..], ns[1..], x, n);
    }
  }

  // ----- how the tree grows -----

  ghost predicate Listed(t: D.Tree, n: D.XMLNode) { exists m :: m in t && n in t[m] }

  ghost predicate Contained(t: D.Tree) { forall n, c :: n in t && c in t[n] ==> c in t }

  /** From t to t' only self has got children, all of them new; and every new node is some node's child. */
  ghost predicate Grown(t: D.Tree, t': D.Tree, self: D.XMLNode) {
    && self in t
    && (forall n :: n in t ==> n in t' && (n != self ==> t'[n] == t[n]))
    && (forall n, c :: n in t' && (n !in t || n == self) && c in t'[n] ==> c in t' && c !in t)
    && (forall n :: n in t' && n !in t ==> Listed(t', n))
  }

  /** The new nodes. */
  ghost function New(t: D.Tree, t': D.Tree): set<D.XMLNode> { t'.Keys - t.Keys }

  lemma GrownUnlisted(t: D.Tree, t': D.Tree, self: D.XMLNode, x: D.XMLNode)
    requires Grown(t, t', self) && x in t && !Listed(t, x)
    ensures !Listed(t', x)
  {
  }

  /** The tree when a node was created, and then filled, and then put at the end of self's children. */
  ghost predicate Filled(t: D.Tree, t': D.Tree, self: D.XMLNode, node: D.XMLNode) {
    self in t && node !in t && Grown(t[node := []], t', node)
  }

  ghost function Inserted(t: D.Tree, self: D.XMLNode, node: D.XMLNode): D.Tree
    requires self in t
  {
    t[self := t[self] + [node]]
  }

  lemma FilledSame(t: D.Tree, t': D.Tree, self: D.XMLNode, node: D.XMLNode)
    requires Filled(t, t', self, node)
    ensures node in t' && forall n :: n in t ==> n in t' && n != node && t'[n] == t[n]
    ensures forall n, c :: n in New(t, t') && c in t'[n] ==> c in New(t, t')
  {
    var t1 := t[node := []];
    assert forall n :: n in t ==> n in t1 && t1[n] == t[n];
  }

  lemma FilledListed(t: D.Tree, t': D.Tree, self: D.XMLNode, node: D.XMLNode, n: D.XMLNode)
    requires Filled(t, t', self, node) && n in New(t, t') && n != node
    ensures Listed(t', n)
  {
  }

  lemma InsertGrows(t0: D.Tree, t: D.Tree, t': D.Tree, self: D.XMLNode, node: D.XMLNode)
    requires Grown(t0, t, self) && Filled(t, t', self, node)
    ensures Grown(t0, Inserted(t', self, node), self)
  {
    var r := Inserted(t', self, node);
    FilledSame(t, t', self, node);
    forall n | n in r && n !in t0 ensures Listed(r, n) {
      if n == node {
        assert node in r[self];
      } else if n in t {
        var m: D.XMLNode :| m in t && n in t[m];
        assert n in r[m];
      } else {
        FilledListed(t, t', self, node, n);
        var m: D.XMLNode :| m in t' && n in t'[m];
        assert n in r[m];
      }
    }
    hide Filled;
  }

  lemma InsertMirrors(t0: D.Tree, t: D.Tree, t': D.Tree, self: D.XMLNode, node: D.XMLNode, done: seq<Node<Segment>>,
                      n: Node<Segment>)
    requires Grown(t0, t, self) && Filled(t, t', self, node)
    requires MirrorsAll(t, t[self], done) && Mirrors(t', node, n)
    ensures var r := Inserted(t', self, node); MirrorsAll(r, r[self], done + [n])
  {
    var r := Inserted(t', self, node);
    FilledSame(t, t', self, node);
    hide Filled, Mirrors, MirrorsAll;
    assert Keeps(t, r, New(t0, t));
    assert Keeps(t', r, New(t, t'));
    assert r[self] == t[self] + [node];
    hide Grown, Keeps;
    assert forall x :: x in t[self] ==> x in New(t0, t) by { ChildrenAreNew(t0, t, self); }
    MirrorsAllFrame(t, r, New(t0, t), t[self], done);
    MirrorsFrame(t', r, New(t, t'), node, n);
    MirrorsAppend(r, t[self], done, node, n);
  }

  lemma ChildrenAreNew(t: D.Tree, t': D.Tree, self: D.XMLNode)
    requires Grown(t, t', self)
    ensures forall x :: x in t'[self] ==> x in New(t, t')
  {
  }

  /** What is below a new node is new. */
  lemma {:induction false} ReachesNew(t: D.Tree, h: map<D.XMLNode, nat>, nodes: set<D.XMLNode>, n: D.XMLNode,
                                      x: D.XMLNode)
    requires D.Ranked(t, h) && n in t && n in nodes && D.Reaches(t, h, n, x)
    requires forall m, c :: m in nodes && m in t && c in t[m] ==> c in nodes
    ensures x in nodes
    decreases h[n]
  {
    if n != x {
      var c :| c in t[n] && D.Reaches(t, h, c, x);
      ReachesNew(t, h, nodes, c, x);
    }
  }

  /** The tree without a node and all below it. */
  ghost predicate Dropped(t: D.Tree, h: map<D.XMLNode, nat>, r: D.Tree, node: D.XMLNode) {
    && D.Ranked(t, h) && node in t && r.Keys <= t.Keys
    && (forall x :: x in r ==> r[x] == t[x])
    && (forall x :: x in t ==> (x in r <==> !D.Reaches(t, h, node, x)))
  }

  lemma DropKeeps(t: D.Tree, t': D.Tree, h: map<D.XMLNode, nat>, r: D.Tree, self: D.XMLNode, node: D.XMLNode)
    requires Filled(t, t', self, node) && Dropped(t', h, r, node) && Contained(r)
    ensures forall n :: n in t ==> n in r && r[n] == t[n]
    ensures forall n :: n in r && n !in t ==> Listed(r, n)
    ensures forall n, c :: n in r && n !in t && c in r[n] ==> c in r && c !in t
  {
    FilledSame(t, t', self, node);
    forall n | n in t ensures n in r && r[n] == t[n] {
      if D.Reaches(t', h, node, n) { ReachesNew(t', h, New(t, t'), node, n); }
    }
    forall n | n in r && n !in t ensures Listed(r, n) {
      NotReached(t', h, node, n);
      FilledListed(t, t', self, node, n);
      var m: D.XMLNode :| m in t' && n in t'[m];
      assert m in r && n in r[m];
    }
  }

  lemma NotReached(t: D.Tree, h: map<D.XMLNode, nat>, node: D.XMLNode, n: D.XMLNode)
    requires D.Ranked(t, h) && node in t && n in t && !D.Reaches(t, h, node, n)
    ensures n != node && forall m :: m in t && n in t[m] ==> !D.Reaches(t, h, node, m)
  {
    forall m | m in t && n in t[m] ensures !D.Reaches(t, h, node, m) {
      if D.Reaches(t, h, node, m) { ReachesOn(t, h, node, m, n); }
    }
  }

  lemma {:induction false} ReachesOn(t: D.Tree, h: map<D.XMLNode, nat>, n: D.XMLNode, m: D.XMLNode, c: D.XMLNode)
    requires D.Ranked(t, h) && n in t && D.Reaches(t, h, n, m) && m in t && c in t[m]
    ensures D.Reaches(t, h, n, c)
    decreases h[n]
  {
    if n != m {
      var k :| k in t[n] && D.Reaches(t, h, k, m);
      ReachesOn(t, h, k, m, c);
    } else {
      assert D.Reaches(t, h, c, c);
    }
  }

  lemma DropGrows(t0: D.Tree, t: D.Tree, t': D.Tree, h: map<D.XMLNode, nat>, r: D.Tree, self: D.XMLNode,
                  node: D.XMLNode)
    requires Grown(t0, t, self) && Filled(t, t', self, node) && Dropped(t', h, r, node) && Contained(r)
    ensures Grown(t0, r, self) && r[self] == t[self] && Keeps(t, r, New(t0, t))
  {
    DropKeeps(t, t', h, r, self, node);
    hide Dropped, Filled;
    SupersetGrows(t0, t, r, self);
  }

  /** More new nodes, all of them listed and closed under the links. */
  lemma SupersetGrows(t0: D.Tree, t: D.Tree, r: D.Tree, self: D.XMLNode)
    requires Grown(t0, t, self) && forall n :: n in t ==> n in r && r[n] == t[n]
    requires forall n :: n in r && n !in t ==> Listed(r, n)
    requires forall n, c :: n in r && n !in t && c in r[n] ==> c in r && c !in t
    ensures Grown(t0, r, self) && r[self] == t[self] && Keeps(t, r, New(t0, t))
  {
    forall n | n in r && n !in t0 ensures Listed(r, n) {
      if n in t { StillListed(t, r, n); }
    }
    hide Listed;
  }

  lemma StillListed(t: D.Tree, r: D.Tree, n: D.XMLNode)
    requires Listed(t, n) && forall m :: m in t ==> m in r && r[m] == t[m]
    ensures Listed(r, n)
  {
  }

  // ----- what a consistent document says about its tree -----

  lemma TreeOf(d: D.XMLDocument)
    requires d.Valid({})
    ensures d.root != null && d.root in d.tree && d.root.parent == null
    ensures Contained(d.tree) && D.Ranked(d.tree, d.height)
    ensures d.Snapshot().Keys == d.tree.Keys && forall n :: n in d.tree ==> n.document == d
  {
  }

  /** A node has no parent exactly when it is in no list. */
  lemma Orphan(d: D.XMLDocument, x: D.XMLNode)
    requires d.Valid({}) && x in d.tree
    ensures x.parent == null <==> !Listed(d.tree, x)
  {
    var l := d.Snapshot();
    assert l[x] == x.Snapshot();
    if x.parent == null {
      D.InNoList(l, d.tree, x);
    } else {
      assert D.ParentAgrees(l, d.tree, x);
    }
  }

  /** When every node but the root is some node's child, none is tracked as unlinked. */
  lemma NoneUnlinked(d: D.XMLDocument)
    requires d.Valid({}) && forall n :: n in d.tree && n != d.root ==> Listed(d.tree, n)
    ensures d.unlinked == []
  {
    if d.unlinked != [] {
      var x := d.unlinked[0];
      assert x in d.unlinked && x in d.Snapshot() && d.Snapshot()[x] == x.Snapshot();
      Orphan(d, x);
    }
  }

  // ----- the parser -----

  /** A node that is being filled: it has no children yet and is nobody's child. */
  ghost predicate Bare(d: D.XMLDocument, self: D.XMLNode)
    reads d, d.tree.Keys
  {
    d.Valid({}) && self in d.tree && d.tree[self] == [] && !Listed(d.tree, self)
  }

  method Create(d: D.XMLDocument) returns (node: D.XMLNode)
    requires d.Valid({})
    modifies d
    ensures Bare(d, node) && d.root == old(d.root) && fresh(node) && d.tree == old(d.tree)[node := []]
    ensures node !in old(d.tree) && node != d.root
  {
    hide D.Consistent;
    TreeOf(d);
    node := d.CreateUnlinkedNode();
    Orphan(d, node);
  }

  lemma TakesIt(d: D.XMLDocument, self: D.XMLNode, node: D.XMLNode)
    requires d.Valid({}) && self in d.tree && node in d.tree && self != node && node != d.root
    requires !Listed(d.tree, self) && !Listed(d.tree, node)
    ensures self.document == d && node.document == d && node.parent == null && self.CanTake(node)
  {
    TreeOf(d);
    Orphan(d, self);
    Orphan(d, node);
    hide D.Consistent, D.Reaches;
    var l := d.Snapshot();
    assert l[self] == self.Snapshot();
    D.NotBelow(l, d.tree, d.height, node, self);
  }

  lemma AtTheEnd(t: D.Tree, self: D.XMLNode, node: D.XMLNode)
    requires self in t
    ensures D.Detached(t, null, node) == t && D.Placed(t, self, |t[self]|, node) == Inserted(t, self, node)
  {
    assert D.Insert(t[self], |t[self]|, node) == t[self] + [node];
  }

  /** InsertEndChild of a node that was created and filled. */
  method Append(d: D.XMLDocument, self: D.XMLNode, node: D.XMLNode)
    requires d.Valid({}) && self in d.tree && node in d.tree && self != node && node != d.root
    requires !Listed(d.tree, self) && !Listed(d.tree, node)
    modifies d, d.tree.Keys
    ensures d.Valid({}) && d.root == old(d.root) && d.tree == Inserted(old(d.tree), self, node)
  {
    hide D.Consistent, D.Reaches, D.Detached, D.Placed, Inserted, D.XMLNode.CanTake;
    TreeOf(d);
    TakesIt(d, self, node);
    AtTheEnd(d.tree, self, node);
    var _ := self.InsertEndChild(node);
  }

  /** DeleteNode of a node that was created and filled. */
  method Drop(d: D.XMLDocument, node: D.XMLNode)
    requires d.Valid({}) && node in d.tree && node != d.root && !Listed(d.tree, node)
    modifies d, d.tree.Keys
    ensures d.Valid({}) && d.root == old(d.root) && Contained(d.tree)
    ensures Dropped(old(d.tree), old(d.height), d.tree, node)
  {
    hide D.Consistent, D.Reaches;
    TreeOf(d);
    Orphan(d, node);
    D.XMLNode.DeleteNode(node, {});
    assert {} - {node} == {};
    TreeOf(d);
  }

  /** ParseDeep of the node that Identify has made at p. An element's children go below it. */
  method ParseOneInto(d: D.XMLDocument, node: D.XMLNode, s: string, p: nat, depth: nat) returns (one: One)
    requires p <= |s| && depth < MAX_ELEMENT_DEPTH && Bare(d, node)
    modifies d, d.tree.Keys
    ensures d.Valid({}) && d.root == old(d.root) && fresh(d.tree.Keys - old(d.tree.Keys))
    ensures Grown(old(d.tree), d.tree, node) && one == ParseOne(s, p, depth)
    ensures one.One? ==> Mirrors(d.tree, node, one.node)
    decreases |s| - p, 0
  {
    hide Identify, ReadTag, ParseNodes, ParseOne, ParseElement, Bare, MirrorsAll, D.XMLDocument.Valid;
    OneIs(s, p, depth);
    var identified := Identify(s, p);
    if identified.Simple? {
      one := identified.one;
      LeafMirrors(d, node, one);
    } else {
      var tag := ReadTag(s, identified.p);
      ElementIs(s, identified.p, depth);
      if Opens(s, tag) && depth + 1 < MAX_ELEMENT_DEPTH {
        var loop := ParseInto(d, node, s, tag.p, depth + 1, false);
        one := WithChildren(tag, loop);
        return;
      }
      one := WithoutChildren(s, tag);
      LeafMirrors(d, node, one);
    }
    StaysBare(d, node);
  }

  lemma OneIs(s: string, p: nat, depth: nat)
    requires p <= |s| && depth < MAX_ELEMENT_DEPTH
    ensures var i := Identify(s, p);
      ParseOne(s, p, depth) == if i.Simple? then i.one else ParseElement(s, i.p, depth)
  {
    hide Identify, ParseElement;
  }

  /** A tag whose element has children to come. */
  predicate Opens(s: string, tag: TagRead) { tag.Tag? && tag.closing == OPEN && Ch(s, tag.p) != NUL }

  function WithChildren(tag: TagRead, loop: Loop): One
    requires tag.Tag?
  {
    match loop
    case Ended(_) => Fail(Parsing)
    case Failed(error) => Fail(error)
    case Closed(nodes, endTag, q) => One(Element(tag.name, tag.list, nodes), OPEN, Some(endTag), q)
  }

  function WithoutChildren(s: string, tag: TagRead): One {
    match tag
    case BadTag(error) => Fail(error)
    case Tag(name, list, closing, q) =>
      if Opens(s, tag) then Fail(ElementDepthExceeded) else One(Element(name, list, []), closing, None, q)
  }

  lemma ElementIs(s: string, p: nat, depth: nat)
    requires p <= |s| && depth < MAX_ELEMENT_DEPTH
    ensures var tag := ReadTag(s, p);
      ParseElement(s, p, depth) ==
      if Opens(s, tag) && depth + 1 < MAX_ELEMENT_DEPTH
      then WithChildren(tag, ParseNodes(s, tag.p, depth + 1, false, []))
      else WithoutChildren(s, tag)
  {
    hide ReadTag, ParseNodes;
  }

  lemma LeafMirrors(d: D.XMLDocument, node: D.XMLNode, one: One)
    requires Bare(d, node) && (one.One? && one.node.Element? ==> one.node.children == [])
    ensures one.One? ==> Mirrors(d.tree, node, one.node)
  {
  }

  lemma StaysBare(d: D.XMLDocument, node: D.XMLNode)
    requires Bare(d, node)
    ensures d.Valid({}) && node in d.tree && !Listed(d.tree, node)
    ensures Grown(d.tree, d.tree, node) && MirrorsAll(d.tree, d.tree[node], [])
  {
  }

  /** XMLNode::ParseDeep from p on: what is read comes below self. */
  method ParseInto(d: D.XMLDocument, self: D.XMLNode, s: string, p: nat, depth: nat, top: bool) returns (r: Loop)
    requires p <= |s| && depth < MAX_ELEMENT_DEPTH && Bare(d, self)
    modifies d, d.tree.Keys
    ensures d.Valid({}) && d.root == old(d.root) && fresh(d.tree.Keys - old(d.tree.Keys))
    ensures Grown(old(d.tree), d.tree, self) && r == ParseNodes(s, p, depth, top, [])
    ensures !r.Failed? ==> MirrorsAll(d.tree, d.tree[self], r.nodes)
    decreases |s| - p, 3
  {
    hide ParseNodes, Mirrors, MirrorsAll, Grown, Listed, Bare, D.XMLDocument.Valid;
    StaysBare(d, self);
    ghost var t0 := d.tree;
    var q: nat, done: seq<Node<Segment>>, more := p, [], true;
    r := Ended([]);
    while more
      invariant q <= |s| && d.Valid({}) && d.root == old(d.root) && fresh(d.tree.Keys - old(d.tree.Keys))
      invariant self in d.tree && Grown(t0, d.tree, self) && !Listed(d.tree, self)
      invariant if more then
        ParseNodes(s, q, depth, top, done) == ParseNodes(s, p, depth, top, []) && MirrorsAll(d.tree, d.tree[self], done)
        else r == ParseNodes(s, p, depth, top, []) && (!r.Failed? ==> MirrorsAll(d.tree, d.tree[self], r.nodes))
      invariant p <= q
      decreases more, |s| - q
    {
      r, more, q, done := Turn(d, self, s, q, depth, top, done, t0);
    }
  }

  /** One turn of its loop. */
  method Turn(d: D.XMLDocument, self: D.XMLNode, s: string, p: nat, depth: nat, top: bool, done: seq<Node<Segment>>,
              ghost t0: D.Tree)
    returns (r: Loop, more: bool, q: nat, read: seq<Node<Segment>>)
    requires p <= |s| && depth < MAX_ELEMENT_DEPTH && d.Valid({}) && self in d.tree
    requires Grown(t0, d.tree, self) && !Listed(d.tree, self) && MirrorsAll(d.tree, d.tree[self], done)
    modifies d, d.tree.Keys
    ensures d.Valid({}) && d.root == old(d.root) && fresh(d.tree.Keys - old(d.tree.Keys))
    ensures self in d.tree && Grown(t0, d.tree, self) && !Listed(d.tree, self)
    ensures if more then
      && p < q <= |s| && ParseNodes(s, p, depth, top, done) == ParseNodes(s, q, depth, top, read)
      && MirrorsAll(d.tree, d.tree[self], read)
      else
      && q == p && r == ParseNodes(s, p, depth, top, done)
      && (!r.Failed? ==> MirrorsAll(d.tree, d.tree[self], r.nodes))
    decreases |s| - p, 2
  {
    hide ParseOne, ParseNodes, Identify, Taken, Refused, Mirrors, MirrorsAll, Grown, Listed, Pending;
    hide D.XMLDocument.Valid;
    TurnIs(s, p, depth, top, done);
    r, more, q, read := Ended(done), false, p, done;
    if Ch(s, p) == NUL {
      return;
    }
    if Identify(s, p) == Simple(NoNode) {
      NothingThere(s, p, depth);
      return;
    }
    ghost var t := d.tree;
    var node, one := ReadNode(d, self, s, p, depth);
    SomethingThere(s, p, depth);
    r, more := Settle(d, self, node, s, one, top, done, t0, t);
    if more {
      q, read := one.p, done + [one.node];
    }
  }

  /** Identify and the ParseDeep of the node it makes. */
  method ReadNode(d: D.XMLDocument, ghost self: D.XMLNode, s: string, p: nat, depth: nat)
    returns (node: D.XMLNode, one: One)
    requires p <= |s| && depth < MAX_ELEMENT_DEPTH && d.Valid({}) && self in d.tree && !Listed(d.tree, self)
    modifies d, d.tree.Keys
    ensures d.Valid({}) && d.root == old(d.root) && fresh(d.tree.Keys - old(d.tree.Keys))
    ensures Pending(old(d.tree), d, self, node) && one == ParseOne(s, p, depth)
    ensures one.One? ==> Mirrors(d.tree, node, one.node)
    decreases |s| - p, 1
  {
    hide ParseOne, Mirrors, Grown, Listed, Filled, D.Consistent;
    ghost var t := d.tree;
    node := Create(d);
    one := ParseOneInto(d, node, s, p, depth);
    NowFilled(d, t, self, node);
  }

  /** The node was created and filled since the tree was t, and is to be inserted below self or deleted. */
  ghost predicate Pending(t: D.Tree, d: D.XMLDocument, self: D.XMLNode, node: D.XMLNode)
    reads d
  {
    && Filled(t, d.tree, self, node) && node in d.tree && self in d.tree && self != node && node != d.root
    && !Listed(d.tree, self) && !Listed(d.tree, node)
  }

  /** What the loop does with the node it has read. */
  method Settle(d: D.XMLDocument, self: D.XMLNode, node: D.XMLNode, s: string, one: One, top: bool,
                done: seq<Node<Segment>>, ghost t0: D.Tree, ghost t: D.Tree)
    returns (r: Loop, more: bool)
    requires d.Valid({}) && Grown(t0, t, self) && Pending(t, d, self, node) && MirrorsAll(t, t[self], done)
    requires !one.NoNode? && (one.One? ==> Mirrors(d.tree, node, one.node))
    modifies d, d.tree.Keys
    ensures d.Valid({}) && d.root == old(d.root) && d.tree.Keys <= old(d.tree.Keys) && self in d.tree
    ensures Grown(t0, d.tree, self) && !Listed(d.tree, self)
    ensures more == Taken(s, one, top, done) && (!more ==> r == Refused(one, top, done))
    ensures more ==> MirrorsAll(d.tree, d.tree[self], done + [one.node])
    ensures !more && !r.Failed? ==> MirrorsAll(d.tree, d.tree[self], r.nodes)
  {
    hide Mirrors, MirrorsAll, Grown, Filled, D.XMLDocument.Valid, OnlyDeclarations, Mismatch;
    more := Taken(s, one, top, done);
    if more {
      Keep(d, self, node, done, one.node, t0, t);
    } else {
      Discard(d, self, node, done, t0, t);
    }
    r := Refused(one, top, done);
  }

  predicate Taken(s: string, one: One, top: bool, done: seq<Node<Segment>>): (taken: bool)
    ensures taken ==> one.One?
  {
    && one.One? && (one.node.Declaration? ==> top && OnlyDeclarations(done)) && one.closing != CLOSING
    && !(one.node.Element? && Mismatch(s, one.node.name, one.closing, one.endTag))
  }

  /** What the loop ends with when it does not take the node. */
  function Refused(one: One, top: bool, done: seq<Node<Segment>>): (r: Loop)
    ensures one.NoNode? ==> r == Ended(done)
  {
    if one.NoNode? then Ended(done)
    else if one.Fail? then Failed(one.error)
    else if one.node.Declaration? && !(top && OnlyDeclarations(done)) then Failed(ParsingDeclaration)
    else if one.closing == CLOSING && one.node.Element? then Closed(done, one.node.name, one.p)
    else Failed(MismatchedElement)
  }

  lemma TurnIs(s: string, p: nat, depth: nat, top: bool, done: seq<Node<Segment>>)
    requires p <= |s| && depth < MAX_ELEMENT_DEPTH
    ensures var one, loop := ParseOne(s, p, depth), ParseNodes(s, p, depth, top, done);
      if Ch(s, p) == NUL then loop == Ended(done)
      else if Taken(s, one, top, done) then loop == ParseNodes(s, one.p, depth, top, done + [one.node])
      else loop == Refused(one, top, done)
  {
    hide ParseOne, OnlyDeclarations, Mismatch;
  }

  lemma NothingThere(s: string, p: nat, depth: nat)
    requires p <= |s| && depth < MAX_ELEMENT_DEPTH && Identify(s, p) == Simple(NoNode)
    ensures ParseOne(s, p, depth) == NoNode
  {
  }

  lemma SomethingThere(s: string, p: nat, depth: nat)
    requires p <= |s| && depth < MAX_ELEMENT_DEPTH && Identify(s, p) != Simple(NoNode)
    ensures !ParseOne(s, p, depth).NoNode?
  {
    hide Identify, ParseElement;
  }

  /** After a node was created in t and filled. */
  lemma NowFilled(d: D.XMLDocument, t: D.Tree, self: D.XMLNode, node: D.XMLNode)
    requires self in t && node !in t && Grown(t[node := []], d.tree, node) && !Listed(t, self)
    requires !Listed(t[node := []], node) && node != d.root
    ensures Pending(t, d, self, node)
  {
    var t1 := t[node := []];
    GrownUnlisted(t1, d.tree, node, node);
    assert !Listed(t1, self);
    GrownUnlisted(t1, d.tree, node, self);
  }

  method Discard(d: D.XMLDocument, self: D.XMLNode, node: D.XMLNode, ghost done: seq<Node<Segment>>, ghost t0: D.Tree,
                 ghost t: D.Tree)
    requires d.Valid({}) && Grown(t0, t, self) && Filled(t, d.tree, self, node) && MirrorsAll(t, t[self], done)
    requires node in d.tree && node != d.root && !Listed(d.tree, node) && !Listed(d.tree, self)
    modifies d, d.tree.Keys
    ensures d.Valid({}) && d.root == old(d.root) && d.tree.Keys <= old(d.tree.Keys) && self in d.tree
    ensures Grown(t0, d.tree, self) && !Listed(d.tree, self) && MirrorsAll(d.tree, d.tree[self], done)
  {
    ghost var before, h := d.tree, d.height;
    Drop(d, node);
    DropGrows(t0, t, before, h, d.tree, self, node);
    ChildrenAreNew(t0, t, self);
    hide Mirrors, MirrorsAll;
    MirrorsAllFrame(t, d.tree, New(t0, t), t[self], done);
    StillUnlisted(before, d.tree, self);
  }

  lemma StillUnlisted(t: D.Tree, r: D.Tree, self: D.XMLNode)
    requires !Listed(t, self) && r.Keys <= t.Keys && forall x :: x in r ==> r[x] == t[x]
    ensures !Listed(r, self)
  {
  }

  method Keep(d: D.XMLDocument, self: D.XMLNode, node: D.XMLNode, ghost done: seq<Node<Segment>>,
              ghost n: Node<Segment>, ghost t0: D.Tree, ghost t: D.Tree)
    requires d.Valid({}) && Grown(t0, t, self) && Filled(t, d.tree, self, node) && MirrorsAll(t, t[self], done)
    requires node in d.tree && self in d.tree && node != self && node != d.root && Mirrors(d.tree, node, n)
    requires !Listed(d.tree, node) && !Listed(d.tree, self)
    modifies d, d.tree.Keys
    ensures d.Valid({}) && d.root == old(d.root) && d.tree.Keys <= old(d.tree.Keys) && self in d.tree
    ensures Grown(t0, d.tree, self) && !Listed(d.tree, self) && MirrorsAll(d.tree, d.tree[self], done + [n])
  {
    ghost var before := d.tree;
    hide Mirrors, MirrorsAll;
    InsertGrows(t0, t, before, self, node);
    InsertMirrors(t0, t, before, self, node, done, n);
    Append(d, self, node);
    assert !Listed(d.tree, self) by { OnlyNodeListed(before, self, node); }
  }

  lemma OnlyNodeListed(t: D.Tree, self: D.XMLNode, node: D.XMLNode)
    requires self in t && !Listed(t, self) && self != node
    ensures !Listed(Inserted(t, self, node), self)
  {
  }

  // ----- the document -----

  /** XMLDocument::Parse on a new document: it ends with the tree of what was read, and no node is left over. After an
      error the document is empty. */
  method ParseDom(xml: string) returns (d: D.XMLDocument, r: Document)
    ensures r == ParseDocument(xml + [NUL])
    ensures d.Valid({}) && d.root in d.tree && d.unlinked == []
    ensures r.Success? ==> MirrorsAll(d.tree, d.tree[d.root], r.nodes)
    ensures r.Error? ==> d.tree == map[d.root := []]
  {
    hide ParseNodes, MirrorsAll, Grown, Listed, D.Consistent, SkipBom, SkipWhiteSpace;
    var s := xml + [NUL];
    d := new D.XMLDocument();
    TreeOf(d);
    var p := SkipBom(s, SkipWhiteSpace(s, 0));
    if Ch(s, p) == NUL {
      return d, Error(EmptyDocument);
    }
    NewIsBare(d);
    var loop := ParseInto(d, d.root, s, p, 1, true);
    AllListed(d);
    match loop
    case Ended(nodes) => r := Success(nodes);
    case Closed(nodes, _, _) => r := Success(nodes);
    case Failed(error) =>
      r := Error(error);
      Empty(d);
  }

  /** DeleteChildren of the document, when no node is unlinked: the pools are then cleared as well. */
  method Empty(d: D.XMLDocument)
    requires d.Valid({}) && d.root in d.tree && d.unlinked == []
    modifies d, d.tree.Keys
    ensures d.Valid({}) && d.root == old(d.root) && d.tree == map[d.root := []] && d.unlinked == []
  {
    hide D.Consistent, D.Trimmed;
    TreeOf(d);
    d.root.DeleteChildren({});
    FirstIsIn(d.unlinked);
    D.OnlyTheRoot(d.Snapshot(), d.tree, d.height, d.root);
  }

  lemma FirstIsIn(k: seq<D.XMLNode>)
    ensures k == [] || k[0] in k
  {
  }

  lemma NewIsBare(d: D.XMLDocument)
    requires d.Valid({}) && d.root != null && d.tree == map[d.root := []]
    ensures Bare(d, d.root)
  {
  }

  lemma AllListed(d: D.XMLDocument)
    requires d.Valid({}) && d.root != null && Grown(map[d.root := []], d.tree, d.root)
    ensures d.root in d.tree && d.unlinked == []
  {
    NoneUnlinked(d);
  }
}
