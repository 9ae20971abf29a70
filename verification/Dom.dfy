/** The links of the document tree: XMLNode's child list and the document's list of nodes not linked in yet. The
    document is itself a node; here it has one, called root. */
module Dom {
  // ----- the tree the links stand for -----

  type Tree = map<XMLNode, seq<XMLNode>>

  ghost function At(k: seq<XMLNode>, i: int): XMLNode? { if 0 <= i < |k| then k[i] else null }

  ghost predicate Distinct(k: seq<XMLNode>) { forall i, j :: 0 <= i < j < |k| ==> k[i] != k[j] }

  ghost function Without(k: seq<XMLNode>, x: XMLNode): seq<XMLNode> {
    if k == [] then [] else if k[0] == x then k[1..] else [k[0]] + Without(k[1..], x)
  }

  /** The tree without x in the list of its parent. */
  ghost function Detached(t: Tree, parent: XMLNode?, x: XMLNode): (r: Tree)
    ensures r.Keys == t.Keys
  {
    if parent == null || parent !in t then t else t[parent := Without(t[parent], x)]
  }

  lemma {:induction false} WithoutSubset(k: seq<XMLNode>, x: XMLNode)
    ensures forall y :: y in Without(k, x) ==> y in k
  {
    if k != [] { WithoutSubset(k[1..], x); }
  }

  lemma {:induction false} WithoutKeeps(k: seq<XMLNode>, x: XMLNode)
    ensures forall y :: y in k && y != x ==> y in Without(k, x)
  {
    if k != [] { WithoutKeeps(k[1..], x); }
  }

  lemma {:induction false} WithoutIs(k: seq<XMLNode>, i: nat)
    requires i < |k| && Distinct(k)
    ensures Without(k, k[i]) == k[..i] + k[i + 1..]
  {
    if i > 0 {
      WithoutIs(k[1..], i - 1);
      assert k[1..][..i - 1] == k[1..i] && k[1..][i..] == k[i + 1..];
      assert [k[0]] + (k[1..i] + k[i + 1..]) == k[..i] + k[i + 1..];
    }
  }

  // ----- the links as a value -----

  datatype Link = Link(parent: XMLNode?, first: XMLNode?, last: XMLNode?, prev: XMLNode?, next: XMLNode?)

  type Links = map<XMLNode, Link>

  /** The links of the child at place i. */
  ghost predicate ChildAt(l: Links, n: XMLNode, k: seq<XMLNode>, i: nat)
    requires i < |k|
  {
    k[i] in l && l[k[i]].parent == n && l[k[i]].prev == At(k, i - 1) && l[k[i]].next == At(k, i + 1)
  }

  /** Forward from firstChild and backward from lastChild the links spell k, and each child knows its parent. */
  ghost predicate Spells(l: Links, n: XMLNode, k: seq<XMLNode>)
    requires n in l
  {
    && Distinct(k)
    && l[n].first == At(k, 0) && l[n].last == At(k, |k| - 1)
    && forall i :: 0 <= i < |k| ==> ChildAt(l, n, k, i)
  }

  ghost predicate AllSpelled(l: Links, t: Tree)
    requires l.Keys == t.Keys
  {
    forall n :: n in t ==> Spells(l, n, t[n])
  }

  ghost predicate ParentAgrees(l: Links, t: Tree, n: XMLNode)
    requires n in l
  {
    if l[n].parent == null then l[n].prev == null && l[n].next == null
    else l[n].parent in t && n in t[l[n].parent]
  }

  ghost predicate ParentsAgree(l: Links, t: Tree)
    requires l.Keys == t.Keys
  {
    forall n :: n in t ==> ParentAgrees(l, t, n)
  }

  /** Every child list is spelled by the links; a node with a parent is in its list; one without has no siblings. */
  ghost predicate Linked(l: Links, t: Tree) {
    l.Keys == t.Keys && AllSpelled(l, t) && ParentsAgree(l, t)
  }

  /** The nodes met from x on, along next or along prev, in at most n steps. */
  ghost function Walk(l: Links, x: XMLNode?, forward: bool, n: nat): seq<XMLNode>
    decreases n
  {
    if x == null || x !in l || n == 0 then []
    else [x] + Walk(l, if forward then l[x].next else l[x].prev, forward, n - 1)
  }

  ghost function Reversed(k: seq<XMLNode>): seq<XMLNode> {
    if k == [] then [] else Reversed(k[1..]) + [k[0]]
  }

  lemma {:induction false} WalkForward(l: Links, n: XMLNode, k: seq<XMLNode>, i: nat, steps: nat)
    requires n in l && Spells(l, n, k) && i <= |k| && steps >= |k| - i
    ensures Walk(l, At(k, i), true, steps) == k[i..]
    decreases |k| - i
  {
    if i < |k| {
      assert ChildAt(l, n, k, i);
      WalkForward(l, n, k, i + 1, steps - 1);
      hide Spells;
      assert k[i..] == [k[i]] + k[i + 1..];
    }
  }

  lemma {:induction false} WalkBackward(l: Links, n: XMLNode, k: seq<XMLNode>, i: nat, steps: nat)
    requires n in l && Spells(l, n, k) && i <= |k| && steps >= i
    ensures Walk(l, At(k, i - 1), false, steps) == Reversed(k[..i])
  {
    if i > 0 {
      assert ChildAt(l, n, k, i - 1);
      WalkBackward(l, n, k, i - 1, steps - 1);
      hide Spells;
      ReversedLast(k[..i - 1], k[i - 1]);
      assert k[..i] == k[..i - 1] + [k[i - 1]];
    }
  }

  lemma {:induction false} ReversedLast(k: seq<XMLNode>, x: XMLNode)
    ensures Reversed(k + [x]) == [x] + Reversed(k)
  {
    if k != [] {
      ReversedLast(k[1..], x);
      assert (k + [x])[1..] == k[1..] + [x];
    }
  }

  lemma WholeWalk(l: Links, n: XMLNode, k: seq<XMLNode>, steps: nat)
    requires n in l && Spells(l, n, k) && steps >= |k|
    ensures Walk(l, l[n].first, true, steps) == k && Walk(l, l[n].last, false, steps) == Reversed(k)
  {
    WalkForward(l, n, k, 0, steps);
    WalkBackward(l, n, k, |k|, steps);
    hide Spells, Walk, Reversed;
    assert k[..|k|] == k && k[0..] == k;
  }

  lemma OneParent(l: Links, t: Tree, p: XMLNode, x: XMLNode)
    requires Linked(l, t) && p in t && x in t[p]
    ensures x in l && l[x].parent == p
  {
    assert Spells(l, p, t[p]);
    var i :| 0 <= i < |t[p]| && t[p][i] == x;
    assert ChildAt(l, p, t[p], i);
  }

  /** next from firstChild and prev from lastChild meet the same children in opposite directions, however long they are
      followed; and a node is in one list only, that of its parent. */
  lemma SpelledBothWays(l: Links, t: Tree, n: XMLNode, steps: nat)
    requires Linked(l, t) && n in t && steps >= |t[n]|
    ensures Walk(l, l[n].first, true, steps) == t[n] && Walk(l, l[n].last, false, steps) == Reversed(t[n])
    ensures forall p, x :: p in t && x in t[p] ==> x in l && l[x].parent == p
  {
    hide AllSpelled, ParentsAgree, Walk, Reversed;
    AllListed(l, t, n);
    WholeWalk(l, n, t[n], steps);
    forall p, x | p in t && x in t[p] ensures x in l && l[x].parent == p { OneParent(l, t, p, x); }
  }

  /** A list stays spelled as long as its ends and the links of its nodes stay. */
  lemma SpellsFrame(l: Links, l': Links, n: XMLNode, k: seq<XMLNode>)
    requires n in l && n in l' && l'[n].first == l[n].first && l'[n].last == l[n].last && Spells(l, n, k)
    requires forall c :: c in k ==>
      c in l && c in l' && l'[c].parent == l[c].parent && l'[c].prev == l[c].prev && l'[c].next == l[c].next
    ensures Spells(l', n, k)
  {
    forall i | 0 <= i < |k| ensures ChildAt(l', n, k, i) { assert k[i] in k && ChildAt(l, n, k, i); }
  }

  /** What Unlink does to the links. */
  ghost function Unlinked(l: Links, self: XMLNode, child: XMLNode): (r: Links)
    requires self in l && child in l
    ensures r.Keys == l.Keys
  {
    map n | n in l :: UnlinkedOne(l[n], n, self, child, l[child])
  }

  /** What it does to the links x of node n, the child having the links c. */
  ghost function UnlinkedOne(x: Link, n: XMLNode, self: XMLNode, child: XMLNode, c: Link): Link {
    Link(
      if n == child then null else x.parent,
      if n == self && child == x.first then c.next else x.first,
      if n == self && child == x.last then c.prev else x.last,
      if n == child then null else if n == c.next then c.prev else x.prev,
      if n == child then null else if n == c.prev then c.next else x.next)
  }

  lemma UnlinkMoves(l: Links, self: XMLNode, child: XMLNode, k: seq<XMLNode>, i: nat, a: nat)
    requires self in l && child in l && Spells(l, self, k) && i < |k| && k[i] == child && self !in k
    requires a < |k| && a != i && k[a] in l
    ensures var r := Unlinked(l, self, child)[k[a]];
      && r.parent == self
      && r.prev == (if a == i + 1 then At(k, i - 1) else At(k, a - 1))
      && r.next == (if a + 1 == i then At(k, i + 1) else At(k, a + 1))
  {
    var x := k[a];
    assert ChildAt(l, self, k, a) && ChildAt(l, self, k, i);
    assert l[child].next == At(k, i + 1) && l[child].prev == At(k, i - 1);
    assert x == l[child].next <==> a == i + 1;
    assert x == l[child].prev <==> a + 1 == i;
  }

  lemma UnlinkEnds(l: Links, self: XMLNode, child: XMLNode, k: seq<XMLNode>, i: nat)
    requires self in l && child in l && Spells(l, self, k) && i < |k| && k[i] == child
    ensures var r := Unlinked(l, self, child)[self];
      && r.first == (if i == 0 then At(k, 1) else At(k, 0))
      && r.last == (if i == |k| - 1 then At(k, |k| - 2) else At(k, |k| - 1))
  {
    assert ChildAt(l, self, k, i);
    assert child == l[self].first <==> i == 0;
    assert child == l[self].last <==> i == |k| - 1;
  }

  /** The first place of x in k, or |k|. */
  ghost function IndexOf(k: seq<XMLNode>, x: XMLNode): (i: nat)
    ensures i <= |k|
  {
    if k == [] || k[0] == x then 0 else 1 + IndexOf(k[1..], x)
  }

  lemma {:induction false} IndexOfIs(k: seq<XMLNode>, x: XMLNode)
    ensures IndexOf(k, x) < |k| ==> k[IndexOf(k, x)] == x
    ensures x in k ==> IndexOf(k, x) < |k|
  {
    if k != [] && k[0] != x { IndexOfIs(k[1..], x); }
  }

  lemma IndexOfThe(k: seq<XMLNode>, i: nat)
    requires Distinct(k) && i < |k|
    ensures IndexOf(k, k[i]) == i
  {
    IndexOfIs(k, k[i]);
  }

  /** The list without its element i, element by element. */
  lemma WithoutAt(k: seq<XMLNode>, i: nat)
    requires i < |k| && Distinct(k)
    ensures var k' := Without(k, k[i]);
      && |k'| == |k| - 1 && Distinct(k') && (forall j :: 0 <= j < |k'| ==> k'[j] == k[if j < i then j else j + 1])
      && forall x :: x in k' <==> x in k && x != k[i]
  {
    WithoutIs(k, i);
    var k' := Without(k, k[i]);
    forall x ensures x in k' <==> x in k && x != k[i] {
      if x in k && x != k[i] {
        var a :| 0 <= a < |k| && k[a] == x;
        assert k'[if a < i then a else a - 1] == x;
      }
    }
  }

  lemma UnlinkSpellsSelf(l: Links, self: XMLNode, child: XMLNode, k: seq<XMLNode>, i: nat)
    requires self in l && child in l && Spells(l, self, k) && i < |k| && k[i] == child && self !in k
    ensures Spells(Unlinked(l, self, child), self, Without(k, child))
  {
    hide Unlinked, Without;
    WithoutAt(k, i);
    UnlinkEnds(l, self, child, k, i);
    var k', l' := Without(k, child), Unlinked(l, self, child);
    forall j | 0 <= j < |k'| ensures ChildAt(l', self, k', j) {
      assert ChildAt(l, self, k, if j < i then j else j + 1);
      UnlinkMoves(l, self, child, k, i, if j < i then j else j + 1);
    }
  }

  lemma UnlinkKeepsOthers(l: Links, t: Tree, self: XMLNode, child: XMLNode, n: XMLNode, j: nat)
    requires Linked(l, t) && self in t && child in t && l[child].parent == self && n in t && n != self && j < |t[n]|
    ensures var x, l' := t[n][j], Unlinked(l, self, child);
      x in l' && l'[x].parent == n && l'[x].prev == l[x].prev && l'[x].next == l[x].next
  {
    var x := t[n][j];
    assert Spells(l, n, t[n]) && ChildAt(l, n, t[n], j);
    SiblingsShareParent(l, t, child);
  }

  lemma SiblingsShareParent(l: Links, t: Tree, child: XMLNode)
    requires Linked(l, t) && child in t && l[child].parent != null
    ensures l[child].next != null ==>
      l[child].next in l && l[l[child].next].parent == l[child].parent && l[child].next != child
    ensures l[child].prev != null ==>
      l[child].prev in l && l[l[child].prev].parent == l[child].parent && l[child].prev != child
  {
    assert ParentAgrees(l, t, child);
    var k := t[l[child].parent];
    var i :| 0 <= i < |k| && k[i] == child;
    assert Spells(l, l[child].parent, k) && ChildAt(l, l[child].parent, k, i);
    if i + 1 < |k| { assert ChildAt(l, l[child].parent, k, i + 1); }
    if i > 0 { assert ChildAt(l, l[child].parent, k, i - 1); }
  }

  lemma UnlinkSpellsOther(l: Links, t: Tree, self: XMLNode, child: XMLNode, n: XMLNode)
    requires Linked(l, t) && self in t && child in t && l[child].parent == self && n in t && n != self
    ensures Spells(Unlinked(l, self, child), n, t[n])
  {
    var k, l' := t[n], Unlinked(l, self, child);
    assert l'[n].first == l[n].first && l'[n].last == l[n].last;
    AllListed(l, t, n);
    hide Unlinked;
    forall c | c in k ensures l'[c].parent == l[c].parent && l'[c].prev == l[c].prev && l'[c].next == l[c].next {
      var j :| 0 <= j < |k| && k[j] == c;
      UnlinkKeepsOthers(l, t, self, child, n, j);
      OneParent(l, t, n, c);
    }
    hide Linked, Spells;
    SpellsFrame(l, l', n, k);
  }

  /** Unlink takes the child out of its parent's list and changes no other list. */
  lemma UnlinkKeeps(l: Links, t: Tree, self: XMLNode, child: XMLNode)
    requires Linked(l, t) && self in t && child in t && l[child].parent == self && self !in t[self]
    ensures Linked(Unlinked(l, self, child), t[self := Without(t[self], child)])
  {
    UnlinkSpells(l, t, self, child);
    UnlinkParents(l, t, self, child);
  }

  lemma UnlinkSpells(l: Links, t: Tree, self: XMLNode, child: XMLNode)
    requires Linked(l, t) && self in t && child in t && l[child].parent == self && self !in t[self]
    ensures AllSpelled(Unlinked(l, self, child), t[self := Without(t[self], child)])
  {
    var i :| 0 <= i < |t[self]| && t[self][i] == child;
    UnlinkSpellsSelf(l, self, child, t[self], i);
    hide Unlinked, Without, Spells;
    forall n | n in t && n != self ensures Spells(Unlinked(l, self, child), n, t[n]) {
      UnlinkSpellsOther(l, t, self, child, n);
    }
    SpelledAfter(Unlinked(l, self, child), t, self, Without(t[self], child));
  }

  lemma SpelledAfter(l: Links, t: Tree, self: XMLNode, k: seq<XMLNode>)
    requires l.Keys == t.Keys && self in t && Spells(l, self, k)
    requires forall n :: n in t && n != self ==> Spells(l, n, t[n])
    ensures AllSpelled(l, t[self := k])
  {
    hide Spells;
  }

  lemma UnlinkParents(l: Links, t: Tree, self: XMLNode, child: XMLNode)
    requires Linked(l, t) && self in t && child in t && l[child].parent == self && self !in t[self]
    ensures ParentsAgree(Unlinked(l, self, child), t[self := Without(t[self], child)])
  {
    ListIsDistinct(l, t, self);
    var i :| 0 <= i < |t[self]| && t[self][i] == child;
    WithoutAt(t[self], i);
    UnlinkOrphans(l, t, self, child);
    ParentsAfter(l, Unlinked(l, self, child), t, self, child, null, Without(t[self], child));
  }

  lemma ListIsDistinct(l: Links, t: Tree, self: XMLNode)
    requires Linked(l, t) && self in t
    ensures Distinct(t[self])
  {
    assert Spells(l, self, t[self]);
  }

  /** Only x changes its parent, and only self's list changes, by x. */
  lemma ParentsAfter(l: Links, l': Links, t: Tree, self: XMLNode, x: XMLNode, parent: XMLNode?, k: seq<XMLNode>)
    requires l.Keys == t.Keys == l'.Keys && ParentsAgree(l, t) && self in t && x in t
    requires forall n :: n in t && n != x ==> l'[n].parent == l[n].parent
    requires forall n :: n in t && l'[n].parent == null ==> l'[n].prev == null && l'[n].next == null
    requires forall n :: n in t[self] && n != x ==> n in k
    requires l'[x].parent == parent && (parent == null || (parent == self && x in k))
    ensures ParentsAgree(l', t[self := k])
  {
    forall n | n in t ensures ParentAgrees(l', t[self := k], n) {
      assert ParentAgrees(l, t, n);
    }
  }

  lemma UnlinkOrphans(l: Links, t: Tree, self: XMLNode, child: XMLNode)
    requires Linked(l, t) && self in t && child in t && l[child].parent == self
    ensures var l' := Unlinked(l, self, child);
      && (forall n :: n in t && n != child ==> l'[n].parent == l[n].parent)
      && l'[child].parent == null
      && (forall n :: n in t && l'[n].parent == null ==> l'[n].prev == null && l'[n].next == null)
  {
    SiblingsShareParent(l, t, child);
  }

  lemma LastWithout(k: seq<XMLNode>, a: nat, b: nat)
    requires Distinct(k) && a < |k| && b < |k| && a != b
    ensures var k', i := Without(k, k[b]), IndexOf(Without(k, k[b]), k[a]);
      i < |k'| && (i + 1 == |k'| <==> a + 1 == |k| || (b == a + 1 && b + 1 == |k|))
  {
    hide Without, IndexOf, Distinct;
    WithoutAt(k, b);
    IndexOfThe(Without(k, k[b]), if a < b then a else a - 1);
  }

  lemma PlaceOf(l: Links, t: Tree, x: XMLNode) returns (i: nat)
    requires Linked(l, t) && x in t && l[x].parent != null
    ensures l[x].parent in t && i < |t[l[x].parent]| && t[l[x].parent][i] == x
    ensures l[x].next == At(t[l[x].parent], i + 1) && Distinct(t[l[x].parent])
  {
    assert ParentAgrees(l, t, x);
    var k := t[l[x].parent];
    assert Spells(l, l[x].parent, k);
    i :| 0 <= i < |k| && k[i] == x;
    assert ChildAt(l, l[x].parent, k, i);
  }

  lemma LastOfSiblings(l: Links, t: Tree, self: XMLNode, after: XMLNode, add: XMLNode)
    requires Linked(l, t) && self in t && after in t && l[after].parent == self && add in t && after != add
    requires l[add].parent == self
    ensures var k := Without(t[self], add);
      && IndexOf(k, after) < |k|
      && (IndexOf(k, after) + 1 == |k| <==> l[after].next == null || (l[after].next == add && l[add].next == null))
  {
    hide Linked, IndexOf, Without, Distinct, At;
    var k := t[self];
    var a := PlaceOf(l, t, after);
    var b := PlaceOf(l, t, add);
    LastWithout(k, a, b);
    AtIs(k, a + 1, b);
    AtIs(k, b + 1, b);
  }

  lemma LastAmongOthers(l: Links, t: Tree, self: XMLNode, after: XMLNode, add: XMLNode)
    requires Linked(l, t) && self in t && after in t && l[after].parent == self && add in t && l[add].parent != self
    ensures var k := t[self]; IndexOf(k, after) < |k| && (IndexOf(k, after) + 1 == |k| <==> l[after].next == null)
    ensures l[after].next != add
  {
    var a := PlaceOf(l, t, after);
    NotInList(l, t, self, add);
    IndexOfThe(t[self], a);
    hide Linked, IndexOf, Distinct;
  }

  /** Once add has left its place, after is the last child just when it was so before, or when only add
      came after it. */
  lemma LastAfterDetach(l: Links, t: Tree, self: XMLNode, after: XMLNode, add: XMLNode)
    requires Linked(l, t) && self in t && after in t && l[after].parent == self && add in t && after != add
    ensures var k := Detached(t, l[add].parent, add)[self];
      && IndexOf(k, after) < |k|
      && (IndexOf(k, after) + 1 == |k| <==> l[after].next == null || (l[after].next == add && l[add].next == null))
  {
    hide AllSpelled, ParentsAgree, IndexOf, Without;
    if l[add].parent == self {
      LastOfSiblings(l, t, self, after, add);
    } else {
      LastAmongOthers(l, t, self, after, add);
    }
  }

  lemma AtIs(k: seq<XMLNode>, a: nat, b: nat)
    requires Distinct(k) && b < |k|
    ensures At(k, a) == k[b] <==> a == b
    ensures At(k, a) == null <==> a >= |k|
  {
  }

  lemma NotInList(l: Links, t: Tree, self: XMLNode, x: XMLNode)
    requires Linked(l, t) && self in t && x in t && l[x].parent != self
    ensures x !in t[self]
  {
    assert Spells(l, self, t[self]);
    forall i | 0 <= i < |t[self]| ensures t[self][i] != x { assert ChildAt(l, self, t[self], i); }
  }

  // ----- linking a node in -----

  /** What the three insertions do to the links of a node without a parent: it gets `before` and `after` as its
      neighbours, either of which may be missing. */
  ghost function Spliced(l: Links, self: XMLNode, add: XMLNode, before: XMLNode?, after: XMLNode?): (r: Links)
    requires self in l && add in l
    ensures r.Keys == l.Keys
  {
    map n | n in l :: SplicedOne(l[n], n, self, add, before, after)
  }

  ghost function SplicedOne(x: Link, n: XMLNode, self: XMLNode, add: XMLNode, before: XMLNode?, after: XMLNode?): Link {
    Link(
      if n == add then self else x.parent,
      if n == self && before == null then add else x.first,
      if n == self && after == null then add else x.last,
      if n == add then before else if n == after then add else x.prev,
      if n == add then after else if n == before then add else x.next)
  }

  ghost function Insert(k: seq<XMLNode>, i: nat, x: XMLNode): seq<XMLNode>
    requires i <= |k|
  {
    k[..i] + [x] + k[i..]
  }

  /** The tree with x at place i of the list of self. */
  ghost function Placed(t: Tree, self: XMLNode, i: nat, x: XMLNode): (r: Tree)
    requires self in t && i <= |t[self]|
    ensures r.Keys == t.Keys
  {
    t[self := Insert(t[self], i, x)]
  }

  /** The tree with x right after the child `after` of self. */
  ghost function PlacedAfter(t: Tree, self: XMLNode, after: XMLNode, x: XMLNode): Tree
    requires self in t
  {
    var i := IndexOf(t[self], after);
    if i < |t[self]| then Placed(t, self, i + 1, x) else t
  }

  lemma InsertAt(k: seq<XMLNode>, i: nat, x: XMLNode)
    requires i <= |k| && Distinct(k) && x !in k
    ensures var k' := Insert(k, i, x);
      && |k'| == |k| + 1 && Distinct(k') && k'[i] == x
      && (forall j :: 0 <= j < |k'| && j != i ==> k'[j] == k[if j < i then j else j - 1])
      && forall y :: y in k' <==> y in k || y == x
  {
    var k' := Insert(k, i, x);
    forall y ensures y in k' <==> y in k || y == x {
      if y in k {
        var a :| 0 <= a < |k| && k[a] == y;
        assert k'[if a < i then a else a + 1] == y;
      }
    }
  }

  lemma SpliceMoves(l: Links, self: XMLNode, add: XMLNode, k: seq<XMLNode>, i: nat, a: nat)
    requires self in l && add in l && Spells(l, self, k) && add !in k && self !in k && i <= |k| && a < |k| && k[a] in l
    ensures var r := Spliced(l, self, add, At(k, i - 1), At(k, i))[k[a]];
      && r.parent == self
      && r.prev == (if a == i then add else At(k, a - 1))
      && r.next == (if a == i - 1 then add else At(k, a + 1))
  {
    var x := k[a];
    assert ChildAt(l, self, k, a);
    assert x == At(k, i) <==> a == i;
    assert x == At(k, i - 1) <==> a == i - 1;
  }

  lemma SpliceSpellsSelf(l: Links, self: XMLNode, add: XMLNode, k: seq<XMLNode>, i: nat)
    requires self in l && add in l && Spells(l, self, k) && add !in k && self !in k && add != self && i <= |k|
    ensures Spells(Spliced(l, self, add, At(k, i - 1), At(k, i)), self, Insert(k, i, add))
  {
    InsertAt(k, i, add);
    SpliceEnds(l, self, add, k, i);
    hide Spliced, Insert, ChildAt;
    var k', l' := Insert(k, i, add), Spliced(l, self, add, At(k, i - 1), At(k, i));
    forall j | 0 <= j < |k'| ensures ChildAt(l', self, k', j) { SpliceChild(l, self, add, k, i, j); }
    assert Spells(l', self, k');
  }

  lemma SpliceChild(l: Links, self: XMLNode, add: XMLNode, k: seq<XMLNode>, i: nat, j: nat)
    requires self in l && add in l && Spells(l, self, k) && add !in k && self !in k && add != self && i <= |k|
    requires j <= |k|
    requires |Insert(k, i, add)| == |k| + 1
    ensures ChildAt(Spliced(l, self, add, At(k, i - 1), At(k, i)), self, Insert(k, i, add), j)
  {
    InsertNeighbours(k, i, add, j);
    if j == i {
      SpliceEnds(l, self, add, k, i);
    } else {
      assert ChildAt(l, self, k, if j < i then j else j - 1);
      SpliceMoves(l, self, add, k, i, if j < i then j else j - 1);
    }
    hide Spliced, Insert, Spells, At;
  }

  lemma InsertNeighbours(k: seq<XMLNode>, i: nat, x: XMLNode, j: nat)
    requires i <= |k| && j <= |k|
    ensures var k', a := Insert(k, i, x), if j < i then j else j - 1;
      && |k'| == |k| + 1 && k'[j] == (if j == i then x else k[a])
      && At(k', j - 1) == (if j == i then At(k, i - 1) else if a == i then x else At(k, a - 1))
      && At(k', j + 1) == (if j == i then At(k, i) else if a == i - 1 then x else At(k, a + 1))
  {
  }

  lemma SpliceEnds(l: Links, self: XMLNode, add: XMLNode, k: seq<XMLNode>, i: nat)
    requires self in l && add in l && Spells(l, self, k) && add != self && i <= |k|
    ensures var r := Spliced(l, self, add, At(k, i - 1), At(k, i));
      && r[self].first == (if i == 0 then add else At(k, 0))
      && r[self].last == (if i == |k| then add else At(k, |k| - 1))
      && r[add].parent == self && r[add].prev == At(k, i - 1) && r[add].next == At(k, i)
  {
  }

  lemma SpliceSpellsOther(l: Links, t: Tree, self: XMLNode, add: XMLNode, i: nat, n: XMLNode)
    requires Linked(l, t) && self in t && add in t && l[add].parent == null && i <= |t[self]| && n in t && n != self
    ensures Spells(Spliced(l, self, add, At(t[self], i - 1), At(t[self], i)), n, t[n])
  {
    var k, l' := t[n], Spliced(l, self, add, At(t[self], i - 1), At(t[self], i));
    AllListed(l, t, n);
    EndsAtPlace(l, t, self, i);
    forall c | c in k ensures l'[c].parent == l[c].parent && l'[c].prev == l[c].prev && l'[c].next == l[c].next {
      OneParent(l, t, n, c);
    }
    hide Linked, Spells;
    SpellsFrame(l, l', n, k);
  }

  lemma EndsAtPlace(l: Links, t: Tree, self: XMLNode, i: nat)
    requires Linked(l, t) && self in t && i <= |t[self]|
    ensures i < |t[self]| ==> t[self][i] in l && l[t[self][i]].parent == self
    ensures i > 0 ==> t[self][i - 1] in l && l[t[self][i - 1]].parent == self
  {
    if i < |t[self]| { OneParent(l, t, self, t[self][i]); }
    if i > 0 { OneParent(l, t, self, t[self][i - 1]); }
  }

  /** Linking in a node puts it at place i of the child list and changes no other list. */
  lemma SpliceKeeps(l: Links, t: Tree, self: XMLNode, add: XMLNode, i: nat)
    requires Linked(l, t) && self in t && add in t && l[add].parent == null && add != self && self !in t[self]
    requires i <= |t[self]|
    ensures Linked(Spliced(l, self, add, At(t[self], i - 1), At(t[self], i)), t[self := Insert(t[self], i, add)])
  {
    SpliceSpells(l, t, self, add, i);
    SpliceParents(l, t, self, add, i);
  }

  lemma SpliceSpells(l: Links, t: Tree, self: XMLNode, add: XMLNode, i: nat)
    requires Linked(l, t) && self in t && add in t && l[add].parent == null && add != self && self !in t[self]
    requires i <= |t[self]|
    ensures AllSpelled(Spliced(l, self, add, At(t[self], i - 1), At(t[self], i)), t[self := Insert(t[self], i, add)])
  {
    var l' := Spliced(l, self, add, At(t[self], i - 1), At(t[self], i));
    NotAChild(l, t, self, add);
    SpliceSpellsSelf(l, self, add, t[self], i);
    hide Spliced, Insert, Spells;
    forall n | n in t && n != self ensures Spells(l', n, t[n]) { SpliceSpellsOther(l, t, self, add, i, n); }
    SpelledAfter(l', t, self, Insert(t[self], i, add));
  }

  lemma SpliceParents(l: Links, t: Tree, self: XMLNode, add: XMLNode, i: nat)
    requires Linked(l, t) && self in t && add in t && l[add].parent == null && add != self && self !in t[self]
    requires i <= |t[self]|
    ensures ParentsAgree(Spliced(l, self, add, At(t[self], i - 1), At(t[self], i)), t[self := Insert(t[self], i, add)])
  {
    NotAChild(l, t, self, add);
    ListIsDistinct(l, t, self);
    InsertAt(t[self], i, add);
    SpliceOrphans(l, t, self, add, i);
    ParentsAfter(l, Spliced(l, self, add, At(t[self], i - 1), At(t[self], i)), t, self, add, self,
      Insert(t[self], i, add));
  }

  lemma NotAChild(l: Links, t: Tree, self: XMLNode, x: XMLNode)
    requires Linked(l, t) && self in t && x in t && l[x].parent == null
    ensures x !in t[self]
  {
    assert Spells(l, self, t[self]);
    forall i | 0 <= i < |t[self]| ensures t[self][i] != x { assert ChildAt(l, self, t[self], i); }
  }

  lemma SpliceOrphans(l: Links, t: Tree, self: XMLNode, add: XMLNode, i: nat)
    requires Linked(l, t) && self in t && add in t && i <= |t[self]|
    ensures var l' := Spliced(l, self, add, At(t[self], i - 1), At(t[self], i));
      && (forall n :: n in t && n != add ==> l'[n].parent == l[n].parent)
      && l'[add].parent == self
      && (forall n :: n in t && l'[n].parent == null ==> l'[n].prev == null && l'[n].next == null)
  {
    EndsAtPlace(l, t, self, i);
    forall n | n in t ensures ParentAgrees(l, t, n) {}
    hide AllSpelled;
  }

  // ----- no node is above itself -----

  /** Children are lower than their parents. */
  ghost predicate Ranked(t: Tree, height: map<XMLNode, nat>) {
    && height.Keys == t.Keys
    && forall n, c :: n in t && c in t[n] ==> c in t && height[c] < height[n]
  }

  /** x is n or below n. */
  ghost predicate Reaches(t: Tree, height: map<XMLNode, nat>, n: XMLNode, x: XMLNode)
    requires Ranked(t, height) && n in t
    decreases height[n]
  {
    n == x || exists c :: c in t[n] && Reaches(t, height, c, x)
  }

  /** Heights for the tree in which self gets a child of height h: whatever is above self rises with it. */
  ghost function Raised(t: Tree, height: map<XMLNode, nat>, self: XMLNode, h: nat): map<XMLNode, nat>
    requires Ranked(t, height)
  {
    map n | n in t :: if Reaches(t, height, n, self) then height[n] + h + 1 else height[n]
  }

  lemma RaisedRanks(t: Tree, height: map<XMLNode, nat>, self: XMLNode, add: XMLNode, k: seq<XMLNode>)
    requires Ranked(t, height) && self in t && add in t && !Reaches(t, height, add, self)
    requires forall x :: x in k ==> x in t[self] || x == add
    ensures Ranked(t[self := k], Raised(t, height, self, height[add]))
  {
    var h, t' := Raised(t, height, self, height[add]), t[self := k];
    forall n, c | n in t' && c in t'[n] ensures c in t' && h[c] < h[n] {
      if c in t[n] {
        assert Reaches(t, height, c, self) ==> Reaches(t, height, n, self);
      } else {
        assert n == self && c == add && Reaches(t, height, n, self);
      }
    }
  }

  /** A path of a smaller tree is a path of the larger one. */
  lemma {:induction false} ReachesWithin(t: Tree, h: map<XMLNode, nat>, t': Tree, h': map<XMLNode, nat>, n: XMLNode,
                                         x: XMLNode)
    requires Ranked(t, h) && Ranked(t', h') && n in t' && Reaches(t', h', n, x)
    requires forall y :: y in t' ==> y in t && forall c :: c in t'[y] ==> c in t[y]
    ensures Reaches(t, h, n, x)
    decreases h[n]
  {
    if n != x {
      var c :| c in t'[n] && Reaches(t', h', c, x);
      assert c in t[n];
      ReachesWithin(t, h, t', h', c, x);
    }
  }

  lemma ReachesItself(t: Tree, h: map<XMLNode, nat>, n: XMLNode)
    requires Ranked(t, h) && n in t
    ensures Reaches(t, h, n, n)
  {
  }

  /** A node without a parent is below no other. */
  lemma NotBelow(l: Links, t: Tree, h: map<XMLNode, nat>, n: XMLNode, x: XMLNode)
    requires Linked(l, t) && Ranked(t, h) && n in t && x in t && l[x].parent == null && n != x
    ensures !Reaches(t, h, n, x)
  {
    hide Linked, Reaches, Ranked;
    InNoList(l, t, x);
    NotUnder(t, h, n, x);
  }

  lemma {:induction false} NotUnder(t: Tree, h: map<XMLNode, nat>, n: XMLNode, x: XMLNode)
    requires Ranked(t, h) && n in t && n != x && forall m :: m in t ==> x !in t[m]
    ensures !Reaches(t, h, n, x)
    decreases h[n]
  {
    if c :| c in t[n] && Reaches(t, h, c, x) {
      NotUnder(t, h, c, x);
    }
  }

  lemma {:induction false} ReachesLower(t: Tree, h: map<XMLNode, nat>, n: XMLNode, x: XMLNode)
    requires Ranked(t, h) && n in t && Reaches(t, h, n, x)
    ensures x in t && h[x] <= h[n] && (x != n ==> h[x] < h[n])
    decreases h[n]
  {
    if n != x {
      var c :| c in t[n] && Reaches(t, h, c, x);
      ReachesLower(t, h, c, x);
    }
  }

  // ----- which nodes can be inserted -----

  /** The tree after an insertion: the node leaves its place and comes to place i of self's list. */
  ghost function Moved(t: Tree, parent: XMLNode?, add: XMLNode, self: XMLNode, i: nat): (r: Tree)
    requires self in t && i <= |Detached(t, parent, add)[self]|
    ensures r.Keys == t.Keys
  {
    Placed(Detached(t, parent, add), self, i, add)
  }

  /** No edge is lost but the one to the node itself, and self gets it. */
  lemma MovedEdges(t: Tree, parent: XMLNode?, add: XMLNode, self: XMLNode, i: nat)
    requires self in t && i <= |Detached(t, parent, add)[self]|
    ensures var r := Moved(t, parent, add, self, i);
      && add in r[self]
      && (forall n, c :: n in t && c in t[n] && c != add ==> c in r[n])
      && (forall n, c :: n in t && c in r[n] ==> c in t[n] || (n == self && c == add))
  {
    if parent != null && parent in t {
      WithoutSubset(t[parent], add);
      WithoutKeeps(t[parent], add);
    }
  }

  /** Along a path from the node to its new parent, no ranking of the new tree falls. */
  lemma {:induction false} PathStays(t: Tree, h: map<XMLNode, nat>, r: Tree, h': map<XMLNode, nat>, add: XMLNode,
                                     n: XMLNode, x: XMLNode)
    requires Ranked(t, h) && Ranked(r, h') && r.Keys == t.Keys && n in t && add in t && h[n] <= h[add]
    requires forall y, c :: y in t && c in t[y] && c != add ==> c in r[y]
    requires Reaches(t, h, n, x)
    ensures x in t && h'[x] <= h'[n]
    decreases h[n]
  {
    if n != x {
      var c :| c in t[n] && Reaches(t, h, c, x);
      assert h[c] < h[n] <= h[add] && c in r[n];
      PathStays(t, h, r, h', add, c, x);
    }
  }

  /** The new tree has a ranking, that is, no cycle, if and only if the node is not above its new parent, and not that
      parent itself. */
  lemma MovableIff(t: Tree, h: map<XMLNode, nat>, parent: XMLNode?, add: XMLNode, self: XMLNode, i: nat)
    requires Ranked(t, h) && self in t && add in t && i <= |Detached(t, parent, add)[self]|
    ensures (exists h' :: Ranked(Moved(t, parent, add, self, i), h')) <==> !Reaches(t, h, add, self)
  {
    var r := Moved(t, parent, add, self, i);
    MovedEdges(t, parent, add, self, i);
    hide Moved, Raised;
    if Reaches(t, h, add, self) {
      forall h' ensures !Ranked(r, h') {
        if Ranked(r, h') {
          PathStays(t, h, r, h', add, add, self);
          assert false;
        }
      }
    } else {
      MovedRanks(t, h, parent, add, self, i);
    }
  }

  /** A node inserted into itself: nothing stops the code, and its links have no ranking. */
  lemma InsertedIntoItself(t: Tree, h: map<XMLNode, nat>, n: XMLNode)
    requires Ranked(t, h) && n in t
    ensures !exists h' :: Ranked(Moved(t, null, n, n, 0), h')
  {
    ReachesItself(t, h, n);
    MovableIff(t, h, null, n, n, 0);
  }

  lemma MovedRanks(t: Tree, h: map<XMLNode, nat>, parent: XMLNode?, add: XMLNode, self: XMLNode, i: nat)
    requires Ranked(t, h) && self in t && add in t && i <= |Detached(t, parent, add)[self]| && !Reaches(t, h, add, self)
    ensures Ranked(Detached(t, parent, add), h)
    ensures Ranked(Moved(t, parent, add, self, i), Raised(Detached(t, parent, add), h, self, h[add]))
  {
    var d := Detached(t, parent, add);
    if parent != null && parent in t {
      WithoutSubset(t[parent], add);
      RankedWithout(t, h, parent, Without(t[parent], add));
    }
    DetachedReaches(t, h, parent, add, self);
    RaisedRanks(d, h, self, add, Insert(d[self], i, add));
  }

  // ----- deletion -----

  /** What is left of the nodes kept its parent. */
  ghost predicate Shrunk(l: Links, t: Tree, h: map<XMLNode, nat>, l': Links, t': Tree, h': map<XMLNode, nat>) {
    && Ranked(t, h) && Ranked(t', h') && l.Keys == t.Keys && l'.Keys == t'.Keys
    && forall x :: x in t' ==> x in t && h'[x] == h[x] && l'[x].parent == l[x].parent
  }

  /** The nodes gone are n and all below it. */
  ghost predicate Gone(l: Links, t: Tree, h: map<XMLNode, nat>, l': Links, t': Tree, h': map<XMLNode, nat>,
                       n: XMLNode) {
    && Shrunk(l, t, h, l', t', h') && n in t
    && (forall x :: x in t' ==> t'[x] == t[x])
    && (forall x :: x in t ==> (x in t' <==> !Reaches(t, h, n, x)))
  }

  /** The nodes gone are below self; of its children some are left. */
  ghost predicate Trimmed(l: Links, t: Tree, h: map<XMLNode, nat>, l': Links, t': Tree, h': map<XMLNode, nat>,
                          self: XMLNode) {
    && Shrunk(l, t, h, l', t', h') && self in t'
    && (forall x :: x in t' && x != self ==> t'[x] == t[x])
    && (forall c :: c in t'[self] ==> c in t[self])
    && (forall x :: x in t && x !in t' ==> Reaches(t, h, self, x))
  }

  lemma NotAbove(t: Tree, h: map<XMLNode, nat>, self: XMLNode, child: XMLNode)
    requires Ranked(t, h) && self in t && child in t && h[child] < h[self]
    ensures !Reaches(t, h, child, self) && Reaches(t, h, child, child)
  {
    if Reaches(t, h, child, self) { ReachesLower(t, h, child, self); }
  }

  lemma StepShrinks(l: Links, t: Tree, h: map<XMLNode, nat>, l0: Links, t0: Tree, h0: map<XMLNode, nat>,
                    l1: Links, t1: Tree, l2: Links, t2: Tree, h2: map<XMLNode, nat>, child: XMLNode)
    requires Shrunk(l, t, h, l0, t0, h0) && Shrunk(l1, t1, h0, l2, t2, h2) && t1.Keys == t0.Keys && child !in t2
    requires l1.Keys == l0.Keys && forall x :: x in l0 && x != child ==> l1[x].parent == l0[x].parent
    ensures Shrunk(l, t, h, l2, t2, h2)
  {
    hide Ranked;
  }

  /** One turn of DeleteChildren: a child is unlinked, then deleted. */
  lemma TrimmedStep(l: Links, t: Tree, h: map<XMLNode, nat>, l0: Links, t0: Tree, h0: map<XMLNode, nat>,
                    l1: Links, l2: Links, t2: Tree, h2: map<XMLNode, nat>, self: XMLNode, child: XMLNode)
    requires Trimmed(l, t, h, l0, t0, h0, self) && child in t0[self]
    requires l1.Keys == l0.Keys && forall x :: x in l0 && x != child ==> l1[x].parent == l0[x].parent
    requires Gone(l1, Detached(t0, self, child), h0, l2, t2, h2, child)
    ensures Trimmed(l, t, h, l2, t2, h2, self)
  {
    var t1 := Detached(t0, self, child);
    ChildIsBelow(l, t, h, l0, t0, h0, self, child);
    hide Reaches, Ranked;
    NotAboveParent(t1, h0, self, child);
    hide Detached;
    StepShrinks(l, t, h, l0, t0, h0, l1, t1, l2, t2, h2, child);
    hide Shrunk;
    TrimmedLists(l, t, h, l0, t0, h0, l1, l2, t2, h2, self, child);
    TrimmedGone(l, t, h, l0, t0, h0, l1, l2, t2, h2, self, child);
  }

  lemma ChildIsBelow(l: Links, t: Tree, h: map<XMLNode, nat>, l0: Links, t0: Tree, h0: map<XMLNode, nat>,
                     self: XMLNode, child: XMLNode)
    requires Trimmed(l, t, h, l0, t0, h0, self) && child in t0[self]
    ensures child in t0 && child in t && child in t[self] && h0[child] < h0[self]
    ensures Ranked(Detached(t0, self, child), h0)
  {
    WithoutSubset(t0[self], child);
  }

  lemma NotAboveParent(t: Tree, h: map<XMLNode, nat>, self: XMLNode, child: XMLNode)
    requires Ranked(t, h) && self in t && child in t && h[child] < h[self]
    ensures !Reaches(t, h, child, self) && Reaches(t, h, child, child)
  {
    NotAbove(t, h, self, child);
  }

  lemma TrimmedLists(l: Links, t: Tree, h: map<XMLNode, nat>, l0: Links, t0: Tree, h0: map<XMLNode, nat>,
                     l1: Links, l2: Links, t2: Tree, h2: map<XMLNode, nat>, self: XMLNode, child: XMLNode)
    requires Trimmed(l, t, h, l0, t0, h0, self) && child in t0[self] && self in t0
    requires Gone(l1, Detached(t0, self, child), h0, l2, t2, h2, child)
    requires !Reaches(Detached(t0, self, child), h0, child, self)
    ensures self in t2 && (forall x :: x in t2 && x != self ==> t2[x] == t[x])
    ensures forall c :: c in t2[self] ==> c in t[self]
  {
    hide Reaches, Without, Ranked;
    WithoutSubset(t0[self], child);
  }

  lemma TrimmedGone(l: Links, t: Tree, h: map<XMLNode, nat>, l0: Links, t0: Tree, h0: map<XMLNode, nat>,
                    l1: Links, l2: Links, t2: Tree, h2: map<XMLNode, nat>, self: XMLNode, child: XMLNode)
    requires Trimmed(l, t, h, l0, t0, h0, self) && child in t0[self] && child in t0 && child in t[self]
    requires Gone(l1, Detached(t0, self, child), h0, l2, t2, h2, child)
    ensures forall x :: x in t && x !in t2 ==> Reaches(t, h, self, x)
  {
    var t1 := Detached(t0, self, child);
    WithoutSubset(t0[self], child);
    hide Reaches, Without, Ranked;
    forall x | x in t && x !in t2 ensures Reaches(t, h, self, x) {
      if x in t0 {
        GoneFromBelow(t, h, t0, t1, h0, self, child, x);
      }
    }
  }

  lemma GoneFromBelow(t: Tree, h: map<XMLNode, nat>, t0: Tree, t1: Tree, h0: map<XMLNode, nat>, self: XMLNode,
                      child: XMLNode, x: XMLNode)
    requires Ranked(t, h) && Ranked(t1, h0) && self in t && child in t[self] && child in t1 && Reaches(t1, h0, child, x)
    requires forall y :: y in t1 ==> y in t && forall c :: c in t1[y] ==> c in t[y]
    ensures Reaches(t, h, self, x)
  {
    ReachesWithin(t, h, t1, h0, child, x);
  }

  /** When no child is left, nothing below is. */
  lemma {:induction false} NothingBelow(l: Links, t: Tree, h: map<XMLNode, nat>, l': Links, t': Tree,
                                        h': map<XMLNode, nat>,
                                        self: XMLNode, n: XMLNode, x: XMLNode)
    requires Linked(l, t) && Trimmed(l, t, h, l', t', h', self) && Linked(l', t') && t'[self] == []
    requires n in t && (n == self || n !in t') && Reaches(t, h, n, x) && x != n
    ensures x !in t'
    decreases h[n]
  {
    hide AllSpelled, ParentsAgree;
    var c :| c in t[n] && Reaches(t, h, c, x);
    ChildGone(l, t, l', t', self, n, c);
    if c != x {
      NothingBelow(l, t, h, l', t', h', self, c, x);
    }
  }

  lemma ChildGone(l: Links, t: Tree, l': Links, t': Tree, self: XMLNode, n: XMLNode, c: XMLNode)
    requires Linked(l, t) && Linked(l', t') && self in t' && t'[self] == []
    requires n in t && (n == self || n !in t') && c in t[n]
    requires forall x :: x in t' ==> x in t && l'[x].parent == l[x].parent
    ensures c !in t'
  {
    OneParent(l, t, n, c);
    hide AllSpelled;
    assert ParentsAgree(l', t') && l[c].parent != null;
  }

  lemma TrimmedBare(l: Links, t: Tree, h: map<XMLNode, nat>, l': Links, t': Tree, h': map<XMLNode, nat>, self: XMLNode)
    requires Linked(l, t) && Trimmed(l, t, h, l', t', h', self) && Linked(l', t') && t'[self] == []
    ensures forall x :: x in t ==> (x in t' <==> x == self || !Reaches(t, h, self, x))
  {
    forall x | x in t && x != self && Reaches(t, h, self, x) ensures x !in t' {
      NothingBelow(l, t, h, l', t', h', self, self, x);
    }
  }

  // ----- nodes and the document -----

  /** The unlinked list holds, once each, the nodes without a parent, but for the document's own and those in `loose`,
      which are about to be linked in or deleted. */
  ghost predicate Tracked(l: Links, root: XMLNode, unlinked: seq<XMLNode>, loose: set<XMLNode>) {
    && Distinct(unlinked)
    && (forall n :: n in unlinked ==> n in l && l[n].parent == null && n != root)
    && (forall n :: n in l && l[n].parent == null && n != root && n !in loose ==> n in unlinked)
  }

  /** The links, the tree they stand for and the unlinked list fit together. */
  ghost predicate Consistent(l: Links, t: Tree, height: map<XMLNode, nat>, root: XMLNode, unlinked: seq<XMLNode>,
                             loose: set<XMLNode>) {
    && Ranked(t, height) && Linked(l, t) && Tracked(l, root, unlinked, loose)
    && root in l && l[root].parent == null && root !in loose
  }

  lemma RankedWithout(t: Tree, height: map<XMLNode, nat>, self: XMLNode, k: seq<XMLNode>)
    requires Ranked(t, height) && self in t && forall x :: x in k ==> x in t[self]
    ensures Ranked(t[self := k], height)
  {
  }

  lemma TrackedAfter(l: Links, l': Links, root: XMLNode, unlinked: seq<XMLNode>, loose: set<XMLNode>, x: XMLNode)
    requires Tracked(l, root, unlinked, loose) && l'.Keys == l.Keys && x in l && x !in unlinked
    requires forall n :: n in l && n != x ==> l'[n].parent == l[n].parent
    ensures Tracked(l', root, unlinked, loose + {x})
    ensures l'[x].parent != null ==> Tracked(l', root, unlinked, loose - {x})
  {
  }

  lemma NotAboveItself(l: Links, t: Tree, height: map<XMLNode, nat>, self: XMLNode)
    requires Ranked(t, height) && self in t
    ensures self !in t[self]
  {
  }

  lemma UnlinkConsistent(l: Links, t: Tree, height: map<XMLNode, nat>, root: XMLNode, unlinked: seq<XMLNode>,
                         loose: set<XMLNode>, self: XMLNode, child: XMLNode)
    requires Consistent(l, t, height, root, unlinked, loose) && self in t && child in t && l[child].parent == self
    ensures Consistent(Unlinked(l, self, child), Detached(t, self, child), height, root, unlinked, loose + {child})
    ensures child !in unlinked && child != self
  {
    NotAboveItself(l, t, height, self);
    UnlinkKeeps(l, t, self, child);
    UnlinkOrphans(l, t, self, child);
    InList(l, t, self, child);
    hide Linked, Unlinked, Without;
    RankedWithout(t, height, self, Without(t[self], child));
    TrackedAfter(l, Unlinked(l, self, child), root, unlinked, loose, child);
    hide Ranked, Tracked;
  }

  lemma InList(l: Links, t: Tree, self: XMLNode, child: XMLNode)
    requires Linked(l, t) && self in t && child in t && l[child].parent == self
    ensures child in t[self] && forall x :: x in Without(t[self], child) ==> x in t[self]
  {
    assert ParentAgrees(l, t, child);
    ListIsDistinct(l, t, self);
    var i :| 0 <= i < |t[self]| && t[self][i] == child;
    WithoutAt(t[self], i);
  }

  lemma DetachedReaches(t: Tree, height: map<XMLNode, nat>, parent: XMLNode?, add: XMLNode, self: XMLNode)
    requires Ranked(t, height) && add in t && self in t && Ranked(Detached(t, parent, add), height)
    requires !Reaches(t, height, add, self)
    ensures !Reaches(Detached(t, parent, add), height, add, self)
  {
    if parent != null && parent in t && Reaches(Detached(t, parent, add), height, add, self) {
      WithoutSubset(t[parent], add);
      ReachesWithin(t, height, Detached(t, parent, add), height, add, self);
    }
  }

  lemma SpliceConsistent(l: Links, t: Tree, height: map<XMLNode, nat>, root: XMLNode, unlinked: seq<XMLNode>,
                         self: XMLNode, add: XMLNode, i: nat)
    requires Consistent(l, t, height, root, unlinked, {add}) && self in t && add in t && l[add].parent == null
    requires add !in unlinked && !Reaches(t, height, add, self) && i <= |t[self]|
    ensures Consistent(Spliced(l, self, add, At(t[self], i - 1), At(t[self], i)), t[self := Insert(t[self], i, add)],
                       Raised(t, height, self, height[add]), root, unlinked, {})
  {
    hide AllSpelled, ParentsAgree, Spells, At;
    NotAboveItself(l, t, height, self);
    SpliceKeeps(l, t, self, add, i);
    SpliceOrphans(l, t, self, add, i);
    NotAChild(l, t, self, add);
    ListIsDistinct(l, t, self);
    InsertAt(t[self], i, add);
    RaisedRanks(t, height, self, add, Insert(t[self], i, add));
    hide Linked, Spliced, Insert, Ranked;
    TrackedAfter(l, Spliced(l, self, add, At(t[self], i - 1), At(t[self], i)), root, unlinked, {add}, add);
    assert {add} - {add} == {};
    hide Tracked;
  }

  /** A tracked set may be looser. */
  lemma LooseMore(l: Links, t: Tree, height: map<XMLNode, nat>, root: XMLNode, unlinked: seq<XMLNode>,
                  loose: set<XMLNode>, x: XMLNode)
    requires Consistent(l, t, height, root, unlinked, loose - {x}) && root !in loose
    ensures Consistent(l, t, height, root, unlinked, loose)
  {
    hide Linked, Ranked;
  }

  lemma RemovedLinked(l: Links, t: Tree, x: XMLNode)
    requires Linked(l, t) && x in t && l[x].parent == null && t[x] == []
    ensures Linked(l - {x}, t - {x})
  {
    forall n | n in t - {x} ensures Spells(l - {x}, n, t[n]) && ParentAgrees(l - {x}, t - {x}, n) {
      NotAChild(l, t, n, x);
      AllListed(l, t, n);
      SpellsFrame(l, l - {x}, n, t[n]);
      assert ParentAgrees(l, t, n);
    }
  }

  lemma RemovedRanked(l: Links, t: Tree, height: map<XMLNode, nat>, x: XMLNode)
    requires Linked(l, t) && Ranked(t, height) && x in t && l[x].parent == null
    ensures Ranked(t - {x}, height - {x})
  {
    hide Linked;
    InNoList(l, t, x);
  }

  lemma InNoList(l: Links, t: Tree, x: XMLNode)
    requires Linked(l, t) && x in t && l[x].parent == null
    ensures forall n :: n in t ==> x !in t[n]
  {
    forall n | n in t ensures x !in t[n] { NotAChild(l, t, n, x); }
  }

  /** A node without parent and children leaves the tree. */
  lemma RemovedConsistent(l: Links, t: Tree, height: map<XMLNode, nat>, root: XMLNode, unlinked: seq<XMLNode>,
                          loose: set<XMLNode>, x: XMLNode)
    requires Consistent(l, t, height, root, unlinked, loose) && x in t && l[x].parent == null && t[x] == []
    requires x !in unlinked && x != root
    ensures Consistent(l - {x}, t - {x}, height - {x}, root, unlinked, loose - {x})
  {
    RemovedLinked(l, t, x);
    RemovedRanked(l, t, height, x);
    RemovedTracked(l, root, unlinked, loose, x);
    hide Linked, Ranked, Tracked;
  }

  lemma RemovedTracked(l: Links, root: XMLNode, unlinked: seq<XMLNode>, loose: set<XMLNode>, x: XMLNode)
    requires Tracked(l, root, unlinked, loose) && x !in unlinked
    ensures Tracked(l - {x}, root, unlinked, loose - {x})
  {
  }

  /** After the children the node itself goes. */
  lemma GoneWithItself(l: Links, t: Tree, h: map<XMLNode, nat>, l': Links, t': Tree, h': map<XMLNode, nat>, n: XMLNode)
    requires Linked(l, t) && Trimmed(l, t, h, l', t', h', n) && Linked(l', t') && t'[n] == [] && l'[n].parent == null
    ensures Gone(l, t, h, l' - {n}, t' - {n}, h' - {n}, n)
  {
    hide Linked, Reaches;
    TrimmedBare(l, t, h, l', t', h', n);
    RemovedRanked(l', t', h', n);
    ReachesItself(t, h, n);
  }

  lemma AddedSpelled(l: Links, t: Tree, x: XMLNode, n: XMLNode)
    requires Linked(l, t) && x !in t && n in t
    ensures Spells(l[x := Link(null, null, null, null, null)], n, t[n])
  {
    AllListed(l, t, n);
    SpellsFrame(l, l[x := Link(null, null, null, null, null)], n, t[n]);
  }

  lemma AllListed(l: Links, t: Tree, n: XMLNode)
    requires Linked(l, t) && n in t
    ensures Spells(l, n, t[n]) && forall c :: c in t[n] ==> c in t
  {
    assert Spells(l, n, t[n]);
    forall c | c in t[n] ensures c in t { OneParent(l, t, n, c); }
  }

  lemma AddedParent(l: Links, t: Tree, x: XMLNode, n: XMLNode)
    requires Linked(l, t) && x !in t && n in t
    ensures ParentAgrees(l[x := Link(null, null, null, null, null)], t[x := []], n)
  {
    assert ParentAgrees(l, t, n);
  }

  lemma AddedLinked(l: Links, t: Tree, x: XMLNode)
    requires Linked(l, t) && x !in t
    ensures Linked(l[x := Link(null, null, null, null, null)], t[x := []])
  {
    var l', t' := l[x := Link(null, null, null, null, null)], t[x := []];
    assert Spells(l', x, []) && ParentAgrees(l', t', x);
    hide Spells, ParentAgrees;
    forall n | n in t ensures Spells(l', n, t[n]) && ParentAgrees(l', t', n) {
      AddedSpelled(l, t, x, n);
      AddedParent(l, t, x, n);
    }
  }

  /** A new node joins the document. */
  lemma AddedConsistent(l: Links, t: Tree, height: map<XMLNode, nat>, root: XMLNode, unlinked: seq<XMLNode>, x: XMLNode)
    requires Consistent(l, t, height, root, unlinked, {}) && x !in t
    ensures Consistent(l[x := Link(null, null, null, null, null)], t[x := []], height[x := 0], root, unlinked + [x], {})
  {
    AddedLinked(l, t, x);
    hide Linked;
    AddedTracked(l, root, unlinked, x);
    hide Tracked;
  }

  lemma AddedTracked(l: Links, root: XMLNode, unlinked: seq<XMLNode>, x: XMLNode)
    requires Tracked(l, root, unlinked, {}) && x !in l && root in l
    ensures Tracked(l[x := Link(null, null, null, null, null)], root, unlinked + [x], {})
  {
    assert x !in unlinked;
  }

  /** Taking x off the unlinked list. */
  lemma RootConsistent(root: XMLNode)
    ensures Consistent(map[root := Link(null, null, null, null, null)], map[root := []], map[root := 0], root, [], {})
  {
  }

  lemma MarkedConsistent(l: Links, t: Tree, height: map<XMLNode, nat>, root: XMLNode, unlinked: seq<XMLNode>,
                         unlinked': seq<XMLNode>, loose: set<XMLNode>, x: XMLNode)
    requires Consistent(l, t, height, root, unlinked, loose) && x in l && l[x].parent == null && x != root
    requires Distinct(unlinked') && forall y :: y in unlinked' <==> y in unlinked && y != x
    ensures Consistent(l, t, height, root, unlinked', loose + {x})
  {
    hide Linked, Ranked;
  }

  /** l are the links of its nodes. */
  ghost predicate Holds(l: Links)
    reads l.Keys
  {
    forall n :: n in l ==> n.Snapshot() == l[n]
  }

  /** With no parentless nodes but the root, and the root without children, the root is all there is: from any other
      node the parents would rise for ever. */
  lemma OnlyTheRoot(l: Links, t: Tree, h: map<XMLNode, nat>, root: XMLNode)
    requires Consistent(l, t, h, root, [], {}) && t[root] == []
    ensures t == map[root := []]
  {
    forall n | n in t ensures n == root {
      if n != root {
        var top := Highest(h, h.Keys);
        NoOther(l, t, h, root, n, top);
      }
    }
  }

  lemma {:induction false} NoOther(l: Links, t: Tree, h: map<XMLNode, nat>, root: XMLNode, n: XMLNode, top: nat)
    requires Consistent(l, t, h, root, [], {}) && t[root] == [] && n in t && forall x :: x in h ==> h[x] <= top
    ensures n == root
    decreases top - h[n]
  {
    if n != root {
      assert ParentAgrees(l, t, n) && l[n].parent != null;
      NoOther(l, t, h, root, l[n].parent, top);
    }
  }

  lemma {:induction false} Highest(h: map<XMLNode, nat>, s: set<XMLNode>) returns (top: nat)
    requires s <= h.Keys
    ensures forall x :: x in s ==> h[x] <= top
    decreases s
  {
    top := 0;
    if s != {} {
      var x :| x in s;
      var rest := Highest(h, s - {x});
      top := if h[x] > rest then h[x] else rest;
    }
  }

  class XMLNode {
    const document: XMLDocument
    var parent: XMLNode?
    var firstChild: XMLNode?
    var lastChild: XMLNode?
    var prev: XMLNode?
    var next: XMLNode?

    constructor (document: XMLDocument)
      ensures this.document == document
      ensures parent == null && firstChild == null && lastChild == null && prev == null && next == null
    {
      this.document := document;
      parent, firstChild, lastChild, prev, next := null, null, null, null, null;
    }

    ghost function Snapshot(): Link
      reads this
    {
      Link(parent, firstChild, lastChild, prev, next)
    }

    /** The pointer assignments of Unlink. */
    method UnlinkPointers(child: XMLNode, ghost nodes: set<XMLNode>)
      requires this in nodes && child in nodes && child != this
      requires child.prev != null ==> child.prev in nodes && child.prev != child
      requires child.next != null ==> child.next in nodes && child.next != child
      modifies nodes
      ensures forall n ::
        n in nodes ==> n.Snapshot() == UnlinkedOne(old(n.Snapshot()), n, this, child, old(child.Snapshot()))
    {
      if child == firstChild {
        firstChild := firstChild.next;
      }
      if child == lastChild {
        lastChild := lastChild.prev;
      }
      if child.prev != null {
        child.prev.next := child.next;
      }
      if child.next != null {
        child.next.prev := child.prev;
      }
      child.next := null;
      child.prev := null;
      child.parent := null;
    }

    method Unlink(child: XMLNode, ghost loose: set<XMLNode>)
      requires document.Valid(loose) && this in document.tree && child in document.tree && child.parent == this
      modifies document`tree, document.tree.Keys
      ensures document.Valid(loose + {child}) && child.parent == null && child !in document.unlinked
      ensures document.tree == Detached(old(document.tree), this, child)
      ensures document.Snapshot() == Unlinked(old(document.Snapshot()), this, child)
    {
      hide Consistent, Unlinked, Detached, XMLNode.Snapshot;
      ghost var l, t := document.Snapshot(), document.tree;
      NeighboursOf(child, loose);
      ParentShown(child);
      UnlinkConsistent(l, t, document.height, document.root, document.unlinked, loose, this, child);
      UnlinkPointers(child, t.Keys);
      document.tree := Detached(t, this, child);
      SnapshotUnlinked(l, child);
      ParentShown(child);
      assert document.Snapshot()[child].parent == null;
    }

    static lemma ParentShown(n: XMLNode)
      ensures n.Snapshot().parent == n.parent
    {
    }

    lemma SnapshotUnlinked(l: Links, child: XMLNode)
      requires l.Keys == document.tree.Keys && this in l && child in l
      requires forall n :: n in l ==> n.Snapshot() == UnlinkedOne(l[n], n, this, child, l[child])
      ensures document.Snapshot() == Unlinked(l, this, child)
    {
    }

    lemma SnapshotSpliced(l: Links, add: XMLNode, before: XMLNode?, after: XMLNode?)
      requires l.Keys == document.tree.Keys && this in l && add in l
      requires forall n :: n in l ==> n.Snapshot() == SplicedOne(l[n], n, this, add, before, after)
      ensures document.Snapshot() == Spliced(l, this, add, before, after)
    {
    }

    lemma NeighboursOf(child: XMLNode, loose: set<XMLNode>)
      requires document.Valid(loose) && this in document.tree && child in document.tree && child.parent == this
      ensures child.prev != null ==> child.prev in document.tree && child.prev != child
      ensures child.next != null ==> child.next in document.tree && child.next != child
    {
      SiblingsShareParent(document.Snapshot(), document.tree, child);
    }

    // ----- insertion -----

    /** InsertChildPreamble: after it the node has no parent and is not in the unlinked list. */
    method InsertChildPreamble(insertThis: XMLNode)
      requires document.Valid({}) && insertThis in document.tree && insertThis != document.root
      modifies document`tree, document`unlinked, document.tree.Keys
      ensures document.Valid({insertThis}) && insertThis.parent == null && insertThis !in document.unlinked
      ensures document.tree == Detached(old(document.tree), old(insertThis.parent), insertThis)
    {
      hide XMLDocument.Valid, Without;
      if insertThis.parent != null {
        ParentInTree(insertThis);
        insertThis.parent.Unlink(insertThis, {});
        assert {} + {insertThis} == {insertThis};
      } else {
        document.Claim(insertThis, {});
        assert {} + {insertThis} == {insertThis};
      }
    }

    lemma ParentInTree(x: XMLNode)
      requires document.Valid({}) && x in document.tree && x.parent != null
      ensures x.document == document && x.parent in document.tree && x.parent.document == document
    {
      assert ParentAgrees(document.Snapshot(), document.tree, x);
    }

    /** The node may be moved here: it is one of the document's, but not this node nor one above it. */
    ghost predicate CanTake(addThis: XMLNode)
      reads document, document.tree.Keys
      requires document.Valid({}) && this in document.tree
    {
      && addThis in document.tree && addThis != document.root
      && !Reaches(document.tree, document.height, addThis, this)
    }

    lemma EndsOf(loose: set<XMLNode>)
      requires document.Valid(loose) && this in document.tree
      ensures var k := document.tree[this];
        && firstChild == At(k, 0) && lastChild == At(k, |k| - 1) && this !in k && Distinct(k)
        && forall x :: x in k ==> x in document.tree && x.parent == this
    {
      var l := document.Snapshot();
      assert Spells(l, this, document.tree[this]);
      forall x | x in document.tree[this] ensures x in document.tree && x.parent == this {
        OneParent(l, document.tree, this, x);
      }
      NotAboveItself(l, document.tree, document.height, this);
    }

    /** addThis has no parent, is not tracked as unlinked, and may become a child of this node. */
    ghost predicate Ready(addThis: XMLNode)
      reads document, document.tree.Keys
    {
      && document.Valid({addThis}) && this in document.tree && addThis in document.tree
      && addThis.parent == null && addThis !in document.unlinked
      && !Reaches(document.tree, document.height, addThis, this)
    }

    /** InsertChildPreamble for a node that is to become a child of this one. */
    method TakeOut(addThis: XMLNode)
      requires document.Valid({}) && this in document.tree && CanTake(addThis)
      modifies document`tree, document`unlinked, document.tree.Keys
      ensures Ready(addThis) && document.tree == Detached(old(document.tree), old(addThis.parent), addThis)
    {
      hide Linked, Tracked, Detached, Reaches;
      ghost var t, h, parent := document.tree, document.height, addThis.parent;
      assert Ranked(t, h) && !Reaches(t, h, addThis, this);
      InsertChildPreamble(addThis);
      DetachedReaches(t, h, parent, addThis, this);
    }

    lemma ReadyToSplice(addThis: XMLNode, i: nat)
      requires Ready(addThis) && i <= |document.tree[this]|
      ensures var l, t, k := document.Snapshot(), document.tree, document.tree[this];
        Consistent(Spliced(l, this, addThis, At(k, i - 1), At(k, i)), Placed(t, this, i, addThis),
                   Raised(t, document.height, this, document.height[addThis]), document.root, document.unlinked, {})
    {
      SpliceConsistent(document.Snapshot(), document.tree, document.height, document.root, document.unlinked, this,
        addThis, i);
    }

    /** What the pointer assignments of an insertion rely on. */
    lemma ReadyEnds(addThis: XMLNode)
      requires Ready(addThis)
      ensures document.root != null && forall n :: n in document.tree ==> n.document == document
      ensures this in document.tree && addThis in document.tree
      ensures addThis != this && addThis.prev == null && addThis.next == null
      ensures var l, k := document.Snapshot(), document.tree[this];
        Holds(l) && l[this].first == At(k, 0) && l[this].last == At(k, |k| - 1) && At(k, -1) == At(k, |k|) == null
      ensures lastChild == null <==> firstChild == null
      ensures lastChild != null ==> lastChild in document.tree && lastChild != addThis
      ensures firstChild != null ==> firstChild in document.tree && firstChild != addThis
    {
      EndsOf({addThis});
      assert ParentAgrees(document.Snapshot(), document.tree, addThis);
      NotAChild(document.Snapshot(), document.tree, this, addThis);
    }

    /** The ghost tree follows the links, which have just been spliced. */
    ghost method Follow(l: Links, height: map<XMLNode, nat>, addThis: XMLNode, before: XMLNode?, after: XMLNode?,
                        tree: Tree)
      requires document.root != null && this in l && addThis in l && l.Keys == tree.Keys
      requires forall n :: n in l ==> n.document == document
      requires Consistent(Spliced(l, this, addThis, before, after), tree, height, document.root, document.unlinked, {})
      requires forall n :: n in l ==> n.Snapshot() == SplicedOne(l[n], n, this, addThis, before, after)
      modifies document`tree, document`height
      ensures document.Valid({}) && document.tree == tree
    {
      hide Consistent, SplicedOne;
      document.height := height;
      document.tree := tree;
      SnapshotSpliced(l, addThis, before, after);
    }

    method LinkLast(addThis: XMLNode)
      requires Ready(addThis)
      modifies document`tree, document`height, document.tree.Keys
      ensures document.Valid({})
      ensures document.tree == Placed(old(document.tree), this, |old(document.tree)[this]|, addThis)
    {
      ghost var l, t := document.Snapshot(), document.tree;
      ghost var height, i := Raised(t, document.height, this, document.height[addThis]), |t[this]|;
      hide At, Consistent, Spliced, Raised, Reaches, SplicedOne, Placed, Ready, XMLDocument.Valid;
      hide XMLDocument.Snapshot, Holds;
      ReadyEnds(addThis);
      ReadyToSplice(addThis, i);
      AppendPointers(addThis, l);
      Follow(l, height, addThis, l[this].last, null, Placed(t, this, i, addThis));
    }

    method LinkFirst(addThis: XMLNode)
      requires Ready(addThis)
      modifies document`tree, document`height, document.tree.Keys
      ensures document.Valid({}) && document.tree == Placed(old(document.tree), this, 0, addThis)
    {
      ghost var l, t := document.Snapshot(), document.tree;
      ghost var height := Raised(t, document.height, this, document.height[addThis]);
      hide At, Consistent, Spliced, Raised, Reaches, SplicedOne, Placed, Ready, XMLDocument.Valid;
      hide XMLDocument.Snapshot, Holds;
      ReadyEnds(addThis);
      ReadyToSplice(addThis, 0);
      PrependPointers(addThis, l);
      Follow(l, height, addThis, null, l[this].first, Placed(t, this, 0, addThis));
    }

    /** InsertEndChild: the node leaves its place, if it has one, and becomes the last child. */
    method InsertEndChild(addThis: XMLNode) returns (r: XMLNode?)
      requires document.Valid({}) && this in document.tree
      requires addThis.document == document ==> CanTake(addThis)
      modifies document`tree, document`height, document`unlinked, document.tree.Keys
      ensures document.Valid({})
      ensures addThis.document != document ==>
        r == null && document.tree == old(document.tree) && document.unlinked == old(document.unlinked)
      ensures addThis.document == document ==>
        && r == addThis
        && var t := Detached(old(document.tree), old(addThis.parent), addThis);
           document.tree == Placed(t, this, |t[this]|, addThis)
    {
      if addThis.document != document {
        return null;
      }
      hide Linked, Tracked, Consistent, Detached, Reaches, Placed;
      TakeOut(addThis);
      LinkLast(addThis);
      return addThis;
    }

    /** InsertFirstChild: the node leaves its place, if it has one, and becomes the first child. */
    method InsertFirstChild(addThis: XMLNode) returns (r: XMLNode?)
      requires document.Valid({}) && this in document.tree
      requires addThis.document == document ==> CanTake(addThis)
      modifies document`tree, document`height, document`unlinked, document.tree.Keys
      ensures document.Valid({})
      ensures addThis.document != document ==>
        r == null && document.tree == old(document.tree) && document.unlinked == old(document.unlinked)
      ensures addThis.document == document ==>
        && r == addThis
        && document.tree == Placed(Detached(old(document.tree), old(addThis.parent), addThis), this, 0, addThis)
    {
      if addThis.document != document {
        return null;
      }
      hide Linked, Tracked, Consistent, Detached, Reaches, Placed;
      TakeOut(addThis);
      LinkFirst(addThis);
      return addThis;
    }

    /** The node is to go after afterThis, which is the only other child after it: unlinking it leaves afterThis without
        a next sibling, whose prev is then assigned. */
    ghost predicate Dangles(afterThis: XMLNode, addThis: XMLNode)
      reads afterThis, addThis
    {
      afterThis.next == addThis && addThis.next == null
    }

    /** InsertAfterChild has something to do. */
    ghost predicate Moves(afterThis: XMLNode, addThis: XMLNode)
      reads afterThis
    {
      addThis.document == document && afterThis.parent == this && afterThis != addThis
    }

    /** InsertAfterChild: the node leaves its place, if it has one, and follows afterThis. It dereferences null when it
        is already the last child, right after afterThis. */
    method InsertAfterChild(afterThis: XMLNode, addThis: XMLNode) returns (r: XMLNode?, crashed: bool)
      requires document.Valid({}) && this in document.tree
      requires afterThis.parent == this ==> afterThis in document.tree
      requires Moves(afterThis, addThis) ==> CanTake(addThis)
      modifies document`tree, document`height, document`unlinked, document.tree.Keys
      ensures crashed <==> old(Moves(afterThis, addThis) && Dangles(afterThis, addThis))
      ensures !crashed ==> document.Valid({})
      ensures !old(Moves(afterThis, addThis)) ==>
        document.tree == old(document.tree) && document.unlinked == old(document.unlinked)
      ensures !crashed && old(Moves(afterThis, addThis)) ==>
        document.tree ==
          PlacedAfter(Detached(old(document.tree), old(addThis.parent), addThis), this, afterThis, addThis)
      ensures !crashed ==>
        r == if addThis.document == document && old(afterThis.parent) == this then addThis else null
    {
      if addThis.document != document || afterThis.parent != this {
        return null, false;
      }
      if afterThis == addThis {
        return addThis, false;
      }
      crashed := MoveAfter(afterThis, addThis);
      r := if crashed then null else addThis;
    }

    /** InsertAfterChild from the test for a next sibling on. */
    method MoveAfter(afterThis: XMLNode, addThis: XMLNode) returns (crashed: bool)
      requires document.Valid({}) && this in document.tree && CanTake(addThis) && addThis.document == document
      requires afterThis in document.tree && afterThis.parent == this && afterThis != addThis
      modifies document`tree, document`height, document`unlinked, document.tree.Keys
      ensures crashed <==> old(Dangles(afterThis, addThis))
      ensures !crashed ==> document.Valid({})
      ensures !crashed ==>
        document.tree ==
          PlacedAfter(Detached(old(document.tree), old(addThis.parent), addThis), this, afterThis, addThis)
    {
      hide Linked, Tracked, Consistent, Detached, Reaches, Placed, IndexOf;
      AfterTakingOut(afterThis, addThis);
      if afterThis.next == null {
        var _ := InsertEndChild(addThis);
        return false;
      }
      TakeOut(addThis);
      NextIs(afterThis, addThis);
      crashed := afterThis.next == null;
      if !crashed {
        IndexOfIs(document.tree[this], afterThis);
        LinkAfter(afterThis, addThis, IndexOf(document.tree[this], afterThis) + 1);
      }
    }

    /** Whether afterThis will be the last child once the node has left its place. */
    lemma AfterTakingOut(afterThis: XMLNode, addThis: XMLNode)
      requires document.Valid({}) && this in document.tree && afterThis in document.tree && afterThis.parent == this
      requires afterThis != addThis && addThis in document.tree
      ensures var t := Detached(document.tree, addThis.parent, addThis);
        && IndexOf(t[this], afterThis) < |t[this]|
        && (IndexOf(t[this], afterThis) + 1 == |t[this]| <==> afterThis.next == null || Dangles(afterThis, addThis))
    {
      LastAfterDetach(document.Snapshot(), document.tree, this, afterThis, addThis);
    }

    lemma NextIs(afterThis: XMLNode, addThis: XMLNode)
      requires Ready(addThis) && IndexOf(document.tree[this], afterThis) < |document.tree[this]|
      ensures var k := document.tree[this]; afterThis.next == At(k, IndexOf(k, afterThis) + 1)
    {
      IndexOfIs(document.tree[this], afterThis);
      assert Spells(document.Snapshot(), this, document.tree[this]);
      assert ChildAt(document.Snapshot(), this, document.tree[this], IndexOf(document.tree[this], afterThis));
    }

    lemma ReadyBetween(afterThis: XMLNode, addThis: XMLNode, i: nat)
      requires Ready(addThis) && 0 < i < |document.tree[this]| && At(document.tree[this], i - 1) == afterThis
      ensures afterThis in document.tree && afterThis != addThis
      ensures var l, k := document.Snapshot(), document.tree[this]; l[afterThis].next == At(k, i)
      ensures var next := document.Snapshot()[afterThis].next;
        next != null && next in document.tree && next != addThis && next != afterThis
    {
      var k := document.tree[this];
      assert Spells(document.Snapshot(), this, k);
      NotAChild(document.Snapshot(), document.tree, this, addThis);
      assert ChildAt(document.Snapshot(), this, k, i - 1) && ChildAt(document.Snapshot(), this, k, i);
    }

    lemma ReadyAfter(afterThis: XMLNode, addThis: XMLNode, i: nat) returns (height: map<XMLNode, nat>)
      requires Ready(addThis) && 0 < i < |document.tree[this]| && At(document.tree[this], i - 1) == afterThis
      ensures document.root != null && forall n :: n in document.tree ==> n.document == document
      ensures this in document.tree && addThis in document.tree && afterThis in document.tree
      ensures var l, t := document.Snapshot(), document.tree;
        && Holds(l) && addThis !in {this, afterThis} && addThis.prev == null && addThis.next == null
        && var next := l[afterThis].next;
           && next != null && next in l && next != addThis && next != afterThis
           && Consistent(Spliced(l, this, addThis, afterThis, next), Placed(t, this, i, addThis), height,
             document.root, document.unlinked, {})
    {
      height := Raised(document.tree, document.height, this, document.height[addThis]);
      hide At, Consistent, Spliced, Raised, Reaches, SplicedOne, Placed, Ready, XMLDocument.Valid;
      hide XMLDocument.Snapshot, Holds;
      ReadyEnds(addThis);
      ReadyBetween(afterThis, addThis, i);
      ReadyToSplice(addThis, i);
    }

    method LinkAfter(afterThis: XMLNode, addThis: XMLNode, ghost i: nat)
      requires Ready(addThis) && 0 < i < |document.tree[this]| && At(document.tree[this], i - 1) == afterThis
      modifies document`tree, document`height, document.tree.Keys
      ensures document.Valid({}) && document.tree == Placed(old(document.tree), this, i, addThis)
    {
      hide At, Consistent, Spliced, SplicedOne, Placed, Ready, XMLDocument.Valid, XMLDocument.Snapshot, Holds;
      hide XMLNode.Snapshot;
      ghost var l, t := document.Snapshot(), document.tree;
      ghost var height := ReadyAfter(afterThis, addThis, i);
      InsertPointers(afterThis, addThis, l);
      Follow(l, height, addThis, afterThis, l[afterThis].next, Placed(t, this, i, addThis));
    }

    /** The pointer assignments of InsertEndChild. */
    method AppendPointers(addThis: XMLNode, ghost l: Links)
      requires Holds(l) && this in l && addThis in l && addThis != this
      requires lastChild != null ==> lastChild in l && lastChild != addThis
      requires lastChild == null <==> firstChild == null
      requires addThis.prev == null && addThis.next == null
      modifies l.Keys
      ensures forall n :: n in l ==> n.Snapshot() == SplicedOne(l[n], n, this, addThis, l[this].last, null)
    {
      if lastChild != null {
        lastChild.next := addThis;
        addThis.prev := lastChild;
        lastChild := addThis;
        addThis.next := null;
      } else {
        firstChild := addThis;
        lastChild := addThis;
        addThis.prev := null;
        addThis.next := null;
      }
      addThis.parent := this;
    }

    /** The pointer assignments of InsertFirstChild. */
    method PrependPointers(addThis: XMLNode, ghost l: Links)
      requires Holds(l) && this in l && addThis in l && addThis != this
      requires firstChild != null ==> firstChild in l && firstChild != addThis
      requires lastChild == null <==> firstChild == null
      requires addThis.prev == null && addThis.next == null
      modifies l.Keys
      ensures forall n :: n in l ==> n.Snapshot() == SplicedOne(l[n], n, this, addThis, null, l[this].first)
    {
      if firstChild != null {
        firstChild.prev := addThis;
        addThis.next := firstChild;
        firstChild := addThis;
        addThis.prev := null;
      } else {
        firstChild := addThis;
        lastChild := addThis;
        addThis.prev := null;
        addThis.next := null;
      }
      addThis.parent := this;
    }

    /** The pointer assignments of InsertAfterChild. */
    method InsertPointers(afterThis: XMLNode, addThis: XMLNode, ghost l: Links)
      requires Holds(l) && this in l && addThis in l && addThis != this && afterThis in l && afterThis != addThis
      requires var next := l[afterThis].next; next != null && next in l && next != addThis && next != afterThis
      requires addThis.prev == null && addThis.next == null
      modifies l.Keys
      ensures forall n :: n in l ==> n.Snapshot() == SplicedOne(l[n], n, this, addThis, afterThis, l[afterThis].next)
    {
      addThis.prev := afterThis;
      addThis.next := afterThis.next;
      afterThis.next.prev := addThis;
      afterThis.next := addThis;
      addThis.parent := this;
    }

    // ----- deletion -----

    /** DeleteChild: the child and all below it leave the document. */
    method DeleteChild(node: XMLNode, ghost loose: set<XMLNode>)
      requires document.Valid(loose) && this in document.tree && node in document.tree && node.parent == this
      modifies document`tree, document`height, document`unlinked, document.tree.Keys
      ensures document.Valid(loose - {node})
      ensures Gone(Unlinked(old(document.Snapshot()), this, node), Detached(old(document.tree), this, node),
        old(document.height),
                   document.Snapshot(), document.tree, document.height, node)
      ensures forall x :: x in document.unlinked ==> x in old(document.unlinked)
      decreases document.height[node], 3
    {
      hide Linked, Tracked, Unlinked, Detached, Gone, Ranked, Holds;
      NotTheRoot(node, loose);
      Unlink(node, loose);
      DeleteNode(node, loose + {node});
      assert loose + {node} - {node} == loose - {node};
    }

    /** DeleteNode: the node, which has no parent, and all below it leave the document. */
    static method DeleteNode(node: XMLNode, ghost loose: set<XMLNode>)
      requires node.document.Valid(loose) && node in node.document.tree && node.parent == null
      requires node != node.document.root
      modifies node.document`tree, node.document`height, node.document`unlinked, node.document.tree.Keys
      ensures node.document.Valid(loose - {node})
      ensures var d := node.document;
        Gone(old(d.Snapshot()), old(d.tree), old(d.height), d.Snapshot(), d.tree, d.height, node)
      ensures forall x :: x in node.document.unlinked ==> x in old(node.document.unlinked)
      decreases node.document.height[node], 2
    {
      hide Linked, Tracked, Gone, Ranked, Holds, Trimmed;
      ghost var l, t, h := node.document.Snapshot(), node.document.tree, node.document.height;
      node.document.Claim(node, loose);
      node.DeleteChildren(loose + {node});
      StillAlone(node, l, t, h);
      node.document.Remove(node, loose + {node}, l, t, h);
      assert loose + {node} - {node} == loose - {node};
    }

    /** DeleteChildren: all below this node leave the document. */
    method DeleteChildren(ghost loose: set<XMLNode>)
      requires document.Valid(loose) && this in document.tree
      modifies document`tree, document`height, document`unlinked, document.tree.Keys
      ensures document.Valid(loose)
      ensures Trimmed(old(document.Snapshot()), old(document.tree), old(document.height),
                      document.Snapshot(), document.tree, document.height, this)
      ensures document.tree[this] == []
      ensures forall x :: x in document.unlinked ==> x in old(document.unlinked)
      decreases document.height[this], 1
    {
      hide Linked, Tracked, Ranked, Holds, XMLDocument.Snapshot;
      ghost var l, t, h := document.Snapshot(), document.tree, document.height;
      while firstChild != null
        invariant document.Valid(loose)
        invariant Trimmed(l, t, h, document.Snapshot(), document.tree, document.height, this)
        invariant forall x :: x in document.unlinked ==> x in old(document.unlinked)
        decreases document.tree.Keys
      {
        DeleteFirst(loose, l, t, h);
      }
      EndsOf(loose);
      firstChild := null;
      lastChild := null;
    }

    /** A turn of the loop of DeleteChildren, which was entered with links l, tree t and heights h. */
    method DeleteFirst(ghost loose: set<XMLNode>, ghost l: Links, ghost t: Tree, ghost h: map<XMLNode, nat>)
      requires document.Valid(loose) && this in document.tree && firstChild != null
      requires Trimmed(l, t, h, document.Snapshot(), document.tree, document.height, this)
      modifies document`tree, document`height, document`unlinked, document.tree.Keys
      ensures document.Valid(loose) && Trimmed(l, t, h, document.Snapshot(), document.tree, document.height, this)
      ensures document.tree.Keys < old(document.tree.Keys)
      ensures forall x :: x in document.unlinked ==> x in old(document.unlinked)
      decreases document.height[this], 0
    {
      hide Linked, Tracked, Trimmed, Unlinked, Detached;
      ghost var l0, t0, h0, child := document.Snapshot(), document.tree, document.height, firstChild;
      EndsOf(loose);
      DeleteChild(firstChild, loose);
      LooseMore(document.Snapshot(), document.tree, document.height, document.root, document.unlinked, loose, child);
      UnlinkOrphans(l0, t0, this, child);
      TrimmedStep(l, t, h, l0, t0, h0, Unlinked(l0, this, child), document.Snapshot(), document.tree, document.height,
        this, child);
    }

    static lemma StillAlone(node: XMLNode, l: Links, t: Tree, h: map<XMLNode, nat>)
      requires var d := node.document; Trimmed(l, t, h, d.Snapshot(), d.tree, d.height, node) && l[node].parent == null
      ensures node in node.document.tree && node.parent == null
    {
      assert node.document.Snapshot()[node].parent == node.parent;
    }

    lemma NotTheRoot(node: XMLNode, loose: set<XMLNode>)
      requires document.Valid(loose) && node in document.tree && node.parent != null
      ensures node != document.root && node.document == document
    {
    }
  }

  class XMLDocument {
    var root: XMLNode?
    var unlinked: seq<XMLNode>
    ghost var tree: Tree
    ghost var height: map<XMLNode, nat>

    constructor ()
      ensures Valid({}) && unlinked == [] && root != null && fresh(root) && tree == map[root := []]
    {
      unlinked := [];
      root := null;
      new;
      hide Consistent;
      var node := new XMLNode(this);
      root := node;
      tree, height := map[node := []], map[node := 0];
      RootConsistent(node);
      assert Snapshot() == map[node := Link(null, null, null, null, null)];
    }

    ghost function Snapshot(): (l: Links)
      reads this`tree, tree.Keys
      ensures l.Keys == tree.Keys && Holds(l)
    {
      map n | n in tree :: n.Snapshot()
    }

    ghost predicate Valid(loose: set<XMLNode>)
      reads this, tree.Keys
    {
      && root != null
      && (forall n :: n in tree ==> n.document == this)
      && Consistent(Snapshot(), tree, height, root, unlinked, loose)
    }

    /** CreateUnlinkedNode. */
    method CreateUnlinkedNode() returns (node: XMLNode)
      requires Valid({})
      modifies this
      ensures Valid({}) && fresh(node) && node.document == this && root == old(root)
      ensures tree == old(tree)[node := []] && unlinked == old(unlinked) + [node]
    {
      hide Consistent;
      ghost var l := Snapshot();
      node := new XMLNode(this);
      AddedConsistent(l, tree, height, root, unlinked, node);
      unlinked := unlinked + [node];
      tree, height := tree[node := []], height[node := 0];
      assert Snapshot() == l[node := Link(null, null, null, null, null)];
    }

    /** The document's DeleteNode: the node leaves its parent, if it has one, and the document, with all below it. */
    method DeleteNode(node: XMLNode)
      requires Valid({}) && node in tree && node != root
      modifies this, tree.Keys
      ensures Valid({}) && root == old(root)
      ensures old(node.parent) in old(tree) || old(node.parent) == null
      ensures Ranked(Detached(old(tree), old(node.parent), node), old(height))
      ensures forall x :: x in old(tree) ==>
        (x in tree <==> !Reaches(Detached(old(tree), old(node.parent), node), old(height), node, x))
      ensures forall x :: x in tree ==> x in old(tree) && tree[x] == Detached(old(tree), old(node.parent), node)[x]
    {
      hide Linked, Tracked, Ranked, Reaches, Without;
      assert node.document == this;
      if node.parent != null {
        node.ParentInTree(node);
        node.parent.DeleteChild(node, {});
      } else {
        XMLNode.DeleteNode(node, {});
      }
      assert {} - {node} == {};
    }

    /** Clear: only the document itself is left. */
    method Clear()
      requires Valid({})
      modifies this, tree.Keys
      ensures Valid({}) && tree == map[root := []] && unlinked == [] && root == old(root)
    {
      hide Linked, Tracked, Ranked;
      RootIsHere();
      root.DeleteChildren({});
      while unlinked != []
        invariant Valid({}) && root == old(root) && root in tree && tree[root] == [] && tree.Keys <= old(tree.Keys)
        decreases tree.Keys
      {
        DeleteUnlinked();
      }
      OnlyTheRoot(Snapshot(), tree, height, root);
    }

    /** A turn of the loop of Clear. */
    method DeleteUnlinked()
      requires Valid({}) && unlinked != [] && tree[root] == []
      modifies this, tree.Keys
      ensures Valid({}) && root == old(root) && tree[root] == [] && tree.Keys < old(tree.Keys)
    {
      hide Linked, Tracked, Ranked, Reaches, Holds;
      var node := unlinked[0];
      FirstUnlinked();
      NotBelow(Snapshot(), tree, height, node, root);
      XMLNode.DeleteNode(node, {});
      assert {} - {node} == {};
      assert node !in tree by { ReachesItself(old(tree), old(height), node); }
    }

    lemma RootIsHere()
      requires Valid({})
      ensures root in tree && root.document == this
    {
    }

    lemma FirstUnlinked()
      requires Valid({}) && unlinked != []
      ensures unlinked[0] in tree && unlinked[0].parent == null && unlinked[0] != root && unlinked[0].document == this
    {
    }

    /** A node without a parent is about to be linked in or deleted. */
    method Claim(node: XMLNode, ghost loose: set<XMLNode>)
      requires Valid(loose) && node in tree && node.parent == null && node != root
      modifies this`unlinked
      ensures Valid(loose + {node}) && node !in unlinked && forall x :: x in unlinked ==> x in old(unlinked)
    {
      hide Linked, Ranked;
      ghost var was := unlinked;
      MarkInUse(node);
      MarkedConsistent(Snapshot(), tree, height, root, was, unlinked, loose, node);
    }

    /** The node, now without children, is freed. */
    ghost method Remove(node: XMLNode, loose: set<XMLNode>, l: Links, t: Tree, h: map<XMLNode, nat>)
      requires Valid(loose) && node in tree && node.parent == null && node != root && node !in unlinked
      requires tree[node] == []
      requires Trimmed(l, t, h, Snapshot(), tree, height, node) && Linked(l, t)
      modifies this`tree, this`height
      ensures Valid(loose - {node}) && Gone(l, t, h, Snapshot(), tree, height, node)
    {
      hide Linked, Ranked, Tracked, Trimmed, Gone;
      RemovedConsistent(Snapshot(), tree, height, root, unlinked, loose, node);
      GoneWithItself(l, t, h, Snapshot(), tree, height, node);
      ghost var was := Snapshot();
      tree, height := tree - {node}, height - {node};
      assert Snapshot() == was - {node};
    }

    /** Takes the node off the unlinked list, if it is there: the last entry moves to its place. */
    method MarkInUse(node: XMLNode)
      requires Distinct(unlinked)
      modifies this`unlinked
      ensures Distinct(unlinked) && forall x :: x in unlinked <==> x in old(unlinked) && x != node
    {
      var i := 0;
      while i < |unlinked|
        invariant i <= |unlinked| && unlinked == old(unlinked)
        invariant forall j :: 0 <= j < i ==> unlinked[j] != node
      {
        if node == unlinked[i] {
          SwapRemoved(unlinked, i);
          unlinked := unlinked[i := unlinked[|unlinked| - 1]][..|unlinked| - 1];
          break;
        }
        i := i + 1;
      }
    }
  }

  lemma SwapRemoved(k: seq<XMLNode>, i: nat)
    requires i < |k| && Distinct(k)
    ensures var r := k[i := k[|k| - 1]][..|k| - 1]; Distinct(r) && forall x :: x in r <==> x in k && x != k[i]
  {
    var r := k[i := k[|k| - 1]][..|k| - 1];
    forall x ensures x in r <==> x in k && x != k[i] {
      if x in k && x != k[i] {
        var a :| 0 <= a < |k| && k[a] == x;
        assert r[if a == |k| - 1 then i else a] == x;
      }
    }
  }

  // ----- the insertion that goes wrong -----

  /** Only the document's own node is above it. */
  lemma RootTakes(d: XMLDocument, x: XMLNode)
    requires d.Valid({}) && x in d.tree && x != d.root
    ensures d.root != null && d.root.document == d && d.root in d.tree && d.root.CanTake(x)
  {
    NotBelow(d.Snapshot(), d.tree, d.height, x, d.root);
  }

  lemma Neighbours(d: XMLDocument, n: XMLNode, i: nat)
    requires d.Valid({}) && n in d.tree && i < |d.tree[n]|
    ensures var k := d.tree[n]; k[i] in d.tree && k[i].parent == n && k[i].next == At(k, i + 1)
  {
    assert Spells(d.Snapshot(), n, d.tree[n]) && ChildAt(d.Snapshot(), n, d.tree[n], i);
  }

  lemma AppendedAtRoot(t: Tree, root: XMLNode, x: XMLNode)
    requires root in t
    ensures Detached(t, null, x) == t && Placed(t, root, |t[root]|, x)[root] == t[root] + [x]
  {
  }

  /** A new last child of the document's own node. */
  method AddChild(d: XMLDocument) returns (x: XMLNode)
    requires d.Valid({}) && d.root in d.tree
    modifies d, d.tree.Keys
    ensures d.Valid({}) && d.root == old(d.root) && fresh(x) && d.tree.Keys == old(d.tree.Keys) + {x} && x != d.root
    ensures d.tree[d.root] == old(d.tree[d.root]) + [x]
  {
    hide Consistent, Reaches, Detached, Placed;
    x := d.CreateUnlinkedNode();
    IsAlone(d, x);
    RootTakes(d, x);
    AppendedAtRoot(d.tree, d.root, x);
    var _ := d.root.InsertEndChild(x);
  }

  lemma IsAlone(d: XMLDocument, x: XMLNode)
    requires d.Valid({}) && x in d.unlinked
    ensures x.parent == null && x in d.tree && x != d.root
  {
    assert d.Snapshot()[x].parent == x.parent;
  }

  /** A document whose own node has two children. */
  method TwoChildren() returns (d: XMLDocument, a: XMLNode, b: XMLNode)
    ensures d.Valid({}) && d.root in d.tree && d.tree[d.root] == [a, b] && a != b
    ensures fresh(d) && fresh(d.tree.Keys) && a in d.tree && b in d.tree && a != d.root && b != d.root
  {
    hide XMLDocument.Valid;
    d := new XMLDocument();
    a := AddChild(d);
    b := AddChild(d);
  }

  /** Inserting the second of two children after the first dereferences null. */
  method InsertWhereItIs() returns (crashed: bool)
    ensures crashed
  {
    hide Consistent, Reaches;
    var d, a, b := TwoChildren();
    Neighbours(d, d.root, 0);
    Neighbours(d, d.root, 1);
    RootTakes(d, b);
    var r;
    r, crashed := d.root.InsertAfterChild(a, b);
  }
}
