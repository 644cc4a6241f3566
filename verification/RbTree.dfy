/** The tree on the heap (rbtree/rbtree.c): insert descends through a pointer to a link,
    search through the nodes, and insert_arr builds a tree from an array. */
module RbTree {
  import opened OrderedTree
  import opened TreeMap

  /** Below `p`, whose parent pointer is `par`, the heap has the shape `t`. */
  ghost predicate Shaped(p: Node?, par: Node?, t: Tree)
    reads Nodes(t)
    decreases t
  {
    match t
    case Leaf => p == null
    case Bin(l, n, r) => p == n && n.parent == par && Shaped(n.left, n, l) && Shaped(n.right, n, r)
  }

  /** A `struct rb_node **`. */
  datatype Link = AtRoot | LeftOf(n: Node) | RightOf(n: Node)

  class Root {
    var node: Node?
    ghost var shape: Tree
    ghost var repr: set<Node>

    ghost predicate Valid()
      reads this, Nodes(shape)
    {
      repr == Nodes(shape) && Shaped(node, null, shape) && Distinct(shape) && SortedKeys(Inorder(shape))
    }

    /** RB_ROOT. */
    constructor ()
      ensures Valid() && shape == Leaf
    {
      node, shape, repr := null, Leaf, {};
    }

    /** *link */
    function Deref(link: Link): Node?
      reads this, if link.AtRoot? then {} else {link.n}
    {
      match link
      case AtRoot => node
      case LeftOf(n) => n.left
      case RightOf(n) => n.right
    }

    /** insert, where `rots` stands for what rb_insert_color does: any rotations at all. */
    method Insert(nw: Node, rots: seq<Rotation>)
      requires Valid() && nw !in Nodes(shape)
      modifies this, Nodes(shape), nw
      ensures Valid()
      ensures Present(old(shape), nw.key) ==>
                && shape == old(shape) && node == old(node)
                && unchanged(nw) && forall n :: n in old(repr) ==> unchanged(n)
      ensures !Present(old(shape), nw.key) ==>
                && repr == old(repr) + {nw}
                && Inorder(shape) == Inorder(Ins(old(shape), nw))
      ensures Contents(Inorder(shape)) == AddOne(Contents(Inorder(old(shape))), nw.key, nw.val)
    {
      InsContents(shape, nw);
      InsNodes(shape, nw);
      var newKey := nw.key;
      var link := AtRoot;
      var parent: Node? := null;
      ghost var sub := shape;
      while Deref(link) != null
        invariant Nodes(sub) <= Nodes(shape) && Shaped(Deref(link), parent, sub)
        invariant parent == null ==> link == AtRoot && sub == shape
        invariant parent != null ==>
                    && parent in Nodes(shape) && parent.key != newKey
                    && link == if newKey > parent.key then RightOf(parent) else LeftOf(parent)
        invariant LastPassed(sub, newKey, parent) == LastPassed(shape, newKey, null)
        invariant Present(sub, newKey) == Present(shape, newKey)
        decreases sub
      {
        parent := Deref(link);
        if newKey > parent.key {
          link := RightOf(parent);
          sub := sub.right;
        } else if newKey < parent.key {
          link := LeftOf(parent);
          sub := sub.left;
        } else {
          return;
        }
      }
      LinkNode(nw, parent, link);
      RbInsertColor(rots);
    }

    /** rb_link_node. */
    method LinkNode(nw: Node, parent: Node?, link: Link)
      requires Valid() && nw !in Nodes(shape)
      requires !Present(shape, nw.key) && parent == LastPassed(shape, nw.key, null) && Deref(link) == null
      requires parent == null ==> link == AtRoot
      requires parent != null ==>
                 && parent in Nodes(shape) && parent.key != nw.key
                 && link == if nw.key > parent.key then RightOf(parent) else LeftOf(parent)
      modifies this, Nodes(shape), nw
      ensures Valid() && shape == Ins(old(shape), nw) && Nodes(shape) == Nodes(old(shape)) + {nw}
    {
      InsertedTree(shape, nw);
      LinkInHeap(nw, parent, link);
      shape, repr := Ins(shape, nw), repr + {nw};
    }

    method LinkInHeap(nw: Node, parent: Node?, link: Link)
      requires Valid() && nw !in Nodes(shape)
      requires !Present(shape, nw.key) && parent == LastPassed(shape, nw.key, null) && Deref(link) == null
      requires parent == null ==> link == AtRoot
      requires parent != null ==>
                 && parent in Nodes(shape) && parent.key != nw.key
                 && link == if nw.key > parent.key then RightOf(parent) else LeftOf(parent)
      modifies `node, repr, nw
      ensures Shaped(node, null, Ins(shape, nw))
    {
      ghost var h, p := Snapshot(repr), node;
      ShapedIffSnapshot(repr, p, null, shape);
      StoreLink(nw, parent, link);
      if shape.Bin? {
        LastPassedInside(shape, nw.key, null);
        LinkedOnHeap(h, repr + {nw}, shape, p, parent, nw);
      }
    }

    method StoreLink(nw: Node, parent: Node?, link: Link)
      requires nw !in repr && (link == AtRoot <==> parent == null)
      requires parent != null ==> parent in repr && link in {LeftOf(parent), RightOf(parent)}
      modifies `node, repr, nw
      ensures nw.parent == parent && nw.left == null && nw.right == null
      ensures node == if parent == null then nw else old(node)
      ensures Agree(old(Snapshot(repr)), Snapshot(repr + {nw}), repr - {parent})
      ensures parent != null ==>
                LinksOf(parent) == if link.RightOf? then old(LinksOf(parent)).(right := nw)
                                   else old(LinksOf(parent)).(left := nw)
    {
      nw.parent := parent;
      nw.left, nw.right := null, null;
      if link.AtRoot? {
        node := nw;
      } else if link.LeftOf? {
        link.n.left := nw;
      } else {
        link.n.right := nw;
      }
    }

    method RbInsertColor(rots: seq<Rotation>)
      requires Valid()
      modifies this, Nodes(shape)
      ensures Valid() && shape == RotateAll(old(shape), rots)
      ensures Inorder(shape) == Inorder(old(shape)) && Nodes(shape) == Nodes(old(shape))
    {
      RotateAllKeepsInorder(shape, rots);
      for i := 0 to |rots|
        invariant Valid() && RotateAll(shape, rots[i..]) == RotateAll(old(shape), rots)
        invariant Nodes(shape) == Nodes(old(shape))
      {
        assert rots[i..][0] == rots[i] && rots[i..][1..] == rots[i + 1..];
        RotateOnce(rots[i].path, rots[i].leftward);
      }
    }

    method RotateOnce(path: seq<bool>, leftward: bool)
      requires Valid()
      modifies this, Nodes(shape)
      ensures Valid() && shape == Rotate(old(shape), path, leftward) && Nodes(shape) == Nodes(old(shape))
    {
      RotateKeepsInorder(shape, path, leftward);
      RotateKeepsDistinct(shape, path, leftward);
      node := RotateAt(node, null, shape, path, leftward, repr);
      shape := Rotate(shape, path, leftward);
    }

    /** insert_arr; `rots` gives what rb_insert_color does at each insertion. */
    method InsertArr(arr: seq<(int, int)>, rots: nat -> seq<Rotation>)
      requires Valid()
      modifies this, Nodes(shape)
      ensures Valid() && fresh(repr - old(repr))
      ensures Contents(Inorder(shape)) == AddAll(Contents(Inorder(old(shape))), arr)
    {
      assert arr[..0] == [];
      for i := 0 to |arr|
        invariant Valid() && fresh(repr - old(repr))
        invariant Contents(Inorder(shape)) == AddAll(Contents(Inorder(old(shape))), arr[..i])
      {
        InsertPair(arr[i].0, arr[i].1, rots(i));
        AddAllNext(Contents(Inorder(old(shape))), arr, i);
      }
      assert arr[..|arr|] == arr;
    }

    /** A node whose key is already there is allocated and never linked. */
    method InsertPair(key: int, val: int, rots: seq<Rotation>)
      requires Valid()
      modifies this, Nodes(shape)
      ensures Valid() && fresh(repr - old(repr))
      ensures Contents(Inorder(shape)) == AddOne(Contents(Inorder(old(shape))), key, val)
    {
      var data := new Node(key, val);
      Insert(data, rots);
    }

    /** search */
    method Search(target: int) returns (data: Node?)
      requires Shaped(node, null, shape)
      ensures data == Find(shape, target)
    {
      var n := node;
      ghost var sub, par := shape, null;
      while n != null
        invariant Nodes(sub) <= Nodes(shape) && Shaped(n, par, sub)
        invariant Find(sub, target) == Find(shape, target)
        decreases sub
      {
        par := n;
        if target > n.val {
          n, sub := n.right, sub.right;
        } else if target < n.val {
          n, sub := n.left, sub.left;
        } else {
          return n;
        }
      }
      return null;
    }
  }

  // ----- The heap as a value, to speak of it before and after a store -----

  datatype Links = Links(parent: Node?, left: Node?, right: Node?)

  ghost function LinksOf(n: Node): Links
    reads n
  {
    Links(n.parent, n.left, n.right)
  }

  ghost function Snapshot(s: set<Node>): map<Node, Links>
    reads s
  {
    map n | n in s :: LinksOf(n)
  }

  ghost predicate ShapedIn(h: map<Node, Links>, p: Node?, par: Node?, t: Tree)
    decreases t
  {
    match t
    case Leaf => p == null
    case Bin(l, n, r) =>
      p == n && n in h && h[n].parent == par && ShapedIn(h, h[n].left, n, l) && ShapedIn(h, h[n].right, n, r)
  }

  lemma {:induction false} ShapedIffSnapshot(s: set<Node>, p: Node?, par: Node?, t: Tree)
    requires Nodes(t) <= s
    ensures Shaped(p, par, t) <==> ShapedIn(Snapshot(s), p, par, t)
    decreases t
  {
    if t.Bin? {
      ShapedIffSnapshot(s, t.node.left, t.node, t.left);
      ShapedIffSnapshot(s, t.node.right, t.node, t.right);
    }
  }

  ghost predicate Agree(h: map<Node, Links>, h': map<Node, Links>, s: set<Node>) {
    forall n :: n in s && n in h ==> n in h' && h'[n] == h[n]
  }

  lemma {:induction false} ShapedInFrame(h: map<Node, Links>, h': map<Node, Links>, p: Node?, par: Node?, t: Tree)
    requires ShapedIn(h, p, par, t) && Agree(h, h', Nodes(t))
    ensures ShapedIn(h', p, par, t)
    decreases t
  {
    if t.Bin? {
      ShapedInFrame(h, h', h[t.node].left, t.node, t.left);
      ShapedInFrame(h, h', h[t.node].right, t.node, t.right);
    }
  }

  /** Storing the new node through the link at the end of the descent inserts it into the
      shape, at every level of the tree above the link. */
  lemma {:induction false} Linked(h: map<Node, Links>, h': map<Node, Links>, t: Tree, p: Node?, par: Node?,
                                  parent: Node, nw: Node)
    requires t.Bin? && ShapedIn(h, p, par, t) && Distinct(t)
    requires parent == LastPassed(t, nw.key, par) && !Present(t, nw.key) && parent in h
    requires nw in h' && h'[nw] == Links(parent, null, null)
    requires Agree(h, h', Nodes(t) - {parent})
    requires parent in h'
    requires h'[parent] == if nw.key > parent.key then h[parent].(right := nw) else h[parent].(left := nw)
    ensures ShapedIn(h', p, par, Ins(t, nw))
    decreases t
  {
    var Bin(l, n, r) := t;
    if nw.key > n.key {
      if r.Bin? {
        LastPassedInside(r, nw.key, n);
        Linked(h, h', r, h[n].right, n, parent, nw);
      }
      ShapedInFrame(h, h', h[n].left, n, l);
    } else {
      if l.Bin? {
        LastPassedInside(l, nw.key, n);
        Linked(h, h', l, h[n].left, n, parent, nw);
      }
      ShapedInFrame(h, h', h[n].right, n, r);
    }
  }

  lemma InsertedTree(t: Tree, nw: Node)
    requires Distinct(t) && SortedKeys(Inorder(t)) && nw !in Nodes(t) && !Present(t, nw.key)
    ensures Distinct(Ins(t, nw)) && SortedKeys(Inorder(Ins(t, nw))) && Nodes(Ins(t, nw)) == Nodes(t) + {nw}
  {
    InsNodes(t, nw);
    InsKeepsOrder(t, nw);
    InsKeepsDistinct(t, nw);
  }

  lemma LinkedOnHeap(h: map<Node, Links>, repr: set<Node>, t: Tree, p: Node?, parent: Node, nw: Node)
    requires t.Bin? && ShapedIn(h, p, null, t) && Distinct(t) && parent in h
    requires repr == Nodes(t) + {nw} && nw !in Nodes(t) && parent in Nodes(t)
    requires parent == LastPassed(t, nw.key, null) && !Present(t, nw.key)
    requires nw.parent == parent && nw.left == null && nw.right == null
    requires Agree(h, Snapshot(repr), Nodes(t) - {parent})
    requires LinksOf(parent) ==
             if nw.key > parent.key then h[parent].(right := nw) else h[parent].(left := nw)
    ensures Shaped(p, null, Ins(t, nw))
  {
    Linked(h, Snapshot(repr), t, p, null, parent, nw);
    InsNodes(t, nw);
    ShapedIffSnapshot(repr, p, null, Ins(t, nw));
  }

  /** One rotation on the heap. */
  method RotateAt(p: Node?, par: Node?, ghost t: Tree, path: seq<bool>, leftward: bool, ghost repr: set<Node>)
    returns (q: Node?)
    requires Shaped(p, par, t) && Distinct(t) && Nodes(t) <= repr
    modifies Nodes(t)
    ensures Shaped(q, par, Rotate(t, path, leftward))
    decreases |path|, 1
  {
    if p == null {
      return p;
    }
    if path == [] {
      if leftward {
        q := RotateLeft(p, par, t, path);
      } else {
        q := RotateRight(p, par, t, path);
      }
    } else if path[0] {
      RotateBelowLeft(p, par, t, path, leftward, repr);
      q := p;
    } else {
      RotateBelowRight(p, par, t, path, leftward, repr);
      q := p;
    }
  }

  method RotateBelowLeft(p: Node, par: Node?, ghost t: Tree, path: seq<bool>, leftward: bool, ghost repr: set<Node>)
    requires Shaped(p, par, t) && Distinct(t) && Nodes(t) <= repr && path != [] && path[0]
    modifies Nodes(t)
    ensures Shaped(p, par, Rotate(t, path, leftward))
    decreases |path|, 0
  {
    RotateKeepsInorder(t.left, path[1..], leftward);
    var child := RotateAt(p.left, p, t.left, path[1..], leftward, repr);
    assert Shaped(p.right, p, t.right);
    p.left := child;
  }

  method RotateBelowRight(p: Node, par: Node?, ghost t: Tree, path: seq<bool>, leftward: bool, ghost repr: set<Node>)
    requires Shaped(p, par, t) && Distinct(t) && Nodes(t) <= repr && path != [] && !path[0]
    modifies Nodes(t)
    ensures Shaped(p, par, Rotate(t, path, leftward))
    decreases |path|, 0
  {
    RotateKeepsInorder(t.right, path[1..], leftward);
    var child := RotateAt(p.right, p, t.right, path[1..], leftward, repr);
    assert Shaped(p.left, p, t.left);
    p.right := child;
  }

  method RotateLeft(p: Node, par: Node?, ghost t: Tree, ghost path: seq<bool>) returns (q: Node)
    requires Shaped(p, par, t) && Distinct(t) && path == []
    modifies Nodes(t)
    ensures Shaped(q, par, Rotate(t, path, true))
  {
    if p.right == null {
      return p;
    }
    q := p.right;
    ghost var l, r := t.left, t.right;
    assert Shaped(q, p, r) && r.Bin? && Distinct(r);
    ghost var rl := r.left;
    assert Shaped(q.left, q, rl) && Distinct(rl);
    if q.left != null {
      assert rl.Bin? && rl.node == q.left && q.left in Nodes(rl) && Nodes(rl) <= Nodes(r);
      q.left.parent := p;
    }
    assert Shaped(q.left, p, rl);
    p.right := q.left;
    q.left, q.parent, p.parent := p, par, q;
    assert Shaped(p, q, Bin(l, p, rl));
  }

  method RotateRight(p: Node, par: Node?, ghost t: Tree, ghost path: seq<bool>) returns (q: Node)
    requires Shaped(p, par, t) && Distinct(t) && path == []
    modifies Nodes(t)
    ensures Shaped(q, par, Rotate(t, path, false))
  {
    if p.left == null {
      return p;
    }
    q := p.left;
    ghost var l, r := t.left, t.right;
    assert Shaped(q, p, l) && l.Bin? && Distinct(l);
    ghost var lr := l.right;
    assert Shaped(q.right, q, lr) && Distinct(lr);
    if q.right != null {
      assert lr.Bin? && lr.node == q.right && q.right in Nodes(lr) && Nodes(lr) <= Nodes(l);
      q.right.parent := p;
    }
    assert Shaped(q.right, p, lr);
    p.left := q.right;
    q.right, q.parent, p.parent := p, par, q;
    assert Shaped(p, q, Bin(lr, p, r));
  }
}
