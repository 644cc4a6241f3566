/** Binary trees of key-value nodes as values: what insertion by key, search by val,
    rotation and replacement do to the shape of a tree (rbtree/rbtree.c). */
module OrderedTree {

  class Node {
    const key: int
    const val: int
    var parent: Node?
    var left: Node?
    var right: Node?

    /** kzalloc, then the two assignments of insert_arr. */
    constructor (key: int, val: int)
      ensures this.key == key && this.val == val
      ensures parent == null && left == null && right == null
    {
      this.key, this.val := key, val;
      parent, left, right := null, null, null;
    }
  }

  datatype Tree = Leaf | Bin(left: Tree, node: Node, right: Tree)

  ghost function Nodes(t: Tree): set<Node> {
    match t
    case Leaf => {}
    case Bin(l, n, r) => Nodes(l) + {n} + Nodes(r)
  }

  /** No node occurs twice. */
  ghost predicate Distinct(t: Tree) {
    match t
    case Leaf => true
    case Bin(l, n, r) =>
      && n !in Nodes(l) && n !in Nodes(r) && Nodes(l) !! Nodes(r)
      && Distinct(l) && Distinct(r)
  }

  /** In-order traversal. */
  ghost function Inorder(t: Tree): (s: seq<Node>)
    ensures forall n :: n in s ==> n in Nodes(t)
    ensures forall n :: n in Nodes(t) ==> n in s
  {
    match t
    case Leaf => []
    case Bin(l, n, r) => Inorder(l) + [n] + Inorder(r)
  }

  function KeyOf(n: Node): int { n.key }

  function ValOf(n: Node): int { n.val }

  ghost predicate Increasing(s: seq<Node>, f: Node -> int) {
    forall i, j :: 0 <= i < j < |s| ==> f(s[i]) < f(s[j])
  }

  ghost predicate SortedKeys(s: seq<Node>) { Increasing(s, KeyOf) }

  ghost predicate SortedVals(s: seq<Node>) { Increasing(s, ValOf) }

  /** `l` and `r` are in order and the values of `n` separate them. */
  ghost predicate Separates(l: seq<Node>, n: Node, r: seq<Node>, f: Node -> int) {
    && Increasing(l, f) && Increasing(r, f)
    && (forall m :: m in l ==> f(m) < f(n))
    && (forall m :: m in r ==> f(n) < f(m))
  }

  lemma IncreasingIff(l: seq<Node>, n: Node, r: seq<Node>, f: Node -> int)
    ensures Increasing(l + [n] + r, f) <==> Separates(l, n, r, f)
  {
    if Increasing(l + [n] + r, f) {
      IncreasingSplit(l, n, r, f);
    }
    if Separates(l, n, r, f) {
      IncreasingJoin(l, n, r, f);
    }
  }

  lemma IncreasingSplit(l: seq<Node>, n: Node, r: seq<Node>, f: Node -> int)
    requires Increasing(l + [n] + r, f)
    ensures Separates(l, n, r, f)
  {
    var s := l + [n] + r;
    assert forall i :: 0 <= i < |l| ==> l[i] == s[i];
    assert forall i :: 0 <= i < |r| ==> r[i] == s[|l| + 1 + i];
    assert s[|l|] == n;
  }

  lemma IncreasingJoin(l: seq<Node>, n: Node, r: seq<Node>, f: Node -> int)
    requires Separates(l, n, r, f)
    ensures Increasing(l + [n] + r, f)
  {
    var s := l + [n] + r;
    forall i, j | 0 <= i < j < |s|
      ensures f(s[i]) < f(s[j])
    {
      assert i < |l| ==> s[i] in l;
      assert j > |l| ==> s[j] in r;
    }
  }

  // ----- Insertion by key -----

  /** The descent by key meets `k`. */
  ghost predicate Present(t: Tree, k: int) {
    match t
    case Leaf => false
    case Bin(l, n, r) => if k > n.key then Present(r, k) else if k < n.key then Present(l, k) else true
  }

  /** The last node the descent by key passes, or `par` if it passes none. */
  ghost function LastPassed(t: Tree, k: int, par: Node?): Node? {
    match t
    case Leaf => par
    case Bin(l, n, r) => if k > n.key then LastPassed(r, k, n) else if k < n.key then LastPassed(l, k, n) else n
  }

  ghost function Ins(t: Tree, n: Node): Tree {
    match t
    case Leaf => Bin(Leaf, n, Leaf)
    case Bin(l, m, r) =>
      if n.key > m.key then Bin(l, m, Ins(r, n)) else if n.key < m.key then Bin(Ins(l, n), m, r) else t
  }

  lemma {:induction false} LastPassedInside(t: Tree, k: int, par: Node?)
    requires t.Bin?
    ensures LastPassed(t, k, par) != null && LastPassed(t, k, par) in Nodes(t)
  {
    var Bin(l, n, r) := t;
    if k > n.key && r.Bin? {
      LastPassedInside(r, k, n);
    } else if k < n.key && l.Bin? {
      LastPassedInside(l, k, n);
    }
  }

  /** In a tree in order, the descent misses no key. */
  lemma {:induction false} PresentIffStored(t: Tree, k: int)
    requires SortedKeys(Inorder(t))
    ensures Present(t, k) <==> exists n :: n in Nodes(t) && n.key == k
  {
    if t.Bin? {
      IncreasingIff(Inorder(t.left), t.node, Inorder(t.right), KeyOf);
      PresentIffStored(t.left, k);
      PresentIffStored(t.right, k);
    }
  }

  /** A key not met adds exactly the new node; a key met changes nothing. */
  lemma {:induction false} InsNodes(t: Tree, n: Node)
    ensures if Present(t, n.key) then Ins(t, n) == t else Nodes(Ins(t, n)) == Nodes(t) + {n}
  {
    if t.Bin? {
      InsNodes(t.left, n);
      InsNodes(t.right, n);
    }
  }

  lemma {:induction false} InsKeepsOrder(t: Tree, n: Node)
    requires SortedKeys(Inorder(t))
    ensures SortedKeys(Inorder(Ins(t, n)))
  {
    if t.Bin? {
      var Bin(l, m, r) := t;
      IncreasingSplit(Inorder(l), m, Inorder(r), KeyOf);
      InsNodes(l, n);
      InsNodes(r, n);
      if n.key > m.key {
        InsKeepsOrder(r, n);
        StillSeparates(Inorder(l), m, Inorder(r), Inorder(l), Inorder(Ins(r, n)), n);
        IncreasingJoin(Inorder(l), m, Inorder(Ins(r, n)), KeyOf);
      } else if n.key < m.key {
        InsKeepsOrder(l, n);
        StillSeparates(Inorder(l), m, Inorder(r), Inorder(Ins(l, n)), Inorder(r), n);
        IncreasingJoin(Inorder(Ins(l, n)), m, Inorder(r), KeyOf);
      }
    }
  }

  lemma StillSeparates(l: seq<Node>, m: Node, r: seq<Node>, l': seq<Node>, r': seq<Node>, n: Node)
    requires Separates(l, m, r, KeyOf) && SortedKeys(l') && SortedKeys(r')
    requires forall x :: x in l' ==> x in l || (x == n && n.key < m.key)
    requires forall x :: x in r' ==> x in r || (x == n && n.key > m.key)
    ensures Separates(l', m, r', KeyOf)
  {
  }

  lemma {:induction false} InsKeepsDistinct(t: Tree, n: Node)
    requires Distinct(t) && n !in Nodes(t)
    ensures Distinct(Ins(t, n))
  {
    if t.Bin? {
      InsNodes(t.left, n);
      InsNodes(t.right, n);
      InsKeepsDistinct(t.left, n);
      InsKeepsDistinct(t.right, n);
    }
  }

  // ----- Rotations -----

  /** A rotation at the node that `path` leads to: true is left. */
  datatype Rotation = Rotation(path: seq<bool>, leftward: bool)

  ghost function Rotate(t: Tree, path: seq<bool>, leftward: bool): Tree
    decreases |path|
  {
    match t
    case Leaf => Leaf
    case Bin(l, n, r) =>
      if path != [] then
        if path[0] then Bin(Rotate(l, path[1..], leftward), n, r) else Bin(l, n, Rotate(r, path[1..], leftward))
      else if leftward then
        match r { case Leaf => t case Bin(rl, m, rr) => Bin(Bin(l, n, rl), m, rr) }
      else
        match l { case Leaf => t case Bin(ll, m, lr) => Bin(ll, m, Bin(lr, n, r)) }
  }

  ghost function RotateAll(t: Tree, rots: seq<Rotation>): Tree
    decreases |rots|
  {
    if rots == [] then t else RotateAll(Rotate(t, rots[0].path, rots[0].leftward), rots[1..])
  }

  lemma {:induction false} RotateKeepsInorder(t: Tree, path: seq<bool>, leftward: bool)
    ensures Inorder(Rotate(t, path, leftward)) == Inorder(t)
    ensures Nodes(Rotate(t, path, leftward)) == Nodes(t)
    decreases |path|
  {
    if t.Bin? {
      var Bin(l, n, r) := t;
      if path != [] {
        RotateKeepsInorder(l, path[1..], leftward);
        RotateKeepsInorder(r, path[1..], leftward);
      } else if leftward && r.Bin? {
        Regroup(Inorder(l), [n], Inorder(r.left), [r.node], Inorder(r.right));
        SameNodes(t, Rotate(t, path, leftward));
      } else if !leftward && l.Bin? {
        Regroup(Inorder(l.left), [l.node], Inorder(l.right), [n], Inorder(r));
        SameNodes(t, Rotate(t, path, leftward));
      }
    }
  }

  lemma SameNodes(t: Tree, u: Tree)
    requires Inorder(t) == Inorder(u)
    ensures Nodes(t) == Nodes(u)
  {
    assert forall n :: n in Nodes(t) ==> n in Inorder(t);
    assert forall n :: n in Nodes(u) ==> n in Inorder(u);
  }

  lemma Regroup<T>(a: seq<T>, b: seq<T>, c: seq<T>, d: seq<T>, e: seq<T>)
    ensures a + b + (c + d + e) == (a + b + c) + d + e
  {
  }

  lemma {:induction false} RotateKeepsDistinct(t: Tree, path: seq<bool>, leftward: bool)
    requires Distinct(t)
    ensures Distinct(Rotate(t, path, leftward))
    decreases |path|
  {
    if t.Bin? {
      var Bin(l, n, r) := t;
      if path != [] {
        RotateKeepsInorder(l, path[1..], leftward);
        RotateKeepsInorder(r, path[1..], leftward);
        RotateKeepsDistinct(l, path[1..], leftward);
        RotateKeepsDistinct(r, path[1..], leftward);
      } else if leftward && r.Bin? {
        assert Distinct(Bin(l, n, r.left));
      } else if !leftward && l.Bin? {
        assert Distinct(Bin(l.right, n, r));
      }
    }
  }

  lemma {:induction false} RotateAllKeepsInorder(t: Tree, rots: seq<Rotation>)
    ensures Inorder(RotateAll(t, rots)) == Inorder(t)
    ensures Nodes(RotateAll(t, rots)) == Nodes(t)
    ensures Distinct(t) ==> Distinct(RotateAll(t, rots))
    decreases |rots|
  {
    if rots != [] {
      RotateKeepsInorder(t, rots[0].path, rots[0].leftward);
      if Distinct(t) {
        RotateKeepsDistinct(t, rots[0].path, rots[0].leftward);
      }
      RotateAllKeepsInorder(Rotate(t, rots[0].path, rots[0].leftward), rots[1..]);
    }
  }

  // ----- Search by val -----

  ghost function Find(t: Tree, target: int): (n: Node?) {
    match t
    case Leaf => null
    case Bin(l, n, r) => if target > n.val then Find(r, target) else if target < n.val then Find(l, target) else n
  }

  /** On any tree, what is found is in the tree and has the value sought. */
  lemma {:induction false} FindSound(t: Tree, target: int)
    ensures var n := Find(t, target); n != null ==> n in Nodes(t) && n.val == target
  {
    if t.Bin? {
      FindSound(t.left, target);
      FindSound(t.right, target);
    }
  }

  /** Every node is found by its own value. */
  ghost predicate AllFound(t: Tree) {
    forall n :: n in Nodes(t) ==> Find(t, n.val) == n
  }

  /** The search by val is complete exactly on the trees that are in order by val, whatever
      the order of their keys. */
  lemma {:induction false} AllFoundIff(t: Tree)
    requires Distinct(t)
    ensures AllFound(t) <==> SortedVals(Inorder(t))
  {
    if t.Bin? {
      var Bin(l, m, r) := t;
      AllFoundIff(l);
      AllFoundIff(r);
      IncreasingIff(Inorder(l), m, Inorder(r), ValOf);
      if AllFound(t) {
        AllFoundSplit(l, m, r);
      }
      if Separates(Inorder(l), m, Inorder(r), ValOf) {
        AllFoundJoin(l, m, r);
      }
    }
  }

  lemma AllFoundSplit(l: Tree, m: Node, r: Tree)
    requires Distinct(Bin(l, m, r)) && AllFound(Bin(l, m, r))
    ensures AllFound(l) && AllFound(r)
    ensures forall n :: n in Inorder(l) ==> ValOf(n) < ValOf(m)
    ensures forall n :: n in Inorder(r) ==> ValOf(m) < ValOf(n)
  {
    forall n | n in Nodes(l)
      ensures n.val < m.val && Find(l, n.val) == n
    {
      assert Find(Bin(l, m, r), n.val) == n;
      FindSound(r, n.val);
    }
    forall n | n in Nodes(r)
      ensures m.val < n.val && Find(r, n.val) == n
    {
      assert Find(Bin(l, m, r), n.val) == n;
      FindSound(l, n.val);
    }
  }

  lemma AllFoundJoin(l: Tree, m: Node, r: Tree)
    requires AllFound(l) && AllFound(r) && Separates(Inorder(l), m, Inorder(r), ValOf)
    ensures AllFound(Bin(l, m, r))
  {
    forall n | n in Nodes(Bin(l, m, r))
      ensures Find(Bin(l, m, r), n.val) == n
    {
      if n in Nodes(l) {
        assert ValOf(n) < ValOf(m);
      } else if n in Nodes(r) {
        assert ValOf(m) < ValOf(n);
      }
    }
  }

  /** On a tree in order by val, a search answers null only if no node has the value. */
  lemma FindComplete(t: Tree, target: int)
    requires Distinct(t) && SortedVals(Inorder(t))
    ensures Find(t, target) == null <==> forall n :: n in Nodes(t) ==> n.val != target
  {
    AllFoundIff(t);
    FindSound(t, target);
  }

  /** Nodes with equal key and val, the only ones insert_arr is given, keep the two orders
      in agreement. */
  lemma KeyValAgree(s: seq<Node>)
    requires forall n :: n in s ==> n.key == n.val
    ensures SortedVals(s) <==> SortedKeys(s)
  {
    assert forall i :: 0 <= i < |s| ==> s[i] in s;
  }

  // ----- Replacement -----

  /** rb_replace_node: `nw` takes the place of `victim`. */
  ghost function Replace(t: Tree, victim: Node, nw: Node): Tree {
    match t
    case Leaf => Leaf
    case Bin(l, n, r) =>
      Bin(Replace(l, victim, nw), if n == victim then nw else n, Replace(r, victim, nw))
  }

  ghost function ReplaceIn(s: seq<Node>, victim: Node, nw: Node): (r: seq<Node>)
    ensures |r| == |s|
    ensures forall i :: 0 <= i < |s| ==> r[i] == if s[i] == victim then nw else s[i]
  {
    if s == [] then [] else [if s[0] == victim then nw else s[0]] + ReplaceIn(s[1..], victim, nw)
  }

  lemma {:induction false} ReplaceInorder(t: Tree, victim: Node, nw: Node)
    ensures Inorder(Replace(t, victim, nw)) == ReplaceIn(Inorder(t), victim, nw)
  {
    if t.Bin? {
      ReplaceInorder(t.left, victim, nw);
      ReplaceInorder(t.right, victim, nw);
    }
  }

  /** The node at position `i` of the traversal can be replaced without harm to the search
      if and only if the new value lies strictly between the values of its neighbours. */
  lemma ReplaceKeepsOrderIff(s: seq<Node>, i: nat, nw: Node)
    requires i < |s| && SortedVals(s)
    ensures SortedVals(s[i := nw]) <==>
            (i > 0 ==> s[i - 1].val < nw.val) && (i + 1 < |s| ==> nw.val < s[i + 1].val)
  {
    var r := s[i := nw];
    if i > 0 && SortedVals(r) {
      assert r[i - 1].val < r[i].val;
    }
    if i + 1 < |s| && SortedVals(r) {
      assert r[i].val < r[i + 1].val;
    }
    if (i > 0 ==> s[i - 1].val < nw.val) && (i + 1 < |s| ==> nw.val < s[i + 1].val) {
      forall a, b | 0 <= a < b < |r|
        ensures r[a].val < r[b].val
      {
        assert a < i - 1 ==> s[a].val < s[i - 1].val;
        assert b > i + 1 ==> s[i + 1].val < s[b].val;
      }
    }
  }

  lemma ReplaceAt(s: seq<Node>, i: nat, victim: Node, nw: Node)
    requires SortedVals(s) && i < |s| && victim == s[i]
    ensures ReplaceIn(s, victim, nw) == s[i := nw]
  {
    assert forall j :: 0 <= j < i ==> ValOf(s[j]) < ValOf(s[i]);
    assert forall j :: i < j < |s| ==> ValOf(s[i]) < ValOf(s[j]);
  }

  /** The same, said of the search after the replacement. */
  lemma ReplaceKeepsSearchIff(t: Tree, s: seq<Node>, i: nat, victim: Node, nw: Node)
    requires Distinct(t) && s == Inorder(t) && SortedVals(s)
    requires i < |s| && victim == s[i] && nw !in Nodes(t)
    ensures AllFound(Replace(t, victim, nw)) <==>
            (i > 0 ==> s[i - 1].val < nw.val) && (i + 1 < |s| ==> nw.val < s[i + 1].val)
  {
    var r := Replace(t, victim, nw);
    ReplaceInorder(t, victim, nw);
    ReplaceAt(s, i, victim, nw);
    ReplaceDistinct(t, victim, nw);
    AllFoundIff(r);
    assert Inorder(r) == s[i := nw];
    ReplaceKeepsOrderIff(s, i, nw);
  }

  /** The demonstration in mod_init: key 2 is replaced by a node with value 100. Whatever
      the tree's shape, the search for 2 then answers null although a node with key 2 is
      there, and some node is not found by its own value. */
  lemma DemoReplacement(t: Tree, nw: Node)
    requires Distinct(t) && |Inorder(t)| == 11 && nw !in Nodes(t)
    requires forall i :: 0 <= i < 11 ==> Inorder(t)[i].key == Inorder(t)[i].val == i + 1
    requires nw.key == 2 && nw.val == 100
    ensures var r := Replace(t, Inorder(t)[1], nw);
            && nw in Nodes(r) && Find(r, 2) == null && !AllFound(r)
  {
    var s, r := Inorder(t), Replace(t, Inorder(t)[1], nw);
    assert s[2] in s;
    ReplaceKeepsSearchIff(t, s, 1, s[1], nw);
    ReplaceInorder(t, s[1], nw);
    var s' := Inorder(r);
    assert s'[1] == nw && s'[1] in s';
    FindSound(r, 2);
    forall n | n in Nodes(r)
      ensures n.val != 2
    {
      var i :| 0 <= i < |s'| && s'[i] == n;
    }
  }

  lemma {:induction false} ReplaceDistinct(t: Tree, victim: Node, nw: Node)
    requires Distinct(t) && nw !in Nodes(t)
    ensures Distinct(Replace(t, victim, nw))
    ensures Nodes(Replace(t, victim, nw)) == if victim in Nodes(t) then Nodes(t) - {victim} + {nw} else Nodes(t)
  {
    if t.Bin? {
      ReplaceDistinct(t.left, victim, nw);
      ReplaceDistinct(t.right, victim, nw);
    }
  }
}
