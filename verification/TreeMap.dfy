/** What a list of nodes in order stands for: a map from keys to values. */
module TreeMap {
  import opened OrderedTree

  ghost function Contents(s: seq<Node>): map<int, int>
    decreases |s|
  {
    if s == [] then map[] else Contents(s[..|s| - 1])[s[|s| - 1].key := s[|s| - 1].val]
  }

  /** Adding a pair leaves a key that is already there alone. */
  ghost function AddOne(m: map<int, int>, key: int, val: int): map<int, int> {
    if key in m then m else m[key := val]
  }

  ghost function AddAll(m: map<int, int>, arr: seq<(int, int)>): map<int, int>
    decreases |arr|
  {
    if arr == [] then m
    else AddOne(AddAll(m, arr[..|arr| - 1]), arr[|arr| - 1].0, arr[|arr| - 1].1)
  }

  lemma AddAllNext(m: map<int, int>, arr: seq<(int, int)>, i: nat)
    requires i < |arr|
    ensures AddAll(m, arr[..i + 1]) == AddOne(AddAll(m, arr[..i]), arr[i].0, arr[i].1)
  {
    assert arr[..i + 1][..i] == arr[..i];
  }

  /** The first pair of the array with a new key decides its value. */
  lemma {:induction false} FirstWins(m: map<int, int>, arr: seq<(int, int)>, i: nat)
    requires i < |arr| && arr[i].0 !in m
    requires forall j :: 0 <= j < i ==> arr[j].0 != arr[i].0
    ensures arr[i].0 in AddAll(m, arr) && AddAll(m, arr)[arr[i].0] == arr[i].1
    decreases |arr|
  {
    var init := arr[..|arr| - 1];
    if i < |init| {
      FirstWins(m, init, i);
    } else {
      AddAllKeys(m, init, arr[i].0);
    }
  }

  ghost predicate HasKey(arr: seq<(int, int)>, k: int) {
    exists i :: 0 <= i < |arr| && arr[i].0 == k
  }

  /** The keys are those of the map and those of the array; a key of the map keeps its value. */
  lemma {:induction false} AddAllKeys(m: map<int, int>, arr: seq<(int, int)>, k: int)
    ensures k in AddAll(m, arr) <==> k in m || HasKey(arr, k)
    ensures k in m ==> AddAll(m, arr)[k] == m[k]
    decreases |arr|
  {
    if arr != [] {
      var init := arr[..|arr| - 1];
      AddAllKeys(m, init, k);
      assert HasKey(arr, k) <==> HasKey(init, k) || arr[|arr| - 1].0 == k by {
        if HasKey(init, k) {
          var i :| 0 <= i < |init| && init[i].0 == k;
          assert arr[i].0 == k;
        }
      }
    }
  }

  /** The nodes carry exactly the pairs of `m`. */
  ghost predicate Carry(s: seq<Node>, m: map<int, int>) {
    && (forall n :: n in s ==> n.key in m && m[n.key] == n.val)
    && (forall k :: k in m ==> exists n :: n in s && n.key == k)
  }

  lemma {:induction false} ContentsCarried(s: seq<Node>)
    requires SortedKeys(s)
    ensures Carry(s, Contents(s))
    decreases |s|
  {
    if s != [] {
      var init, last := s[..|s| - 1], s[|s| - 1];
      ContentsCarried(init);
      LastIsGreatest(s);
      CarryOne(init, last, Contents(init));
      assert s == init + [last];
    }
  }

  lemma CarryOne(init: seq<Node>, last: Node, m: map<int, int>)
    requires Carry(init, m) && last.key !in m
    ensures Carry(init + [last], m[last.key := last.val])
  {
    var s := init + [last];
    assert s[|s| - 1] == last && last in s;
    forall k | k in m
      ensures exists n :: n in s && n.key == k
    {
      var n :| n in init && n.key == k;
      assert n in s;
    }
  }

  lemma {:induction false} ContentsBelow(s: seq<Node>, b: int)
    requires forall i :: 0 <= i < |s| ==> s[i].key < b
    ensures forall k :: k in Contents(s) ==> k < b
    decreases |s|
  {
    if s != [] {
      ContentsBelow(s[..|s| - 1], b);
    }
  }

  lemma LastIsGreatest(s: seq<Node>)
    requires s != [] && SortedKeys(s)
    ensures var init, last := s[..|s| - 1], s[|s| - 1];
            && SortedKeys(init)
            && (forall k :: k in Contents(init) ==> k < last.key)
            && Contents(s) == Contents(init)[last.key := last.val]
            && Contents(init) == Contents(s) - {last.key}
  {
    var init, last := s[..|s| - 1], s[|s| - 1];
    forall i | 0 <= i < |init|
      ensures init[i].key < last.key
    {
      assert KeyOf(s[i]) < KeyOf(last);
    }
    ContentsBelow(init, last.key);
  }

  lemma CarriedUnique(s: seq<Node>, m: map<int, int>, m': map<int, int>)
    requires Carry(s, m) && Carry(s, m')
    ensures m == m'
  {
    assert forall k :: k in m ==> k in m' && m[k] == m'[k];
    assert forall k :: k in m' ==> k in m;
  }

  /** Insertion into the tree is insertion into the map. */
  lemma InsContents(t: Tree, n: Node)
    requires SortedKeys(Inorder(t))
    ensures Contents(Inorder(Ins(t, n))) == AddOne(Contents(Inorder(t)), n.key, n.val)
  {
    var s, s' := Inorder(t), Inorder(Ins(t, n));
    InsNodes(t, n);
    InsKeepsOrder(t, n);
    PresentIffStored(t, n.key);
    ContentsCarried(s);
    ContentsCarried(s');
    if !Present(t, n.key) {
      AddedCarried(s, s', Contents(s), n);
      CarriedUnique(s', Contents(s'), AddOne(Contents(s), n.key, n.val));
    }
  }

  lemma AddedCarried(s: seq<Node>, s': seq<Node>, m: map<int, int>, n: Node)
    requires Carry(s, m) && n in s'
    requires forall x :: x in s' <==> x in s || x == n
    requires forall x :: x in s ==> x.key != n.key
    ensures Carry(s', AddOne(m, n.key, n.val))
  {
    assert n.key !in m;
  }

  /** The keys of a list in order are determined by the set of keys, and with equal maps so
      are the values: the traversal of a tree is the sorted list of its map. */
  lemma {:induction false} SortedListUnique(s: seq<Node>, s': seq<Node>)
    requires SortedKeys(s) && SortedKeys(s')
    requires Contents(s).Keys == Contents(s').Keys
    ensures |s| == |s'| && forall i :: 0 <= i < |s| ==> s[i].key == s'[i].key
    ensures Contents(s) == Contents(s') ==> forall i :: 0 <= i < |s| ==> s[i].val == s'[i].val
    decreases |s|
  {
    if s == [] {
      if s' != [] {
        LastIsGreatest(s');
        assert false;
      }
    } else {
      assert s[|s| - 1].key in Contents(s).Keys;
      LastIsGreatest(s);
      LastIsGreatest(s');
      var k, k' := s[|s| - 1].key, s'[|s'| - 1].key;
      assert k' in Contents(s).Keys && k in Contents(s').Keys;
      assert k == k';
      SortedListUnique(s[..|s| - 1], s'[..|s'| - 1]);
    }
  }

  /** The keys do not depend on the order in which the array is inserted. */
  lemma OrderDoesNotMatter(arr: seq<(int, int)>, arr': seq<(int, int)>, s: seq<Node>, s': seq<Node>)
    requires multiset(arr) == multiset(arr') && SortedKeys(s) && SortedKeys(s')
    requires Contents(s) == AddAll(map[], arr) && Contents(s') == AddAll(map[], arr')
    ensures |s| == |s'| && forall i :: 0 <= i < |s| ==> s[i].key == s'[i].key
  {
    forall k
      ensures k in Contents(s) <==> k in Contents(s')
    {
      AddAllKeys(map[], arr, k);
      AddAllKeys(map[], arr', k);
      SameKeys(arr, arr', k);
      SameKeys(arr', arr, k);
    }
    SortedListUnique(s, s');
  }

  lemma SameKeys(arr: seq<(int, int)>, arr': seq<(int, int)>, k: int)
    requires multiset(arr) == multiset(arr')
    ensures HasKey(arr, k) ==> HasKey(arr', k)
  {
    if i :| 0 <= i < |arr| && arr[i].0 == k {
      assert arr[i] in multiset(arr');
      assert arr[i] in arr';
    }
  }

  /** Greater keys have greater values. */
  ghost predicate Rising(m: map<int, int>) {
    forall k, k' :: k in m && k' in m && k < k' ==> m[k] < m[k']
  }

  /** The search of a tree in order by key is complete if and only if the map that the tree
      stands for is strictly increasing. */
  lemma SearchableIff(t: Tree)
    requires Distinct(t) && SortedKeys(Inorder(t))
    ensures AllFound(t) <==> Rising(Contents(Inorder(t)))
  {
    AllFoundIff(t);
    ContentsCarried(Inorder(t));
    RisingIff(Inorder(t), Contents(Inorder(t)));
  }

  lemma RisingIff(s: seq<Node>, m: map<int, int>)
    requires SortedKeys(s) && Carry(s, m)
    ensures Rising(m) <==> SortedVals(s)
  {
    if Rising(m) {
      forall i, j | 0 <= i < j < |s|
        ensures ValOf(s[i]) < ValOf(s[j])
      {
        assert s[i] in s && s[j] in s && KeyOf(s[i]) < KeyOf(s[j]);
      }
    }
    if SortedVals(s) {
      forall k, k' | k in m && k' in m && k < k'
        ensures m[k] < m[k']
      {
        var i := PlaceOf(s, m, k);
        var j := PlaceOf(s, m, k');
        assert i > j ==> KeyOf(s[j]) < KeyOf(s[i]);
        assert i < j ==> ValOf(s[i]) < ValOf(s[j]);
      }
    }
  }

  lemma PlaceOf(s: seq<Node>, m: map<int, int>, k: int) returns (i: nat)
    requires Carry(s, m) && k in m
    ensures i < |s| && s[i].key == k && s[i].val == m[k]
  {
    var n :| n in s && n.key == k;
    i :| i < |s| && s[i] == n;
  }

  lemma {:induction false} DiagonalKept(arr: seq<(int, int)>)
    requires forall i :: 0 <= i < |arr| ==> arr[i].0 == arr[i].1
    ensures forall k :: k in AddAll(map[], arr) ==> AddAll(map[], arr)[k] == k
    decreases |arr|
  {
    if arr != [] {
      DiagonalKept(arr[..|arr| - 1]);
    }
  }

  lemma CarriedDiagonal(s: seq<Node>, m: map<int, int>)
    requires Carry(s, m) && forall k :: k in m ==> m[k] == k
    ensures forall n :: n in s ==> n.key == n.val
    ensures forall k :: k in m <==> exists n :: n in s && n.val == k
  {
  }

  /** A tree built from pairs of equal key and val, as in mod_init, is in order by val too,
      so that the search finds exactly the keys of the array. */
  lemma DiagonalSearch(t: Tree, arr: seq<(int, int)>, target: int)
    requires Distinct(t) && SortedKeys(Inorder(t)) && Contents(Inorder(t)) == AddAll(map[], arr)
    requires forall i :: 0 <= i < |arr| ==> arr[i].0 == arr[i].1
    ensures AllFound(t)
    ensures Find(t, target) != null <==> HasKey(arr, target)
  {
    var s, m := Inorder(t), AddAll(map[], arr);
    ContentsCarried(s);
    DiagonalKept(arr);
    CarriedDiagonal(s, m);
    KeyValAgree(s);
    AllFoundIff(t);
    FindComplete(t, target);
    AddAllKeys(map[], arr, target);
  }
}
