/** The station table as the program keeps it: nodes linked by pointers and updated in
    place. Every operation is proved to do to the tree the nodes form what the operation
    on values does. */
module StationHeap {
  import opened Options
  import opened StationTree
  import opened StationTable

  class AvlNode {
    var index: int
    var radioID: int
    var staAddr: EthAddr
    var bssid: EthAddr
    var left: AvlNode?
    var right: AvlNode?
    var height: int

    /** All nodes of the tree below, this one included, and the tree they form. */
    ghost var repr: set<AvlNode>
    ghost var tree: Tree

    ghost predicate Valid()
      reads this, repr
      decreases repr
    {
      && this in repr
      && (left != null ==> left in repr && left.repr <= repr && this !in left.repr && left.Valid())
      && (right != null ==> right in repr && right.repr <= repr && this !in right.repr && right.Valid())
      && (left != null && right != null ==> left.repr !! right.repr)
      && tree == Node(TreeOf(left), staAddr, Entry(index, radioID, bssid), height, TreeOf(right))
    }

    constructor (k: EthAddr, e: Entry)
      ensures Valid() && fresh(repr) && tree == Node(Leaf, k, e, 0, Leaf)
    {
      staAddr, index, radioID, bssid := k, e.index, e.radioID, e.bssid;
      left, right, height := null, null, 0;
      repr, tree := {this}, Node(Leaf, k, e, 0, Leaf);
    }
  }

  ghost function TreeOf(n: AvlNode?): Tree
    reads n
  {
    if n == null then Leaf else n.tree
  }

  ghost function ReprOf(n: AvlNode?): set<AvlNode>
    reads n
  {
    if n == null then {} else n.repr
  }

  /** A tree or no tree. */
  ghost predicate Good(n: AvlNode?)
    reads n, ReprOf(n)
  {
    n != null ==> n.Valid()
  }

  /** `AVLheight` */
  method HeightOf(n: AvlNode?) returns (h: int)
    requires Good(n)
    ensures h == Height(TreeOf(n))
  {
    h := if n == null then -1 else n.height;
  }

  /** The two trees may become the children of `n`. */
  ghost predicate Apart(n: AvlNode, l: AvlNode?, r: AvlNode?)
    reads l, r, ReprOf(l), ReprOf(r)
  {
    Good(l) && Good(r) && n !in ReprOf(l) && n !in ReprOf(r) && ReprOf(l) !! ReprOf(r)
  }

  ghost function EntryOf(n: AvlNode): Entry
    reads n
  {
    Entry(n.index, n.radioID, n.bssid)
  }

  /** Stores the links and the height of a node. */
  method SetNode(n: AvlNode, l: AvlNode?, r: AvlNode?, h: int)
    requires Apart(n, l, r)
    modifies n
    ensures n.Valid() && n.repr == {n} + ReprOf(l) + ReprOf(r) && n.left == l && n.right == r
    ensures n.tree == Node(TreeOf(l), n.staAddr, EntryOf(n), h, TreeOf(r))
    ensures n.staAddr == old(n.staAddr) && EntryOf(n) == old(EntryOf(n))
  {
    n.left, n.right, n.height := l, r, h;
    n.repr, n.tree := {n} + ReprOf(l) + ReprOf(r), Node(TreeOf(l), n.staAddr, EntryOf(n), h, TreeOf(r));
  }

  /** Gives a node its children and the height that follows from them. */
  method Relink(n: AvlNode, l: AvlNode?, r: AvlNode?)
    requires Apart(n, l, r)
    modifies n
    ensures n.Valid() && n.repr == {n} + ReprOf(l) + ReprOf(r) && n.left == l && n.right == r
    ensures n.tree == Join(TreeOf(l), n.staAddr, EntryOf(n), TreeOf(r))
    ensures n.staAddr == old(n.staAddr) && EntryOf(n) == old(EntryOf(n))
  {
    var hl := HeightOf(l);
    var hr := HeightOf(r);
    SetNode(n, l, r, Max(hl, hr) + 1);
  }

  // In the operations below, `ok` is false where the program would follow a null pointer.

  /** `AVLsingle_rotate_with_left` */
  method SingleRotateWithLeft(k2: AvlNode) returns (ok: bool, k1: AvlNode)
    requires k2.Valid()
    modifies k2.repr
    ensures ok == RotateWithLeft(old(k2.tree)).Some?
    ensures ok ==> k1.Valid() && k1.repr <= old(k2.repr) && k1.tree == RotateWithLeft(old(k2.tree)).value
  {
    if k2.left == null {
      return false, k2;
    }
    k1 := k2.left;
    Relink(k2, k1.right, k2.right);
    Relink(k1, k1.left, k2);
    ok := true;
  }

  /** `AVLsingle_rotate_with_right` */
  method SingleRotateWithRight(k1: AvlNode) returns (ok: bool, k2: AvlNode)
    requires k1.Valid()
    modifies k1.repr
    ensures ok == RotateWithRight(old(k1.tree)).Some?
    ensures ok ==> k2.Valid() && k2.repr <= old(k1.repr) && k2.tree == RotateWithRight(old(k1.tree)).value
  {
    if k1.right == null {
      return false, k1;
    }
    k2 := k1.right;
    Relink(k1, k1.left, k2.left);
    Relink(k2, k1, k2.right);
    ok := true;
  }

  /** `AVLdouble_rotate_with_left` */
  method DoubleRotateLeft(k3: AvlNode) returns (ok: bool, k2: AvlNode)
    requires k3.Valid()
    modifies k3.repr
    ensures ok == DoubleRotateWithLeft(old(k3.tree)).Some?
    ensures ok ==> k2.Valid() && k2.repr <= old(k3.repr) && k2.tree == DoubleRotateWithLeft(old(k3.tree)).value
  {
    if k3.left == null {
      return false, k3;
    }
    var l;
    ok, l := SingleRotateWithRight(k3.left);
    if !ok {
      return false, k3;
    }
    Relink(k3, l, k3.right);
    ok, k2 := SingleRotateWithLeft(k3);
  }

  /** `AVLdouble_rotate_with_right` */
  method DoubleRotateRight(k1: AvlNode) returns (ok: bool, k2: AvlNode)
    requires k1.Valid()
    modifies k1.repr
    ensures ok == DoubleRotateWithRight(old(k1.tree)).Some?
    ensures ok ==> k2.Valid() && k2.repr <= old(k1.repr) && k2.tree == DoubleRotateWithRight(old(k1.tree)).value
  {
    if k1.right == null {
      return false, k1;
    }
    var r;
    ok, r := SingleRotateWithLeft(k1.right);
    if !ok {
      return false, k1;
    }
    Relink(k1, k1.left, r);
    ok, k2 := SingleRotateWithRight(k1);
  }

  // ---------- insertion ----------

  /** The repairs do not look at the root's own stored height. */
  lemma FixIgnoresHeight(t: Tree, k: EthAddr)
    requires t.Node?
    ensures var a, b := InsertLeftFix(t, k), InsertLeftFix(WithHeight(t), k);
            a.Some? == b.Some? && (a.Some? ==> WithHeight(a.value) == WithHeight(b.value))
    ensures var a, b := InsertRightFix(t, k), InsertRightFix(WithHeight(t), k);
            a.Some? == b.Some? && (a.Some? ==> WithHeight(a.value) == WithHeight(b.value))
  {
  }

  method FixLeft(t: AvlNode, k: EthAddr) returns (ok: bool, r: AvlNode)
    requires t.Valid() && t.tree == WithHeight(t.tree)
    modifies t.repr
    ensures ok == InsertLeftFix(old(t.tree), k).Some?
    ensures ok ==> r.Valid() && r.repr <= old(t.repr) && r.tree == WithHeight(InsertLeftFix(old(t.tree), k).value)
  {
    ok, r := true, t;
    var hl := HeightOf(t.left);
    var hr := HeightOf(t.right);
    if hl - hr == 2 {
      if t.left == null {
        ok := false;
      } else if k < t.left.staAddr {
        ok, r := SingleRotateWithLeft(t);
      } else {
        ok, r := DoubleRotateLeft(t);
      }
    }
  }

  method FixRight(t: AvlNode, k: EthAddr) returns (ok: bool, r: AvlNode)
    requires t.Valid() && t.tree == WithHeight(t.tree)
    modifies t.repr
    ensures ok == InsertRightFix(old(t.tree), k).Some?
    ensures ok ==> r.Valid() && r.repr <= old(t.repr) && r.tree == WithHeight(InsertRightFix(old(t.tree), k).value)
  {
    ok, r := true, t;
    var hl := HeightOf(t.left);
    var hr := HeightOf(t.right);
    if hr - hl == 2 {
      if t.right == null {
        ok := false;
      } else if k > t.right.staAddr {
        ok, r := SingleRotateWithRight(t);
      } else {
        ok, r := DoubleRotateRight(t);
      }
    }
  }

  /** `AVLinsert` */
  method InsertStation(k: EthAddr, e: Entry, t: AvlNode?) returns (ok: bool, r: AvlNode?)
    requires Good(t)
    modifies ReprOf(t)
    decreases TreeOf(t), 1
    ensures ok == Insert(old(TreeOf(t)), k, e).Some?
    ensures ok ==> r != null && r.Valid() && fresh(r.repr - old(ReprOf(t)))
    ensures ok ==> r.tree == Insert(old(TreeOf(t)), k, e).value
  {
    if t == null {
      r := new AvlNode(k, e);
      ok := true;
    } else if k < t.staAddr {
      ok, r := InsertLeft(k, e, t);
    } else if k > t.staAddr {
      ok, r := InsertRight(k, e, t);
    } else {
      Relink(t, t.left, t.right);
      ok, r := true, t;
    }
  }

  method InsertLeft(k: EthAddr, e: Entry, t: AvlNode) returns (ok: bool, r: AvlNode?)
    requires t.Valid() && k < t.staAddr
    modifies t.repr
    decreases t.tree, 0
    ensures ok == Insert(old(t.tree), k, e).Some?
    ensures ok ==> r != null && r.Valid() && fresh(r.repr - old(t.repr)) && r.tree == Insert(old(t.tree), k, e).value
  {
    ghost var was := t.tree;
    var l;
    assert Good(t.right);
    ok, l := InsertStation(k, e, t.left);
    if !ok {
      return false, null;
    }
    Relink(t, l, t.right);
    FixIgnoresHeight(was.(left := l.tree), k);
    ok, r := FixLeft(t, k);
  }

  method InsertRight(k: EthAddr, e: Entry, t: AvlNode) returns (ok: bool, r: AvlNode?)
    requires t.Valid() && k > t.staAddr
    modifies t.repr
    decreases t.tree, 0
    ensures ok == Insert(old(t.tree), k, e).Some?
    ensures ok ==> r != null && r.Valid() && fresh(r.repr - old(t.repr)) && r.tree == Insert(old(t.tree), k, e).value
  {
    ghost var was := t.tree;
    var rt;
    assert Good(t.left);
    ok, rt := InsertStation(k, e, t.right);
    if !ok {
      return false, null;
    }
    Relink(t, t.left, rt);
    FixIgnoresHeight(was.(right := rt.tree), k);
    ok, r := FixRight(t, k);
  }

  // ---------- deletion ----------

  /** `AVLminValueNode` */
  method MinValueNode(t: AvlNode) returns (n: AvlNode)
    requires t.Valid()
    ensures n.staAddr == Min(t.tree).0 && EntryOf(n) == Min(t.tree).1
  {
    n := t;
    while n.left != null
      invariant n.Valid() && Min(n.tree) == Min(t.tree)
      decreases n.tree
    {
      n := n.left;
    }
  }

  /** `AVLgetBalance` */
  method BalanceOf(n: AvlNode?) returns (b: int)
    requires Good(n)
    ensures b == Balance(TreeOf(n))
  {
    if n == null {
      return 0;
    }
    var hl := HeightOf(n.left);
    var hr := HeightOf(n.right);
    b := hl - hr;
  }

  method FixLeftHeavyNode(t: AvlNode, f: Fixup) returns (ok: bool, r: AvlNode)
    requires t.Valid() && !f.Off?
    modifies t.repr
    ensures ok == FixLeftHeavy(old(t.tree), f).Some?
    ensures ok ==> r.Valid() && r.repr <= old(t.repr) && r.tree == FixLeftHeavy(old(t.tree), f).value
  {
    var b := BalanceOf(t.left);
    if f.Intended? {
      if b >= 0 {
        ok, r := SingleRotateWithLeft(t);
      } else {
        ok, r := DoubleRotateLeft(t);
      }
    } else if b >= 0 {
      ok, r := SingleRotateWithRight(t);
    } else {
      ok, r := WrongDoubleLeft(t);
    }
  }

  /** The left-right case as written. */
  method WrongDoubleLeft(t: AvlNode) returns (ok: bool, r: AvlNode)
    requires t.Valid() && Balance(t.tree.left) < 0
    modifies t.repr
    ensures ok == FixLeftHeavy(old(t.tree), AsWritten).Some?
    ensures ok ==> r.Valid() && r.repr <= old(t.repr) && r.tree == FixLeftHeavy(old(t.tree), AsWritten).value
  {
    var l;
    ok, l := SingleRotateWithLeft(t.left);
    r := t;
    if ok {
      Relink(t, l, t.right);
      ok, r := SingleRotateWithRight(t);
    }
  }

  method FixRightHeavyNode(t: AvlNode, f: Fixup) returns (ok: bool, r: AvlNode)
    requires t.Valid() && !f.Off?
    modifies t.repr
    ensures ok == FixRightHeavy(old(t.tree), f).Some?
    ensures ok ==> r.Valid() && r.repr <= old(t.repr) && r.tree == FixRightHeavy(old(t.tree), f).value
  {
    var b := BalanceOf(t.right);
    if f.Intended? {
      if b <= 0 {
        ok, r := SingleRotateWithRight(t);
      } else {
        ok, r := DoubleRotateRight(t);
      }
    } else if b <= 0 {
      ok, r := SingleRotateWithLeft(t);
    } else {
      ok, r := WrongDoubleRight(t);
    }
  }

  /** The right-left case as written. */
  method WrongDoubleRight(t: AvlNode) returns (ok: bool, r: AvlNode)
    requires t.Valid() && Balance(t.tree.right) > 0
    modifies t.repr
    ensures ok == FixRightHeavy(old(t.tree), AsWritten).Some?
    ensures ok ==> r.Valid() && r.repr <= old(t.repr) && r.tree == FixRightHeavy(old(t.tree), AsWritten).value
  {
    var rt;
    ok, rt := SingleRotateWithRight(t.right);
    r := t;
    if ok {
      Relink(t, t.left, rt);
      ok, r := SingleRotateWithLeft(t);
    }
  }

  /** Step 3 of a deletion. */
  method RebalanceNode(t: AvlNode, f: Fixup) returns (ok: bool, r: AvlNode)
    requires t.Valid() && !f.Off?
    modifies t.repr
    ensures ok == Rebalance(old(t.tree), f).Some?
    ensures ok ==> r.Valid() && r.repr <= old(t.repr) && r.tree == Rebalance(old(t.tree), f).value
  {
    var b := BalanceOf(t);
    if b > 1 {
      ok, r := FixLeftHeavyNode(t, f);
    } else if b < -1 {
      ok, r := FixRightHeavyNode(t, f);
    } else {
      ok, r := true, t;
    }
  }

  /** Puts another station into a node and gives it other children; the height follows. */
  method Overwrite(n: AvlNode, k: EthAddr, e: Entry, l: AvlNode?, r: AvlNode?)
    requires Apart(n, l, r)
    modifies n
    ensures n.Valid() && n.repr == {n} + ReprOf(l) + ReprOf(r)
    ensures n.tree == Join(TreeOf(l), k, e, TreeOf(r))
  {
    var hl := HeightOf(l);
    var hr := HeightOf(r);
    n.staAddr, n.index, n.radioID, n.bssid := k, e.index, e.radioID, e.bssid;
    SetNode(n, l, r, Max(hl, hr) + 1);
  }

  /** `AVLdeleteNode` with a radio, `AVLdeleteNodeWithoutRadioID` without. */
  method DeleteStation(t: AvlNode?, k: EthAddr, radio: Option<int>, f: Fixup) returns (ok: bool, r: AvlNode?)
    requires Good(t) && !f.Off?
    modifies ReprOf(t)
    decreases TreeOf(t), 1
    ensures ok == Delete(old(TreeOf(t)), k, radio, f).Some?
    ensures ok ==> Good(r) && ReprOf(r) <= old(ReprOf(t))
    ensures ok ==> TreeOf(r) == Delete(old(TreeOf(t)), k, radio, f).value
  {
    if t == null {
      ok, r := true, null;
    } else if k < t.staAddr {
      ok, r := DeleteLeft(t, k, radio, f);
    } else if k > t.staAddr {
      ok, r := DeleteRight(t, k, radio, f);
    } else if radio.Some? && radio.value != t.radioID {
      Relink(t, t.left, t.right);
      ok, r := RebalanceNode(t, f);
    } else if t.left == null && t.right == null {
      ok, r := true, null;
    } else if t.left == null || t.right == null {
      ok, r := DeleteOuterNode(t, f);
    } else {
      ok, r := DeleteInnerNode(t, radio, f);
    }
  }

  method DeleteLeft(t: AvlNode, k: EthAddr, radio: Option<int>, f: Fixup) returns (ok: bool, r: AvlNode)
    requires t.Valid() && k < t.staAddr && !f.Off?
    modifies t.repr
    decreases t.tree, 0
    ensures ok == Delete(old(t.tree), k, radio, f).Some?
    ensures ok ==> r.Valid() && r.repr <= old(t.repr) && r.tree == Delete(old(t.tree), k, radio, f).value
  {
    assert Good(t.right);
    var l;
    ok, l := DeleteStation(t.left, k, radio, f);
    r := t;
    if ok {
      Relink(t, l, t.right);
      ok, r := RebalanceNode(t, f);
    }
  }

  method DeleteRight(t: AvlNode, k: EthAddr, radio: Option<int>, f: Fixup) returns (ok: bool, r: AvlNode)
    requires t.Valid() && k > t.staAddr && !f.Off?
    modifies t.repr
    decreases t.tree, 0
    ensures ok == Delete(old(t.tree), k, radio, f).Some?
    ensures ok ==> r.Valid() && r.repr <= old(t.repr) && r.tree == Delete(old(t.tree), k, radio, f).value
  {
    assert Good(t.left);
    var rt;
    ok, rt := DeleteStation(t.right, k, radio, f);
    r := t;
    if ok {
      Relink(t, t.left, rt);
      ok, r := RebalanceNode(t, f);
    }
  }

  /** One child: its contents are copied over the node. */
  method DeleteOuterNode(t: AvlNode, f: Fixup) returns (ok: bool, r: AvlNode)
    requires t.Valid() && (t.left == null) != (t.right == null) && !f.Off?
    modifies t.repr
    ensures var was := old(t.tree);
            var child := if was.left.Leaf? then was.right else was.left;
            child.Node? && ok == Settle(child, f).Some? &&
            (ok ==> r.Valid() && r.repr <= old(t.repr) && r.tree == Settle(child, f).value)
  {
    var temp := if t.left != null then t.left else t.right;
    Overwrite(t, temp.staAddr, Entry(temp.index, temp.radioID, temp.bssid), temp.left, temp.right);
    ok, r := RebalanceNode(t, f);
  }

  /** Two children: the successor's station moves here and is deleted below. */
  method DeleteInnerNode(t: AvlNode, radio: Option<int>, f: Fixup) returns (ok: bool, r: AvlNode)
    requires t.Valid() && t.left != null && t.right != null && !f.Off? && Matches(EntryOf(t), radio)
    modifies t.repr
    decreases t.tree, 0
    ensures ok == Delete(old(t.tree), old(t.staAddr), radio, f).Some?
    ensures ok ==> r.Valid() && r.repr <= old(t.repr)
    ensures ok ==> r.tree == Delete(old(t.tree), old(t.staAddr), radio, f).value
  {
    var temp := MinValueNode(t.right);
    var k, e := temp.staAddr, Entry(temp.index, temp.radioID, temp.bssid);
    assert Good(t.left);
    var rt;
    ok, rt := DeleteStation(t.right, k, if radio.Some? then Some(e.radioID) else None, f);
    r := t;
    if ok {
      Overwrite(t, k, e, t.left, rt);
      ok, r := RebalanceNode(t, f);
    }
  }

  // ---------- searches ----------

  /** `AVLfind` */
  method FindStation(k: EthAddr, t: AvlNode?) returns (n: AvlNode?)
    requires Good(t)
    decreases TreeOf(t)
    ensures n == null <==> Find(TreeOf(t), k).None?
    ensures n != null ==> n.staAddr == k && Find(TreeOf(t), k) == Some(EntryOf(n))
  {
    if t == null {
      n := null;
    } else if k < t.staAddr {
      n := FindStation(k, t.left);
    } else if k > t.staAddr {
      n := FindStation(k, t.right);
    } else {
      n := t;
    }
  }

  /** `AVLfindWTPNode`, with the results of the recursive calls returned. */
  method FindWtpNode(t: AvlNode?, index: int) returns (n: AvlNode?)
    requires Good(t)
    decreases TreeOf(t)
    ensures n == null <==> FindWtp(TreeOf(t), index).None?
    ensures n != null ==> FindWtp(TreeOf(t), index) == Some(n.staAddr)
  {
    if t == null {
      return null;
    }
    if t.index == index {
      return t;
    }
    n := FindWtpNode(t.left, index);
    if n == null {
      n := FindWtpNode(t.right, index);
    }
  }

  /** The global `avlTree` and what the controller does with it under its mutex. */
  class Table {
    var avlTree: AvlNode?

    ghost predicate Valid()
      reads this, avlTree, ReprOf(avlTree)
    {
      Good(avlTree)
    }

    ghost function Value(): Tree
      reads this, avlTree
    {
      TreeOf(avlTree)
    }

    constructor ()
      ensures Valid() && Value() == Leaf && fresh(ReprOf(avlTree))
    {
      avlTree := null;
    }

    /** Association of a station, in the order of the program: search, perhaps delete with
        the new radio, insert. */
    method AssociateStation(k: EthAddr, e: Entry, f: Fixup) returns (ok: bool)
      requires Valid() && !f.Off?
      modifies this, ReprOf(avlTree)
      ensures ok == Associate(old(Value()), k, e, f).Some?
      ensures ok ==> Valid() && Value() == Associate(old(Value()), k, e, f).value
      ensures ok ==> fresh(ReprOf(avlTree) - old(ReprOf(avlTree)))
    {
      var n := FindStation(k, avlTree);
      var r;
      if n == null {
        ok, r := InsertStation(k, e, avlTree);
        avlTree := r;
      } else if n.radioID != e.radioID || n.index != e.index {
        ok, r := DeleteStation(avlTree, k, Some(e.radioID), f);
        if ok {
          avlTree := r;
          ok, r := InsertStation(k, e, avlTree);
          avlTree := r;
        }
      } else {
        ok := true;
      }
    }

    /** The loop over the table when the session of an access point closes. */
    method PurgeWtp(index: int, f: Fixup) returns (ok: bool)
      requires Valid() && Ordered(Value()) && !f.Off?
      modifies this, ReprOf(avlTree)
      ensures ok == Purge(old(Value()), index, f).Some?
      ensures ok ==> Valid() && Value() == Purge(old(Value()), index, f).value
      ensures ok ==> fresh(ReprOf(avlTree) - old(ReprOf(avlTree)))
    {
      ghost var start := Value();
      while true
        invariant Valid() && Ordered(Value()) && ReprOf(avlTree) <= old(ReprOf(avlTree))
        invariant Purge(Value(), index, f) == Purge(start, index, f)
        decreases |StationsOf(Contents(Value()), index)|
      {
        var tmp := FindWtpNode(avlTree, index);
        if tmp == null {
          return true;
        }
        ghost var before := Value();
        var r;
        ok, r := DeleteStation(avlTree, tmp.staAddr, None, f);
        if !ok {
          return false;
        }
        avlTree := r;
        PurgeTurn(before, index, f, FindWtp(before, index).value, Value());
        if avlTree == null {
          return true;
        }
      }
    }
  }
}
