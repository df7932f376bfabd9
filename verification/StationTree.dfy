/** The station table as values: an AVL tree from station addresses to the access point
    (WTP) that serves the station. Operations follow the program step by step; `None`
    stands for following a null pointer. */
module StationTree {
  import opened Options

  /** A MAC address as the number its six bytes write, most significant byte first. */
  type EthAddr = x: int | 0 <= x < 0x1_0000_0000_0000

  datatype Entry = Entry(index: int, radioID: int, bssid: EthAddr)

  datatype Tree = Leaf | Node(left: Tree, key: EthAddr, entry: Entry, height: int, right: Tree)

  // ---------- what a tree means ----------

  /** `AVLheight`: the stored height, -1 for no tree. */
  function Height(t: Tree): int {
    if t.Leaf? then -1 else t.height
  }

  function Max(a: int, b: int): int {
    if a > b then a else b
  }

  /** `AVLgetBalance` */
  function Balance(t: Tree): int {
    if t.Leaf? then 0 else Height(t.left) - Height(t.right)
  }

  /** The map a tree stands for. */
  function Contents(t: Tree): map<EthAddr, Entry> {
    if t.Leaf? then map[] else Contents(t.left) + map[t.key := t.entry] + Contents(t.right)
  }

  /** Search order, with all keys strictly between two bounds. */
  predicate Between(t: Tree, lo: int, hi: int) {
    t.Leaf? || (lo < t.key < hi && Between(t.left, lo, t.key) && Between(t.right, t.key, hi))
  }

  predicate Ordered(t: Tree) {
    Between(t, -1, 0x1_0000_0000_0000)
  }

  /** Every stored height is the height. */
  predicate HeightsRight(t: Tree) {
    t.Leaf? || (HeightsRight(t.left) && HeightsRight(t.right) &&
                t.height == Max(Height(t.left), Height(t.right)) + 1)
  }

  predicate Balanced(t: Tree) {
    t.Leaf? || (Balanced(t.left) && Balanced(t.right) && -1 <= Balance(t) <= 1)
  }

  predicate Avl(t: Tree) {
    Ordered(t) && HeightsRight(t) && Balanced(t)
  }

  // ---------- operations ----------

  /** `AVLfind` */
  function Find(t: Tree, k: EthAddr): Option<Entry> {
    if t.Leaf? then None
    else if k < t.key then Find(t.left, k)
    else if k > t.key then Find(t.right, k)
    else Some(t.entry)
  }

  /** A node whose height is computed from its children. */
  function Join(l: Tree, k: EthAddr, e: Entry, r: Tree): Tree {
    Node(l, k, e, Max(Height(l), Height(r)) + 1, r)
  }

  /** `AVLsingle_rotate_with_left`: the left child becomes the root. */
  function RotateWithLeft(t: Tree): Option<Tree> {
    if t.Leaf? || t.left.Leaf? then None
    else Some(Join(t.left.left, t.left.key, t.left.entry, Join(t.left.right, t.key, t.entry, t.right)))
  }

  /** `AVLsingle_rotate_with_right`: the right child becomes the root. */
  function RotateWithRight(t: Tree): Option<Tree> {
    if t.Leaf? || t.right.Leaf? then None
    else Some(Join(Join(t.left, t.key, t.entry, t.right.left), t.right.key, t.right.entry, t.right.right))
  }

  function DoubleRotateWithLeft(t: Tree): Option<Tree> {
    if t.Leaf? then None
    else
      var l :- RotateWithRight(t.left);
      RotateWithLeft(t.(left := l))
  }

  function DoubleRotateWithRight(t: Tree): Option<Tree> {
    if t.Leaf? then None
    else
      var r :- RotateWithLeft(t.right);
      RotateWithRight(t.(right := r))
  }

  /** The height update at the end of an operation. */
  function WithHeight(t: Tree): Tree {
    if t.Leaf? then t else Join(t.left, t.key, t.entry, t.right)
  }

  function InsertLeftFix(t: Tree, k: EthAddr): Option<Tree>
    requires t.Node?
  {
    if Height(t.left) - Height(t.right) == 2 then
      if t.left.Leaf? then None
      else if k < t.left.key then RotateWithLeft(t) else DoubleRotateWithLeft(t)
    else Some(t)
  }

  function InsertRightFix(t: Tree, k: EthAddr): Option<Tree>
    requires t.Node?
  {
    if Height(t.right) - Height(t.left) == 2 then
      if t.right.Leaf? then None
      else if k > t.right.key then RotateWithRight(t) else DoubleRotateWithRight(t)
    else Some(t)
  }

  /** `AVLinsert`: a key that is present keeps its entry. */
  function Insert(t: Tree, k: EthAddr, e: Entry): Option<Tree> {
    if t.Leaf? then Some(Node(Leaf, k, e, 0, Leaf))
    else if k < t.key then
      var l :- Insert(t.left, k, e);
      var t' :- InsertLeftFix(t.(left := l), k);
      Some(WithHeight(t'))
    else if k > t.key then
      var r :- Insert(t.right, k, e);
      var t' :- InsertRightFix(t.(right := r), k);
      Some(WithHeight(t'))
    else Some(WithHeight(t))
  }

  /** `AVLminValueNode` */
  function Min(t: Tree): (EthAddr, Entry)
    requires t.Node?
  {
    if t.left.Leaf? then (t.key, t.entry) else Min(t.left)
  }

  /** Which helper a deletion calls when a node is out of balance. The program calls the
      one opposite to the case named in its comments (`AsWritten`); `Intended` is the one
      that case calls for. `Off` leaves the node as it is, for comparison. */
  datatype Fixup = Intended | AsWritten | Off

  function FixLeftHeavy(t: Tree, f: Fixup): Option<Tree>
    requires t.Node?
  {
    match f
    case Off => Some(t)
    case Intended => if Balance(t.left) >= 0 then RotateWithLeft(t) else DoubleRotateWithLeft(t)
    case AsWritten =>
      if Balance(t.left) >= 0 then RotateWithRight(t)
      else
        var l :- RotateWithLeft(t.left);
        RotateWithRight(t.(left := l))
  }

  function FixRightHeavy(t: Tree, f: Fixup): Option<Tree>
    requires t.Node?
  {
    match f
    case Off => Some(t)
    case Intended => if Balance(t.right) <= 0 then RotateWithRight(t) else DoubleRotateWithRight(t)
    case AsWritten =>
      if Balance(t.right) <= 0 then RotateWithLeft(t)
      else
        var r :- RotateWithRight(t.right);
        RotateWithLeft(t.(right := r))
  }

  function Rebalance(t: Tree, f: Fixup): Option<Tree>
    requires t.Node?
  {
    if Balance(t) > 1 then FixLeftHeavy(t, f)
    else if Balance(t) < -1 then FixRightHeavy(t, f)
    else Some(t)
  }

  /** Steps 2 and 3 of a deletion. */
  function Settle(t: Tree, f: Fixup): Option<Tree>
    requires t.Node?
  {
    Rebalance(WithHeight(t), f)
  }

  /** A deletion that names a radio only removes an entry of that radio. */
  predicate Matches(e: Entry, radio: Option<int>) {
    radio.None? || radio.value == e.radioID
  }

  /** `AVLdeleteNode` with a radio, `AVLdeleteNodeWithoutRadioID` without. */
  function Delete(t: Tree, k: EthAddr, radio: Option<int>, f: Fixup): Option<Tree> {
    if t.Leaf? then Some(Leaf)
    else if k < t.key then
      var l :- Delete(t.left, k, radio, f);
      Settle(t.(left := l), f)
    else if k > t.key then
      var r :- Delete(t.right, k, radio, f);
      Settle(t.(right := r), f)
    else if !Matches(t.entry, radio) then Settle(t, f)
    else if t.left.Leaf? && t.right.Leaf? then Some(Leaf)
    else if t.left.Leaf? then Settle(t.right, f)
    else if t.right.Leaf? then Settle(t.left, f)
    else
      var (k', e') := Min(t.right);
      var r :- Delete(t.right, k', if radio.Some? then Some(e'.radioID) else None, f);
      Settle(Node(t.left, k', e', t.height, r), f)
  }

  // ---------- order and contents ----------

  lemma {:induction false} KeysBetween(t: Tree, lo: int, hi: int, k: EthAddr)
    requires Between(t, lo, hi) && k in Contents(t)
    ensures lo < k < hi
  {
    if k in Contents(t.left) {
      KeysBetween(t.left, lo, t.key, k);
    } else if k in Contents(t.right) {
      KeysBetween(t.right, t.key, hi, k);
    }
  }

  /** `AVLfind` looks up the map the tree stands for. */
  lemma {:induction false} FindIsLookup(t: Tree, lo: int, hi: int, k: EthAddr)
    requires Between(t, lo, hi)
    ensures Find(t, k) == if k in Contents(t) then Some(Contents(t)[k]) else None
  {
    if t.Node? {
      FindIsLookup(t.left, lo, t.key, k);
      FindIsLookup(t.right, t.key, hi, k);
      if k in Contents(t.left) {
        KeysBetween(t.left, lo, t.key, k);
      }
      if k in Contents(t.right) {
        KeysBetween(t.right, t.key, hi, k);
      }
    }
  }

  lemma MapShift(a: map<EthAddr, Entry>, b: map<EthAddr, Entry>, k: EthAddr, e: Entry, c: map<EthAddr, Entry>)
    ensures (a + b) + map[k := e] + c == a + (b + map[k := e] + c)
  {
  }

  /** Rotations keep contents and order. */
  lemma RotateWithLeftKeeps(t: Tree, lo: int, hi: int)
    requires RotateWithLeft(t).Some?
    ensures Contents(RotateWithLeft(t).value) == Contents(t)
    ensures Between(t, lo, hi) ==> Between(RotateWithLeft(t).value, lo, hi)
  {
    var l := t.left;
    MapShift(Contents(l.left) + map[l.key := l.entry], Contents(l.right), t.key, t.entry, Contents(t.right));
    if Between(t, lo, hi) {
      assert Between(l, lo, t.key);
      assert Between(Join(l.right, t.key, t.entry, t.right), l.key, hi);
    }
  }

  lemma RotateWithRightKeeps(t: Tree, lo: int, hi: int)
    requires RotateWithRight(t).Some?
    ensures Contents(RotateWithRight(t).value) == Contents(t)
    ensures Between(t, lo, hi) ==> Between(RotateWithRight(t).value, lo, hi)
  {
    var r := t.right;
    MapShift(Contents(t.left) + map[t.key := t.entry], Contents(r.left), r.key, r.entry, Contents(r.right));
    if Between(t, lo, hi) {
      assert Between(r, t.key, hi);
      assert Between(Join(t.left, t.key, t.entry, r.left), lo, r.key);
    }
  }

  /** Giving a child another tree of the same contents and order changes nothing. */
  lemma SwapLeft(t: Tree, l: Tree, lo: int, hi: int)
    requires t.Node? && Contents(l) == Contents(t.left)
    requires Between(t.left, lo, t.key) ==> Between(l, lo, t.key)
    ensures Contents(t.(left := l)) == Contents(t)
    ensures Between(t, lo, hi) ==> Between(t.(left := l), lo, hi)
  {
  }

  lemma SwapRight(t: Tree, r: Tree, lo: int, hi: int)
    requires t.Node? && Contents(r) == Contents(t.right)
    requires Between(t.right, t.key, hi) ==> Between(r, t.key, hi)
    ensures Contents(t.(right := r)) == Contents(t)
    ensures Between(t, lo, hi) ==> Between(t.(right := r), lo, hi)
  {
  }

  /** `t'` holds the same stations as `t`, in order if `t` was. */
  ghost predicate Same(t: Tree, t': Tree, lo: int, hi: int) {
    Contents(t') == Contents(t) && (Between(t, lo, hi) ==> Between(t', lo, hi))
  }

  lemma DoubleRotateWithLeftKeeps(t: Tree, lo: int, hi: int)
    requires DoubleRotateWithLeft(t).Some?
    ensures Same(t, DoubleRotateWithLeft(t).value, lo, hi)
  {
    RotateWithRightKeeps(t.left, lo, t.key);
    var l := RotateWithRight(t.left).value;
    SwapLeft(t, l, lo, hi);
    RotateWithLeftKeeps(t.(left := l), lo, hi);
  }

  lemma DoubleRotateWithRightKeeps(t: Tree, lo: int, hi: int)
    requires DoubleRotateWithRight(t).Some?
    ensures Same(t, DoubleRotateWithRight(t).value, lo, hi)
  {
    RotateWithLeftKeeps(t.right, t.key, hi);
    var r := RotateWithLeft(t.right).value;
    SwapRight(t, r, lo, hi);
    RotateWithRightKeeps(t.(right := r), lo, hi);
  }

  lemma InsertLeftFixKeeps(t: Tree, k: EthAddr, lo: int, hi: int)
    requires t.Node? && InsertLeftFix(t, k).Some?
    ensures Same(t, InsertLeftFix(t, k).value, lo, hi)
  {
    if RotateWithLeft(t).Some? {
      RotateWithLeftKeeps(t, lo, hi);
    }
    if DoubleRotateWithLeft(t).Some? {
      DoubleRotateWithLeftKeeps(t, lo, hi);
    }
  }

  lemma InsertRightFixKeeps(t: Tree, k: EthAddr, lo: int, hi: int)
    requires t.Node? && InsertRightFix(t, k).Some?
    ensures Same(t, InsertRightFix(t, k).value, lo, hi)
  {
    if RotateWithRight(t).Some? {
      RotateWithRightKeeps(t, lo, hi);
    }
    if DoubleRotateWithRight(t).Some? {
      DoubleRotateWithRightKeeps(t, lo, hi);
    }
  }

  /** Left-heavy repairs of every kind keep contents and order. */
  lemma FixLeftHeavyKeeps(t: Tree, f: Fixup, lo: int, hi: int)
    requires t.Node? && FixLeftHeavy(t, f).Some?
    ensures Same(t, FixLeftHeavy(t, f).value, lo, hi)
  {
    match f
    case Off =>
    case Intended =>
      if Balance(t.left) >= 0 {
        RotateWithLeftKeeps(t, lo, hi);
      } else {
        DoubleRotateWithLeftKeeps(t, lo, hi);
      }
    case AsWritten =>
      if Balance(t.left) >= 0 {
        RotateWithRightKeeps(t, lo, hi);
      } else {
        RotateWithLeftKeeps(t.left, lo, t.key);
        var l := RotateWithLeft(t.left).value;
        SwapLeft(t, l, lo, hi);
        RotateWithRightKeeps(t.(left := l), lo, hi);
      }
  }

  lemma FixRightHeavyKeeps(t: Tree, f: Fixup, lo: int, hi: int)
    requires t.Node? && FixRightHeavy(t, f).Some?
    ensures Same(t, FixRightHeavy(t, f).value, lo, hi)
  {
    match f
    case Off =>
    case Intended =>
      if Balance(t.right) <= 0 {
        RotateWithRightKeeps(t, lo, hi);
      } else {
        DoubleRotateWithRightKeeps(t, lo, hi);
      }
    case AsWritten =>
      if Balance(t.right) <= 0 {
        RotateWithLeftKeeps(t, lo, hi);
      } else {
        RotateWithRightKeeps(t.right, t.key, hi);
        var r := RotateWithRight(t.right).value;
        SwapRight(t, r, lo, hi);
        RotateWithLeftKeeps(t.(right := r), lo, hi);
      }
  }

  lemma SettleKeeps(t: Tree, f: Fixup, lo: int, hi: int)
    requires t.Node? && Settle(t, f).Some?
    ensures Same(t, Settle(t, f).value, lo, hi)
  {
    var t' := WithHeight(t);
    assert Same(t, t', lo, hi);
    if Balance(t') > 1 {
      FixLeftHeavyKeeps(t', f, lo, hi);
    } else if Balance(t') < -1 {
      FixRightHeavyKeeps(t', f, lo, hi);
    }
  }

  /** The effect of an insertion on the map: an absent key is added, a present one
      keeps its entry. */
  function Inserted(m: map<EthAddr, Entry>, k: EthAddr, e: Entry): map<EthAddr, Entry> {
    if k in m then m else m[k := e]
  }

  lemma SingleNode(k: EthAddr, e: Entry, h: int, lo: int, hi: int)
    requires lo < k < hi
    ensures var t := Node(Leaf, k, e, h, Leaf);
            Contents(t) == map[k := e] && Between(t, lo, hi) && Balanced(t) && (h == 0 ==> HeightsRight(t))
  {
    assert Between(Leaf, lo, k) && Between(Leaf, k, hi) && Balanced(Leaf) && HeightsRight(Leaf);
  }

  /** Whatever its shape, an ordered tree stays ordered under insertion, which acts as
      insert-if-absent on the map. */
  lemma {:induction false} InsertContents(t: Tree, k: EthAddr, e: Entry, lo: int, hi: int)
    requires Between(t, lo, hi) && lo < k < hi && Insert(t, k, e).Some?
    ensures Between(Insert(t, k, e).value, lo, hi)
    ensures Contents(Insert(t, k, e).value) == Inserted(Contents(t), k, e)
  {
    if t.Leaf? {
      SingleNode(k, e, 0, lo, hi);
    } else if k < t.key {
      InsertContents(t.left, k, e, lo, t.key);
      var l := Insert(t.left, k, e).value;
      PutLeft(t, l, k, e, lo, hi);
      InsertLeftFixKeeps(t.(left := l), k, lo, hi);
    } else if k > t.key {
      InsertContents(t.right, k, e, t.key, hi);
      var r := Insert(t.right, k, e).value;
      PutRight(t, r, k, e, lo, hi);
      InsertRightFixKeeps(t.(right := r), k, lo, hi);
    }
  }

  lemma PutLeft(t: Tree, l: Tree, k: EthAddr, e: Entry, lo: int, hi: int)
    requires t.Node? && Between(t, lo, hi) && lo < k < t.key
    requires Between(l, lo, t.key) && Contents(l) == Inserted(Contents(t.left), k, e)
    ensures Between(t.(left := l), lo, hi)
    ensures Contents(t.(left := l)) == Inserted(Contents(t), k, e)
  {
    if k in Contents(t.right) {
      KeysBetween(t.right, t.key, hi, k);
    }
    MapPutLeft(Contents(t.left), t.key, t.entry, Contents(t.right), k, e);
  }

  lemma MapPutLeft(a: map<EthAddr, Entry>, key: EthAddr, entry: Entry, c: map<EthAddr, Entry>, k: EthAddr, e: Entry)
    requires k != key && k !in c
    ensures Inserted(a, k, e) + map[key := entry] + c == Inserted(a + map[key := entry] + c, k, e)
  {
  }

  lemma MapPutRight(a: map<EthAddr, Entry>, key: EthAddr, entry: Entry, c: map<EthAddr, Entry>, k: EthAddr, e: Entry)
    requires k != key && k !in a
    ensures a + map[key := entry] + Inserted(c, k, e) == Inserted(a + map[key := entry] + c, k, e)
  {
  }

  lemma PutRight(t: Tree, r: Tree, k: EthAddr, e: Entry, lo: int, hi: int)
    requires t.Node? && Between(t, lo, hi) && t.key < k < hi
    requires Between(r, t.key, hi) && Contents(r) == Inserted(Contents(t.right), k, e)
    ensures Between(t.(right := r), lo, hi)
    ensures Contents(t.(right := r)) == Inserted(Contents(t), k, e)
  {
    if k in Contents(t.left) {
      KeysBetween(t.left, lo, t.key, k);
    }
    MapPutRight(Contents(t.left), t.key, t.entry, Contents(t.right), k, e);
  }

  /** The effect of a deletion on the map. */
  function Deleted(m: map<EthAddr, Entry>, k: EthAddr, radio: Option<int>): map<EthAddr, Entry> {
    if k in m && Matches(m[k], radio) then m - {k} else m
  }

  lemma {:induction false} MinIsLeast(t: Tree, lo: int, hi: int)
    requires t.Node? && Between(t, lo, hi)
    ensures var (k, e) := Min(t);
            k in Contents(t) && Contents(t)[k] == e && forall j | j in Contents(t) :: k <= j
  {
    var k := Min(t).0;
    if t.left.Node? {
      MinIsLeast(t.left, lo, t.key);
      KeysBetween(t.left, lo, t.key, k);
    }
    if k in Contents(t.right) {
      KeysBetween(t.right, t.key, hi, k);
    }
    forall j | j in Contents(t)
      ensures Min(t).0 <= j
    {
      if j in Contents(t.right) {
        KeysBetween(t.right, t.key, hi, j);
      } else if j in Contents(t.left) {
        assert t.left.Node?;
      } else {
        assert j == t.key;
      }
    }
  }

  lemma {:induction false} Tighten(t: Tree, lo: int, lo': int, hi: int)
    requires Between(t, lo, hi) && forall j | j in Contents(t) :: lo' < j
    ensures Between(t, lo', hi)
  {
    if t.Node? {
      assert t.key in Contents(t);
      forall j | j in Contents(t.left)
        ensures lo' < j
      {
        assert j in Contents(t);
      }
      Tighten(t.left, lo, lo', t.key);
    }
  }

  lemma MapTakeLeft(a: map<EthAddr, Entry>, key: EthAddr, entry: Entry, c: map<EthAddr, Entry>,
                    k: EthAddr, radio: Option<int>)
    requires k != key && k !in c
    ensures Deleted(a, k, radio) + map[key := entry] + c == Deleted(a + map[key := entry] + c, k, radio)
  {
  }

  lemma MapTakeRight(a: map<EthAddr, Entry>, key: EthAddr, entry: Entry, c: map<EthAddr, Entry>,
                     k: EthAddr, radio: Option<int>)
    requires k != key && k !in a
    ensures a + map[key := entry] + Deleted(c, k, radio) == Deleted(a + map[key := entry] + c, k, radio)
  {
  }

  /** Taking out the middle and putting the least of the right part in its place. */
  lemma MapTakeMiddle(a: map<EthAddr, Entry>, key: EthAddr, entry: Entry, c: map<EthAddr, Entry>, k: EthAddr)
    requires key !in a && key !in c && k in c && k !in a
    ensures a + map[k := c[k]] + (c - {k}) == (a + map[key := entry] + c) - {key}
  {
  }

  lemma RootKeys(t: Tree, lo: int, hi: int)
    requires t.Node? && Between(t, lo, hi)
    ensures t.key !in Contents(t.left) && t.key !in Contents(t.right)
    ensures forall k | k in Contents(t.left) :: k < t.key && k !in Contents(t.right)
    ensures forall k | k in Contents(t.right) :: k > t.key && k !in Contents(t.left)
    ensures Contents(t)[t.key] == t.entry
  {
    forall k | k in Contents(t.left)
      ensures k < t.key
    {
      KeysBetween(t.left, lo, t.key, k);
    }
    forall k | k in Contents(t.right)
      ensures k > t.key
    {
      KeysBetween(t.right, t.key, hi, k);
    }
  }

  /** Whichever helpers are called, a deletion that does not fail removes exactly the
      matching entry and keeps the order. */
  lemma {:induction false} DeleteContents(t: Tree, k: EthAddr, radio: Option<int>, f: Fixup, lo: int, hi: int)
    requires Between(t, lo, hi) && Delete(t, k, radio, f).Some?
    ensures Between(Delete(t, k, radio, f).value, lo, hi)
    ensures Contents(Delete(t, k, radio, f).value) == Deleted(Contents(t), k, radio)
    decreases t, 2
  {
    hide Settle;
    if t.Leaf? {
    } else if k < t.key {
      RootKeys(t, lo, hi);
      DeleteContents(t.left, k, radio, f, lo, t.key);
      var l := Delete(t.left, k, radio, f).value;
      MapTakeLeft(Contents(t.left), t.key, t.entry, Contents(t.right), k, radio);
      SettleKeeps(t.(left := l), f, lo, hi);
    } else if k > t.key {
      RootKeys(t, lo, hi);
      DeleteContents(t.right, k, radio, f, t.key, hi);
      var r := Delete(t.right, k, radio, f).value;
      MapTakeRight(Contents(t.left), t.key, t.entry, Contents(t.right), k, radio);
      SettleKeeps(t.(right := r), f, lo, hi);
    } else {
      DeleteRoot(t, radio, f, lo, hi);
    }
  }

  lemma {:induction false} DeleteRoot(t: Tree, radio: Option<int>, f: Fixup, lo: int, hi: int)
    requires t.Node? && Between(t, lo, hi) && Delete(t, t.key, radio, f).Some?
    ensures Between(Delete(t, t.key, radio, f).value, lo, hi)
    ensures Contents(Delete(t, t.key, radio, f).value) == Deleted(Contents(t), t.key, radio)
    decreases t, 1
  {
    hide Settle;
    RootKeys(t, lo, hi);
    if !Matches(t.entry, radio) {
      SettleKeeps(t, f, lo, hi);
    } else if t.left.Leaf? && t.right.Leaf? {
    } else if t.left.Leaf? {
      SettleKeeps(t.right, f, lo, hi);
      Widen(t.right, t.key, hi, lo, hi);
    } else if t.right.Leaf? {
      SettleKeeps(t.left, f, lo, hi);
      Widen(t.left, lo, t.key, lo, hi);
    } else {
      DeleteInner(t, radio, f, lo, hi);
    }
  }

  lemma {:induction false} Widen(t: Tree, lo: int, hi: int, lo': int, hi': int)
    requires Between(t, lo, hi) && lo' <= lo && hi <= hi'
    ensures Between(t, lo', hi')
  {
    if t.Node? {
      Widen(t.left, lo, t.key, lo', t.key);
      Widen(t.right, t.key, hi, t.key, hi');
    }
  }

  /** A right part without its least key lies above that key. */
  lemma WithoutLeast(s: Tree, r: Tree, radio: Option<int>, lo: int, hi: int)
    requires s.Node? && Between(s, lo, hi) && Between(r, lo, hi)
    requires radio.Some? ==> radio.value == Min(s).1.radioID
    requires Contents(r) == Deleted(Contents(s), Min(s).0, radio)
    ensures Min(s).0 in Contents(s) && Contents(s)[Min(s).0] == Min(s).1
    ensures Contents(r) == Contents(s) - {Min(s).0} && Between(r, Min(s).0, hi)
  {
    MinIsLeast(s, lo, hi);
    var k := Min(s).0;
    assert Contents(r) == Contents(s) - {k};
    forall j | j in Contents(r)
      ensures k < j
    {
      assert j in Contents(s) && j != k;
    }
    Tighten(r, lo, k, hi);
  }

  lemma {:induction false} DeleteInner(t: Tree, radio: Option<int>, f: Fixup, lo: int, hi: int)
    requires t.Node? && Between(t, lo, hi) && Delete(t, t.key, radio, f).Some?
    requires Matches(t.entry, radio) && t.left.Node? && t.right.Node?
    ensures Between(Delete(t, t.key, radio, f).value, lo, hi)
    ensures Contents(Delete(t, t.key, radio, f).value) == Contents(t) - {t.key}
    decreases t, 0
  {
    hide Settle;
    var (k, e) := Min(t.right);
    var radio' := if radio.Some? then Some(e.radioID) else None;
    DeleteContents(t.right, k, radio', f, t.key, hi);
    var r := Delete(t.right, k, radio', f).value;
    WithoutLeast(t.right, r, radio', t.key, hi);
    KeysBetween(t.right, t.key, hi, k);
    MiddleReplaced(t, r, k, lo, hi);
    SettleKeeps(Node(t.left, k, e, t.height, r), f, lo, hi);
  }

  lemma MiddleReplaced(t: Tree, r: Tree, k: EthAddr, lo: int, hi: int)
    requires t.Node? && Between(t, lo, hi) && k in Contents(t.right) && t.key < k < hi
    requires Contents(r) == Contents(t.right) - {k} && Between(r, k, hi)
    ensures var t' := Node(t.left, k, Contents(t.right)[k], t.height, r);
            Between(t', lo, hi) && Contents(t') == Contents(t) - {t.key}
  {
    RootKeys(t, lo, hi);
    Widen(t.left, lo, t.key, lo, k);
    MapTakeMiddle(Contents(t.left), t.key, t.entry, Contents(t.right), k);
  }

  // ---------- heights and balance ----------

  /** Correct stored heights and balance everywhere. */
  predicate Shaped(t: Tree) {
    HeightsRight(t) && Balanced(t)
  }

  lemma HeightBound(t: Tree)
    requires HeightsRight(t)
    ensures Height(t) >= -1 && (Height(t) == -1 <==> t.Leaf?)
  {
  }

  lemma JoinShaped(l: Tree, k: EthAddr, e: Entry, r: Tree)
    requires Shaped(l) && Shaped(r) && -1 <= Height(l) - Height(r) <= 1
    ensures Shaped(Join(l, k, e, r))
  {
  }

  /** A left-heavy node whose left child does not lean right: one rotation repairs it. */
  lemma SingleLeft(t: Tree)
    requires t.Node? && Shaped(t.left) && Shaped(t.right)
    requires Balance(t) == 2 && Balance(t.left) >= 0
    ensures RotateWithLeft(t).Some? && Shaped(RotateWithLeft(t).value)
    ensures Height(RotateWithLeft(t).value) == Height(t.left) + (if Balance(t.left) == 0 then 1 else 0)
  {
    HeightBound(t.right);
    JoinShaped(t.left.right, t.key, t.entry, t.right);
  }

  lemma SingleRight(t: Tree)
    requires t.Node? && Shaped(t.left) && Shaped(t.right)
    requires Balance(t) == -2 && Balance(t.right) <= 0
    ensures RotateWithRight(t).Some? && Shaped(RotateWithRight(t).value)
    ensures Height(RotateWithRight(t).value) == Height(t.right) + (if Balance(t.right) == 0 then 1 else 0)
  {
    HeightBound(t.left);
    JoinShaped(t.left, t.key, t.entry, t.right.left);
  }

  /** If the child leans the other way, two rotations do. */
  lemma DoubleLeft(t: Tree)
    requires t.Node? && Shaped(t.left) && Shaped(t.right)
    requires Balance(t) == 2 && Balance(t.left) < 0
    ensures DoubleRotateWithLeft(t).Some? && Shaped(DoubleRotateWithLeft(t).value)
    ensures Height(DoubleRotateWithLeft(t).value) == Height(t.left)
  {
    var l := t.left;
    HeightBound(t.right);
    HeightBound(l.left);
    var m := l.right;
    assert Shaped(m);
    HeightBound(m.left);
    HeightBound(m.right);
    JoinShaped(l.left, l.key, l.entry, m.left);
    JoinShaped(m.right, t.key, t.entry, t.right);
  }

  lemma DoubleRight(t: Tree)
    requires t.Node? && Shaped(t.left) && Shaped(t.right)
    requires Balance(t) == -2 && Balance(t.right) > 0
    ensures DoubleRotateWithRight(t).Some? && Shaped(DoubleRotateWithRight(t).value)
    ensures Height(DoubleRotateWithRight(t).value) == Height(t.right)
  {
    var r := t.right;
    HeightBound(t.left);
    HeightBound(r.right);
    var m := r.left;
    assert Shaped(m);
    HeightBound(m.left);
    HeightBound(m.right);
    JoinShaped(m.right, r.key, r.entry, r.right);
    JoinShaped(t.left, t.key, t.entry, m.left);
  }

  /** Insertion keeps a well-shaped tree well shaped and never fails on it; the height
      grows by at most one, and if a node grows it leans towards the new key. */
  ghost predicate Grown(t: Tree, t': Tree, k: EthAddr) {
    && t'.Node? && Shaped(t')
    && Height(t) <= Height(t') <= Height(t) + 1
    && (t.Node? && Height(t') > Height(t) ==>
          t'.key == t.key && k != t.key && Balance(t') == if k < t.key then 1 else -1)
  }

  lemma {:induction false} InsertShaped(t: Tree, k: EthAddr, e: Entry)
    requires Shaped(t)
    ensures Insert(t, k, e).Some? && Grown(t, Insert(t, k, e).value, k)
  {
    if t.Leaf? {
    } else if k < t.key {
      InsertShaped(t.left, k, e);
      GrowLeft(t, Insert(t.left, k, e).value, k);
    } else if k > t.key {
      InsertShaped(t.right, k, e);
      GrowRight(t, Insert(t.right, k, e).value, k);
    }
  }

  lemma GrowLeft(t: Tree, l: Tree, k: EthAddr)
    requires t.Node? && Shaped(t) && k < t.key && Grown(t.left, l, k)
    ensures var o := InsertLeftFix(t.(left := l), k);
            o.Some? && Grown(t, WithHeight(o.value), k)
  {
    var t' := t.(left := l);
    HeightBound(t.left);
    HeightBound(t.right);
    if Balance(t') == 2 {
      if k < l.key {
        SingleLeft(t');
      } else {
        DoubleLeft(t');
      }
    } else {
      JoinShaped(l, t.key, t.entry, t.right);
    }
  }

  lemma GrowRight(t: Tree, r: Tree, k: EthAddr)
    requires t.Node? && Shaped(t) && k > t.key && Grown(t.right, r, k)
    ensures var o := InsertRightFix(t.(right := r), k);
            o.Some? && Grown(t, WithHeight(o.value), k)
  {
    var t' := t.(right := r);
    HeightBound(t.left);
    HeightBound(t.right);
    if Balance(t') == -2 {
      if k > r.key {
        SingleRight(t');
      } else {
        DoubleRight(t');
      }
    } else {
      JoinShaped(t.left, t.key, t.entry, r);
    }
  }

  /** A subtree after a deletion: well shaped, at most one lower. */
  ghost predicate Shrunk(t: Tree, t': Tree) {
    Shaped(t') && Height(t) - 1 <= Height(t') <= Height(t)
  }

  /** One child of a well-shaped node shrank: the intended repair restores the shape. */
  lemma SettleIntended(t: Tree, t': Tree)
    requires t.Node? && t'.Node? && Shaped(t) && Shaped(t'.left) && Shaped(t'.right)
    requires || (Height(t'.left) == Height(t.left) && Height(t.right) - 1 <= Height(t'.right) <= Height(t.right))
             || (Height(t'.right) == Height(t.right) && Height(t.left) - 1 <= Height(t'.left) <= Height(t.left))
    ensures Settle(t', Intended).Some? && Shrunk(t, Settle(t', Intended).value)
  {
    var s := WithHeight(t');
    if Balance(s) > 1 {
      if Balance(s.left) >= 0 {
        SingleLeft(s);
      } else {
        DoubleLeft(s);
      }
    } else if Balance(s) < -1 {
      if Balance(s.right) <= 0 {
        SingleRight(s);
      } else {
        DoubleRight(s);
      }
    } else {
      JoinShaped(s.left, s.key, s.entry, s.right);
    }
  }

  /** With the intended helpers a deletion never fails on a well-shaped tree, keeps it
      well shaped, and lowers it by at most one. */
  lemma {:induction false} DeleteShaped(t: Tree, k: EthAddr, radio: Option<int>)
    requires Shaped(t)
    ensures Delete(t, k, radio, Intended).Some? && Shrunk(t, Delete(t, k, radio, Intended).value)
  {
    hide Settle;
    if t.Leaf? {
    } else if k < t.key {
      DeleteShaped(t.left, k, radio);
      SettleIntended(t, t.(left := Delete(t.left, k, radio, Intended).value));
    } else if k > t.key {
      DeleteShaped(t.right, k, radio);
      SettleIntended(t, t.(right := Delete(t.right, k, radio, Intended).value));
    } else if !Matches(t.entry, radio) {
      SettleIntended(t, t);
    } else if t.left.Leaf? || t.right.Leaf? {
      DeleteOuterShaped(t, radio);
    } else {
      var (k', e') := Min(t.right);
      var radio' := if radio.Some? then Some(e'.radioID) else None;
      DeleteShaped(t.right, k', radio');
      SettleIntended(t, Node(t.left, k', e', t.height, Delete(t.right, k', radio', Intended).value));
    }
  }

  lemma DeleteOuterShaped(t: Tree, radio: Option<int>)
    requires t.Node? && Shaped(t) && (t.left.Leaf? || t.right.Leaf?) && Matches(t.entry, radio)
    ensures Delete(t, t.key, radio, Intended).Some? && Shrunk(t, Delete(t, t.key, radio, Intended).value)
  {
    HeightBound(t.left);
    HeightBound(t.right);
    if t.left.Node? {
      SettleIntended(t.left, t.left);
    } else if t.right.Node? {
      SettleIntended(t.right, t.right);
    }
  }

  // ---------- the table operations on AVL trees ----------

  /** Insertion into an AVL tree never fails, gives an AVL tree at most one higher, and
      adds the station exactly if it was absent. */
  lemma InsertCorrect(t: Tree, k: EthAddr, e: Entry)
    requires Avl(t)
    ensures Insert(t, k, e).Some?
    ensures var t' := Insert(t, k, e).value;
            && Avl(t') && Contents(t') == Inserted(Contents(t), k, e)
            && Height(t) <= Height(t') <= Height(t) + 1
  {
    InsertShaped(t, k, e);
    InsertContents(t, k, e, -1, 0x1_0000_0000_0000);
  }

  /** With the intended helpers, deletion from an AVL tree never fails, gives an AVL tree
      at most one lower, and removes exactly the matching station. */
  lemma DeleteCorrect(t: Tree, k: EthAddr, radio: Option<int>)
    requires Avl(t)
    ensures Delete(t, k, radio, Intended).Some?
    ensures var t' := Delete(t, k, radio, Intended).value;
            && Avl(t') && Contents(t') == Deleted(Contents(t), k, radio)
            && Height(t) - 1 <= Height(t') <= Height(t)
  {
    DeleteShaped(t, k, radio);
    DeleteContents(t, k, radio, Intended, -1, 0x1_0000_0000_0000);
  }

  lemma SettleShaped(t: Tree, f: Fixup)
    requires t.Node? && Shaped(t)
    ensures Settle(t, f) == Some(t)
  {
  }

  /** A station that is absent or belongs to another radio leaves the tree as it is,
      node by node, whichever helpers would be called. */
  lemma {:induction false} DeleteNothing(t: Tree, k: EthAddr, radio: Option<int>, f: Fixup)
    requires Shaped(t) && (Find(t, k).None? || !Matches(Find(t, k).value, radio))
    ensures Delete(t, k, radio, f) == Some(t)
  {
    if t.Node? {
      if k < t.key {
        DeleteNothing(t.left, k, radio, f);
      } else if k > t.key {
        DeleteNothing(t.right, k, radio, f);
      }
      SettleShaped(t, f);
    }
  }

  // ---------- deletion as the program does it ----------

  /** Calling the opposite helper always makes things worse: it follows a null pointer or
      leaves a higher tree that is out of balance. */
  lemma WrongLeft(t: Tree)
    requires t.Node? && HeightsRight(t) && Balance(t) > 1
    ensures var o := FixLeftHeavy(t, AsWritten);
            o.None? || (HeightsRight(o.value) && !Balanced(o.value) && Height(o.value) > Height(t))
  {
    HeightBound(t.left);
    HeightBound(t.right);
    if Balance(t.left) >= 0 {
      RaiseLeft(t);
    } else if t.left.left.Node? {
      var l := RotateWithLeft(t.left).value;
      assert HeightsRight(t.left.left);
      assert Height(t.left) == Height(t.left.right) + 1;
      assert HeightsRight(l.right) && Height(l.right) > Height(t.left.right);
      assert HeightsRight(l) && Height(l) > Height(t.left);
      RaiseLeft(t.(left := l));
    }
  }

  /** What the helper called in the left-heavy cases does: it fails exactly if a child it lifts
      is missing, and otherwise makes the right child the root, with the old root on its
      left. */
  lemma WrongLeftShape(t: Tree)
    requires t.Node?
    ensures var o, inside := FixLeftHeavy(t, AsWritten), Balance(t.left) < 0;
            && (o.None? <==> t.right.Leaf? || (inside && t.left.left.Leaf?))
            && (o.Some? ==>
                && o.value.Node? && o.value.key == t.right.key && o.value.right == t.right.right
                && o.value.left.Node? && o.value.left.key == t.key && o.value.left.right == t.right.left
                && if inside then o.value.left.left.Node? && o.value.left.left.key == t.left.left.key
                   else o.value.left.left == t.left)
  {
  }

  lemma WrongRightShape(t: Tree)
    requires t.Node?
    ensures var o, inside := FixRightHeavy(t, AsWritten), Balance(t.right) > 0;
            && (o.None? <==> t.left.Leaf? || (inside && t.right.right.Leaf?))
            && (o.Some? ==>
                && o.value.Node? && o.value.key == t.left.key && o.value.left == t.left.left
                && o.value.right.Node? && o.value.right.key == t.key && o.value.right.left == t.left.right
                && if inside then o.value.right.right.Node? && o.value.right.right.key == t.right.right.key
                   else o.value.right.right == t.right)
  {
  }

  lemma RaiseLeft(t: Tree)
    requires t.Node? && HeightsRight(t.left) && HeightsRight(t.right) && Balance(t) > 1
    ensures var o := RotateWithRight(t);
            o.None? || (HeightsRight(o.value) && !Balanced(o.value) && Height(o.value) > Height(t.left) + 1)
  {
    if t.right.Node? {
      var inner := Join(t.left, t.key, t.entry, t.right.left);
      HeightBound(t.right.left);
      assert HeightsRight(inner) && Balance(inner) > 1;
    }
  }

  lemma WrongRight(t: Tree)
    requires t.Node? && HeightsRight(t) && Balance(t) < -1
    ensures var o := FixRightHeavy(t, AsWritten);
            o.None? || (HeightsRight(o.value) && !Balanced(o.value) && Height(o.value) > Height(t))
  {
    HeightBound(t.left);
    HeightBound(t.right);
    if Balance(t.right) <= 0 {
      RaiseRight(t);
    } else if t.right.right.Node? {
      var r := RotateWithRight(t.right).value;
      assert HeightsRight(t.right.right);
      assert Height(t.right) == Height(t.right.left) + 1;
      assert HeightsRight(r.left) && Height(r.left) > Height(t.right.left);
      assert HeightsRight(r) && Height(r) > Height(t.right);
      RaiseRight(t.(right := r));
    }
  }

  lemma RaiseRight(t: Tree)
    requires t.Node? && HeightsRight(t.left) && HeightsRight(t.right) && Balance(t) < -1
    ensures var o := RotateWithLeft(t);
            o.None? || (HeightsRight(o.value) && !Balanced(o.value) && Height(o.value) > Height(t.right) + 1)
  {
    if t.left.Node? {
      var inner := Join(t.left.right, t.key, t.entry, t.right);
      HeightBound(t.left.right);
      assert HeightsRight(inner) && Balance(inner) < -1;
    }
  }

  /** How the outcome `w` of a deletion as written compares with the outcome `o` of the
      same deletion without any repair: equal if `o` is balanced, else a failure or out
      of balance and not lower than the tree before. */
  ghost predicate Compared(t: Tree, o: Tree, w: Option<Tree>) {
    && HeightsRight(o) && Height(o) >= Height(t) - 1
    && (if Balanced(o) then w == Some(o)
        else w.None? || (HeightsRight(w.value) && !Balanced(w.value) && Height(w.value) >= Height(t)))
  }

  lemma SettleWritten(t: Tree, o: Tree, w: Tree)
    requires t.Node? && o.Node? && w.Node? && Shaped(t)
    requires HeightsRight(o.left) && HeightsRight(o.right) && HeightsRight(w.left) && HeightsRight(w.right)
    requires if Balanced(o.left) && Balanced(o.right) then w == o
             else && !(Balanced(w.left) && Balanced(w.right))
                  && Height(w.left) >= Height(t.left) && Height(w.right) >= Height(t.right)
    requires Max(Height(o.left), Height(o.right)) >= Max(Height(t.left), Height(t.right)) - 1
    ensures Settle(o, Off).Some? && Compared(t, Settle(o, Off).value, Settle(w, AsWritten))
  {
    var s := WithHeight(w);
    HeightBound(s);
    if Balance(s) > 1 {
      WrongLeft(s);
    } else if Balance(s) < -1 {
      WrongRight(s);
    }
  }

  /** The left child was replaced by the outcome of a deletion from it. */
  lemma StepLeft(t: Tree, o: Tree, w: Option<Tree>)
    requires t.Node? && Shaped(t) && Compared(t.left, o, w)
    ensures var o' := Settle(t.(left := o), Off);
            o'.Some? && Compared(t, o'.value, if w.None? then None else Settle(t.(left := w.value), AsWritten))
  {
    if w.Some? {
      SettleWritten(t, t.(left := o), t.(left := w.value));
    }
  }

  /** The right child was, and the root perhaps got another key. */
  lemma StepRight(t: Tree, k: EthAddr, e: Entry, o: Tree, w: Option<Tree>)
    requires t.Node? && Shaped(t) && Compared(t.right, o, w)
    ensures var o' := Settle(Node(t.left, k, e, t.height, o), Off);
            o'.Some? && Compared(t, o'.value,
                                 if w.None? then None else Settle(Node(t.left, k, e, t.height, w.value), AsWritten))
  {
    if w.Some? {
      SettleWritten(t, Node(t.left, k, e, t.height, o), Node(t.left, k, e, t.height, w.value));
    }
  }

  lemma {:induction false} DeleteCompared(t: Tree, k: EthAddr, radio: Option<int>)
    requires Shaped(t)
    ensures Delete(t, k, radio, Off).Some?
    ensures Compared(t, Delete(t, k, radio, Off).value, Delete(t, k, radio, AsWritten))
  {
    hide Settle;
    if t.Leaf? {
    } else if k < t.key {
      DeleteCompared(t.left, k, radio);
      StepLeft(t, Delete(t.left, k, radio, Off).value, Delete(t.left, k, radio, AsWritten));
    } else if k > t.key {
      DeleteCompared(t.right, k, radio);
      StepRight(t, t.key, t.entry, Delete(t.right, k, radio, Off).value, Delete(t.right, k, radio, AsWritten));
    } else if !Matches(t.entry, radio) {
      SettleShaped(t, Off);
      SettleShaped(t, AsWritten);
    } else if t.left.Leaf? || t.right.Leaf? {
      HeightBound(t.left);
      HeightBound(t.right);
      var s := if t.left.Leaf? then t.right else t.left;
      if s.Node? {
        SettleShaped(s, Off);
        SettleShaped(s, AsWritten);
      }
    } else {
      var (k', e') := Min(t.right);
      var radio' := if radio.Some? then Some(e'.radioID) else None;
      DeleteCompared(t.right, k', radio');
      StepRight(t, k', e', Delete(t.right, k', radio', Off).value, Delete(t.right, k', radio', AsWritten));
    }
  }

  /** Deleting as written from an AVL tree gives an AVL tree if and only if plain removal,
      with no repair at all, leaves the tree in balance; then that is the outcome. In all
      other cases the program follows a null pointer or leaves the tree out of balance.
      What it does not do is lose or misplace a station: if it returns, the map and the
      order are right. */
  lemma DeleteAsWritten(t: Tree, k: EthAddr, radio: Option<int>)
    requires Avl(t)
    ensures Delete(t, k, radio, Off).Some?
    ensures var w := Delete(t, k, radio, AsWritten);
            && (w.Some? && Avl(w.value) <==> Balanced(Delete(t, k, radio, Off).value))
            && (Balanced(Delete(t, k, radio, Off).value) ==> w == Delete(t, k, radio, Off))
            && (w.Some? ==> Ordered(w.value) && Contents(w.value) == Deleted(Contents(t), k, radio))
  {
    DeleteCompared(t, k, radio);
    if Delete(t, k, radio, AsWritten).Some? {
      DeleteContents(t, k, radio, AsWritten, -1, 0x1_0000_0000_0000);
    }
  }

  /** Four stations suffice for the null pointer: removing the lowest leaves the root
      right-heavy, and the helper that is called needs a left child. */
  lemma CrashExample(e: Entry)
    ensures var t := Node(Node(Leaf, 1, e, 0, Leaf), 2, e, 2, Node(Leaf, 3, e, 1, Node(Leaf, 4, e, 0, Leaf)));
            Avl(t) && Delete(t, 1, None, AsWritten) == None
            && Delete(t, 1, None, Intended) == Some(Node(Node(Leaf, 2, e, 0, Leaf), 3, e, 1, Node(Leaf, 4, e, 0, Leaf)))
  {
    SingleNode(1, e, 0, -1, 2);
    SingleNode(4, e, 0, 3, 0x1_0000_0000_0000);
    var one, four := Node(Leaf, 1, e, 0, Leaf), Node(Leaf, 4, e, 0, Leaf);
    var three := Node(Leaf, 3, e, 1, four);
    assert HeightsRight(three) && Balanced(three) && Between(three, 2, 0x1_0000_0000_0000) by {
      assert HeightsRight(Leaf) && Balanced(Leaf) && Between(Leaf, 2, 3);
    }
    assert Delete(one, 1, None, AsWritten) == Some(Leaf) && Delete(one, 1, None, Intended) == Some(Leaf);
  }
}
