/** What the access controller does with the station table: association of a station
    (with handover), removal on request of an access point, and the removal of all
    stations of an access point whose session closes. */
module StationTable {
  import opened Options
  import opened StationTree

  const TOP: int := 0x1_0000_0000_0000

  type Stations = map<EthAddr, Entry>

  // ---------- association ----------

  /** The block under the table's mutex when a station associates. */
  function Associate(t: Tree, k: EthAddr, e: Entry, f: Fixup): Option<Tree> {
    match Find(t, k)
    case None => Insert(t, k, e)
    case Some(was) =>
      if was.radioID != e.radioID || was.index != e.index then
        var t' :- Delete(t, k, Some(e.radioID), f);
        Insert(t', k, e)
      else Some(t)
  }

  /** Its effect: the deletion names the new radio, so an entry of another radio stays
      and blocks the insertion. */
  function Associated(m: Stations, k: EthAddr, e: Entry): Stations {
    if k in m && (m[k].radioID != e.radioID || m[k].index == e.index) then m else m[k := e]
  }

  lemma AssociateContents(t: Tree, k: EthAddr, e: Entry, f: Fixup)
    requires Ordered(t) && Associate(t, k, e, f).Some?
    ensures Ordered(Associate(t, k, e, f).value)
    ensures Contents(Associate(t, k, e, f).value) == Associated(Contents(t), k, e)
  {
    hide Insert, Delete;
    FindIsLookup(t, -1, TOP, k);
    match Find(t, k)
    case None => InsertContents(t, k, e, -1, TOP);
    case Some(was) =>
      if was.radioID != e.radioID || was.index != e.index {
        DeleteContents(t, k, Some(e.radioID), f, -1, TOP);
        var t' := Delete(t, k, Some(e.radioID), f).value;
        InsertContents(t', k, e, -1, TOP);
      }
  }

  /** After the block the station is served where it just associated if and only if it
      was unknown or known on a radio of the same number. */
  lemma HandoverWorksIff(t: Tree, k: EthAddr, e: Entry, f: Fixup)
    requires Ordered(t) && Associate(t, k, e, f).Some?
    ensures var now := Find(Associate(t, k, e, f).value, k);
            && now.Some?
            && (now.value.index == e.index && now.value.radioID == e.radioID
                <==> Find(t, k).None? || Find(t, k).value.radioID == e.radioID)
  {
    AssociateContents(t, k, e, f);
    FindIsLookup(t, -1, TOP, k);
    FindIsLookup(Associate(t, k, e, f).value, -1, TOP, k);
  }

  lemma AssociateIntended(t: Tree, k: EthAddr, e: Entry)
    requires Avl(t)
    ensures Associate(t, k, e, Intended).Some? && Avl(Associate(t, k, e, Intended).value)
  {
    hide Insert, Delete;
    InsertCorrect(t, k, e);
    DeleteCorrect(t, k, Some(e.radioID));
    InsertCorrect(Delete(t, k, Some(e.radioID), Intended).value, k, e);
  }

  // ---------- closing an access point ----------

  /** `AVLfindWTPNode` as meant: a station of the access point, if there is one. (The
      program drops what its recursive calls return.) */
  function FindWtp(t: Tree, index: int): Option<EthAddr> {
    if t.Leaf? then None
    else if t.entry.index == index then Some(t.key)
    else
      var l := FindWtp(t.left, index);
      if l.Some? then l else FindWtp(t.right, index)
  }

  lemma {:induction false} FindWtpFinds(t: Tree, index: int, lo: int, hi: int)
    requires Between(t, lo, hi)
    ensures match FindWtp(t, index)
            case Some(k) => k in Contents(t) && Contents(t)[k].index == index
            case None => forall k | k in Contents(t) :: Contents(t)[k].index != index
  {
    if t.Node? {
      FindWtpFinds(t.left, index, lo, t.key);
      FindWtpFinds(t.right, index, t.key, hi);
      RootKeys(t, lo, hi);
    }
  }

  /** The stations an access point serves. */
  function StationsOf(m: Stations, index: int): set<EthAddr> {
    set k | k in m && m[k].index == index
  }

  function Purged(m: Stations, index: int): Stations {
    m - StationsOf(m, index)
  }

  lemma OneStationLess(m: Stations, k: EthAddr, index: int)
    requires k in m && m[k].index == index
    ensures StationsOf(m - {k}, index) == StationsOf(m, index) - {k}
    ensures |StationsOf(m - {k}, index)| < |StationsOf(m, index)|
    ensures Purged(m - {k}, index) == Purged(m, index)
  {
    var m' := m - {k};
    assert StationsOf(m', index) == StationsOf(m, index) - {k};
    assert k in StationsOf(m, index);
    forall j
      ensures j in Purged(m', index) <==> j in Purged(m, index)
    {
    }
  }

  /** One turn of the loop when a session closes: a station fewer each time. */
  lemma PurgeTurn(t: Tree, index: int, f: Fixup, k: EthAddr, t': Tree)
    requires Ordered(t) && FindWtp(t, index) == Some(k) && Delete(t, k, None, f) == Some(t')
    ensures Ordered(t') && k in Contents(t) && Contents(t') == Contents(t) - {k}
    ensures |StationsOf(Contents(t'), index)| < |StationsOf(Contents(t), index)|
    ensures Purged(Contents(t'), index) == Purged(Contents(t), index)
  {
    FindWtpFinds(t, index, -1, TOP);
    DeleteContents(t, k, None, f, -1, TOP);
    OneStationLess(Contents(t), k, index);
  }

  /** The loop of `_CWCloseThread` over the table. */
  function Purge(t: Tree, index: int, f: Fixup): Option<Tree>
    requires Ordered(t)
    decreases |StationsOf(Contents(t), index)|
  {
    match FindWtp(t, index)
    case None => Some(t)
    case Some(k) =>
      var t' :- Delete(t, k, None, f);
      PurgeTurn(t, index, f, k, t');
      if t'.Leaf? then Some(t') else Purge(t', index, f)
  }

  lemma NothingToPurge(m: Stations, index: int)
    requires forall k | k in m :: m[k].index != index
    ensures Purged(m, index) == m
  {
    assert StationsOf(m, index) == {};
  }

  /** Closing an access point removes exactly its stations. */
  lemma {:induction false} PurgeContents(t: Tree, index: int, f: Fixup)
    requires Ordered(t) && Purge(t, index, f).Some?
    ensures Ordered(Purge(t, index, f).value)
    ensures Contents(Purge(t, index, f).value) == Purged(Contents(t), index)
    decreases |StationsOf(Contents(t), index)|
  {
    FindWtpFinds(t, index, -1, TOP);
    match FindWtp(t, index)
    case None => NothingToPurge(Contents(t), index);
    case Some(k) =>
      var t' := Delete(t, k, None, f).value;
      PurgeTurn(t, index, f, k, t');
      if t'.Node? {
        PurgeContents(t', index, f);
      } else {
        NothingToPurge(Contents(t'), index);
      }
  }

  /** With the intended helpers the loop never fails and keeps the tree an AVL tree. */
  lemma {:induction false} PurgeIntended(t: Tree, index: int)
    requires Avl(t)
    ensures Purge(t, index, Intended).Some? && Avl(Purge(t, index, Intended).value)
    decreases |StationsOf(Contents(t), index)|
  {
    match FindWtp(t, index)
    case None =>
    case Some(k) =>
      DeleteCorrect(t, k, None);
      var t' := Delete(t, k, None, Intended).value;
      PurgeTurn(t, index, Intended, k, t');
      if t'.Node? {
        PurgeIntended(t', index);
      }
  }

  // ---------- runs ----------

  datatype Op =
    | Association(station: EthAddr, entry: Entry)
    | Removal(station: EthAddr, radioID: int)
    | Closing(index: int)

  function Step(t: Tree, op: Op, f: Fixup): Option<Tree>
    requires Ordered(t)
  {
    match op
    case Association(k, e) => Associate(t, k, e, f)
    case Removal(k, radio) => Delete(t, k, Some(radio), f)
    case Closing(index) => Purge(t, index, f)
  }

  function StepMap(m: Stations, op: Op): Stations {
    match op
    case Association(k, e) => Associated(m, k, e)
    case Removal(k, radio) => Deleted(m, k, Some(radio))
    case Closing(index) => Purged(m, index)
  }

  lemma StepContents(t: Tree, op: Op, f: Fixup)
    requires Ordered(t) && Step(t, op, f).Some?
    ensures Ordered(Step(t, op, f).value) && Contents(Step(t, op, f).value) == StepMap(Contents(t), op)
  {
    match op
    case Association(k, e) => AssociateContents(t, k, e, f);
    case Removal(k, radio) => DeleteContents(t, k, Some(radio), f, -1, TOP);
    case Closing(index) => PurgeContents(t, index, f);
  }

  lemma StepIntended(t: Tree, op: Op)
    requires Avl(t)
    ensures Step(t, op, Intended).Some? && Avl(Step(t, op, Intended).value)
  {
    match op
    case Association(k, e) => AssociateIntended(t, k, e);
    case Removal(k, radio) => DeleteCorrect(t, k, Some(radio));
    case Closing(index) => PurgeIntended(t, index);
  }

  /** The table after a run of operations, or `None` if one of them fails. */
  function Run(t: Tree, ops: seq<Op>, f: Fixup): Option<Tree>
    requires Ordered(t)
    decreases |ops|
  {
    if ops == [] then Some(t)
    else
      var t' :- Step(t, ops[0], f);
      StepContents(t, ops[0], f);
      Run(t', ops[1..], f)
  }

  function RunMap(m: Stations, ops: seq<Op>): Stations
    decreases |ops|
  {
    if ops == [] then m else RunMap(StepMap(m, ops[0]), ops[1..])
  }

  /** After every run that does not fail, whichever helpers deletions call, a search gives
      what a finite map would give. */
  lemma {:induction false} RunIsMap(t: Tree, ops: seq<Op>, f: Fixup, k: EthAddr)
    requires Ordered(t) && Run(t, ops, f).Some?
    ensures var m := RunMap(Contents(t), ops);
            Find(Run(t, ops, f).value, k) == if k in m then Some(m[k]) else None
    decreases |ops|
  {
    if ops == [] {
      FindIsLookup(t, -1, TOP, k);
    } else {
      StepContents(t, ops[0], f);
      RunIsMap(Step(t, ops[0], f).value, ops[1..], f, k);
    }
  }

  /** With the intended helpers no run fails, and the table is an AVL tree throughout. */
  lemma {:induction false} RunIntended(t: Tree, ops: seq<Op>)
    requires Avl(t)
    ensures Run(t, ops, Intended).Some? && Avl(Run(t, ops, Intended).value)
    decreases |ops|
  {
    if ops != [] {
      StepIntended(t, ops[0]);
      RunIntended(Step(t, ops[0], Intended).value, ops[1..]);
    }
  }
}
