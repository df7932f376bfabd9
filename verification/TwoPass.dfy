/** The parsers that go over the message elements twice: first to count the elements of some
    kinds and to read those of others, then to fill one array for each counted kind. There
    are three: of Change State Event Requests, in the data check state and in the run
    state, and of WTP Event Requests. */
module TwoPass {
  import opened Options
  import opened Bytes
  import opened ControlMessage

  const DECRYPT_ERROR_REPORT: nat := 15
  const DELETE_STATION: nat := 18
  const DUPLICATE_IPV4_ADDRESS: nat := 21
  const DUPLICATE_IPV6_ADDRESS: nat := 22
  const RADIO_OPERAT_STATE: nat := 32
  const RESULT_CODE: nat := 33
  const WTP_OPERAT_STATISTICS: nat := 46
  const WTP_RADIO_STATISTICS: nat := 47
  const WTP_REBOOT_STATISTICS: nat := 48

  datatype Parser = ChangeState | WtpEvent

  /** What the elements must end with: the stated length, or the message itself. */
  datatype End = AtLength | AtMessageEnd

  /** The kinds that are counted in the first pass and filled in the second. */
  function Filled(p: Parser): seq<nat> {
    match p
    case ChangeState => [RADIO_OPERAT_STATE]
    case WtpEvent => [WTP_OPERAT_STATISTICS, WTP_RADIO_STATISTICS]
  }

  /** The kinds that are read in the first pass and skipped in the second. */
  predicate Single(p: Parser, kind: nat) {
    match p
    case ChangeState => kind == RESULT_CODE
    case WtpEvent =>
      || kind == DECRYPT_ERROR_REPORT || kind == DELETE_STATION || kind == WTP_REBOOT_STATISTICS
      || kind == DUPLICATE_IPV4_ADDRESS || kind == DUPLICATE_IPV6_ADDRESS
  }

  /** Reading the body of an element ends where the element does. */
  predicate Fits(e: Element) {
    var n, b := |e.body|, e.body;
    if e.elemType == RADIO_OPERAT_STATE then n == 3
    else if e.elemType == RESULT_CODE || e.elemType == WTP_OPERAT_STATISTICS then n == 4
    else if e.elemType == WTP_RADIO_STATISTICS then n == 20
    else if e.elemType == WTP_REBOOT_STATISTICS then n == 15
    else if e.elemType == DECRYPT_ERROR_REPORT then n >= 3 && n == 3 + 6 * (b[1] as int)
    else if e.elemType == DELETE_STATION then n >= 2 && n == 2 + b[1] as int
    else if e.elemType == DUPLICATE_IPV4_ADDRESS then n >= 6 && n == 6 + b[5] as int
    else e.elemType == DUPLICATE_IPV6_ADDRESS && n >= 18 && n == 18 + b[17] as int
  }

  /** An entry of an array. */
  datatype Record =
    | Radio(id: Byte, state: Byte, cause: Byte)
    | Operational(radioID: Byte, txQueueLevel: Byte, framesPerSec: nat)
    | Statistics(radioID: Byte, lastFailureType: Byte, counters: seq<nat>)
    | Blank

  function Decode(e: Element): Record
    requires Fits(e)
  {
    var b := e.body;
    if e.elemType == RADIO_OPERAT_STATE then Radio(b[0], b[1], b[2])
    else if e.elemType == WTP_OPERAT_STATISTICS then Operational(b[0], b[1], FromBe16(b[2..]))
    else if e.elemType == WTP_RADIO_STATISTICS then
      Statistics(b[0], b[1], seq(9, i requires 0 <= i < 9 => FromBe16(b[2 + 2 * i..])))
    else Blank
  }

  // ---------- what is meant ----------

  predicate Readable(p: Parser, e: Element) {
    (e.elemType in Filled(p) || Single(p, e.elemType)) && Fits(e)
  }

  predicate AllReadable(p: Parser, es: seq<Element>) {
    forall e | e in es :: Readable(p, e)
  }

  /** The entries of one kind among some elements, in their order. */
  function Records(es: seq<Element>, kind: nat): seq<Record> {
    if es == [] then []
    else
      var e := es[|es| - 1];
      Records(es[..|es| - 1], kind) + if e.elemType == kind && Fits(e) then [Decode(e)] else []
  }

  /** The entries of each counted kind. */
  function Tables(p: Parser, es: seq<Element>): seq<seq<Record>> {
    seq(|Filled(p)|, j requires 0 <= j < |Filled(p)| => Records(es, Filled(p)[j]))
  }

  /** The bodies of the elements read in the first pass: the last one of a kind counts. */
  function Singles(p: Parser, es: seq<Element>): map<nat, seq<Byte>> {
    if es == [] then map[]
    else
      var e, before := es[|es| - 1], Singles(p, es[..|es| - 1]);
      if Single(p, e.elemType) then before[e.elemType := e.body] else before
  }

  /** What a message says. */
  datatype Request = Request(tables: seq<seq<Record>>, singles: map<nat, seq<Byte>>)

  predicate Ends(end: End, s: seq<Byte>, len: nat, consumed: nat) {
    match end
    case AtLength => consumed == len
    case AtMessageEnd => consumed == |s|
  }

  /** What a message says, if its elements end where they must and are all readable. */
  function Parsed(p: Parser, end: End, s: seq<Byte>, len: nat): Option<Request> {
    match WalkElements(s, len)
    case Overread => None
    case Walked(es, n) =>
      if Ends(end, s, len, n) && AllReadable(p, es) then Some(Request(Tables(p, es), Singles(p, es))) else None
  }

  // ---------- what the passes have seen ----------

  /** What the first pass lets through. */
  predicate Passable(p: Parser, e: Element) {
    e.elemType in Filled(p) || (Single(p, e.elemType) && Fits(e))
  }

  predicate AllPassable(p: Parser, es: seq<Element>) {
    forall e | e in es :: Passable(p, e)
  }

  function Count(es: seq<Element>, kind: nat): nat {
    if es == [] then 0
    else Count(es[..|es| - 1], kind) + if es[|es| - 1].elemType == kind then 1 else 0
  }

  function Counts(p: Parser, es: seq<Element>): seq<nat> {
    seq(|Filled(p)|, j requires 0 <= j < |Filled(p)| => Count(es, Filled(p)[j]))
  }

  /** Which counted kind it is, or the number of them. */
  function KindOf(p: Parser, kind: nat): (j: nat)
    ensures j <= |Filled(p)| && (j < |Filled(p)| <==> kind in Filled(p))
    ensures forall k | 0 <= k < |Filled(p)| :: Filled(p)[k] == kind <==> k == j
  {
    if kind == Filled(p)[0] then 0 else if p.WtpEvent? && kind == Filled(p)[1] then 1 else |Filled(p)|
  }

  /** A walk that has gone over `seen`, up to `offset`, and goes on from there. */
  function Onward(s: seq<Byte>, len: nat, seen: seq<Element>, offset: nat): Walk
    requires offset <= |s|
  {
    match WalkElements(s[offset..], len - offset)
    case Overread => Overread
    case Walked(es, n) => Walked(seen + es, offset + n)
  }

  predicate Inside(s: seq<Byte>, offset: nat) {
    offset + 4 <= |s| && offset + 4 + FromBe16(s[offset + 2..]) <= |s|
  }

  function ElementAt(s: seq<Byte>, offset: nat): Element
    requires Inside(s, offset)
  {
    Element(FromBe16(s[offset..]), s[offset + 4..offset + 4 + FromBe16(s[offset + 2..])])
  }

  function After(s: seq<Byte>, offset: nat): nat
    requires Inside(s, offset)
  {
    offset + 4 + FromBe16(s[offset + 2..])
  }

  lemma Advance(s: seq<Byte>, len: nat, seen: seq<Element>, offset: nat)
    requires offset < len && Inside(s, offset)
    ensures offset < After(s, offset) <= |s|
    ensures Onward(s, len, seen, offset) == Onward(s, len, seen + [ElementAt(s, offset)], After(s, offset))
  {
    hide FromBe16;
    var n := FromBe16(s[offset + 2..]);
    var rest := s[offset..];
    assert rest[2..] == s[offset + 2..] && rest[4..4 + n] == s[offset + 4..offset + 4 + n];
    assert rest[4 + n..] == s[offset + 4 + n..];
    assert forall es :: seen + ([ElementAt(s, offset)] + es) == seen + [ElementAt(s, offset)] + es;
  }

  lemma AtEnd(s: seq<Byte>, len: nat, seen: seq<Element>, offset: nat)
    requires len <= offset <= |s|
    ensures Onward(s, len, seen, offset) == Walked(seen, offset)
  {
    assert seen + [] == seen;
  }

  lemma Beyond(s: seq<Byte>, len: nat, seen: seq<Element>, offset: nat)
    requires offset < len && offset <= |s| && !Inside(s, offset)
    ensures Onward(s, len, seen, offset) == Overread
  {
    assert offset + 4 <= |s| ==> s[offset..][2..] == s[offset + 2..];
  }

  lemma Unreadable(p: Parser, end: End, s: seq<Byte>, len: nat, seen: seq<Element>, offset: nat, e: Element)
    requires offset <= |s| && Onward(s, len, seen, offset) == WalkElements(s, len)
    requires e in seen && !Readable(p, e)
    ensures Parsed(p, end, s, len) == None
  {
    match WalkElements(s, len)
    case Overread =>
    case Walked(es, _) => assert e in es;
  }

  lemma Append(es: seq<Element>, e: Element, kind: nat)
    ensures Records(es + [e], kind) == Records(es, kind) + if e.elemType == kind && Fits(e) then [Decode(e)] else []
    ensures Count(es + [e], kind) == Count(es, kind) + if e.elemType == kind then 1 else 0
  {
    assert (es + [e])[..|es|] == es;
  }

  lemma SinglesAppend(p: Parser, es: seq<Element>, e: Element)
    ensures Singles(p, es + [e]) ==
            if Single(p, e.elemType) then Singles(p, es)[e.elemType := e.body] else Singles(p, es)
  {
    assert (es + [e])[..|es|] == es;
  }

  /** An element of a counted kind adds one to its count and its table, and nothing else. */
  lemma CountsAppend(p: Parser, es: seq<Element>, e: Element)
    ensures var j := KindOf(p, e.elemType);
            Counts(p, es + [e]) == if j < |Filled(p)| then Counts(p, es)[j := Counts(p, es)[j] + 1] else Counts(p, es)
  {
    hide Filled;
    forall k | 0 <= k < |Filled(p)|
      ensures Count(es + [e], Filled(p)[k]) == Count(es, Filled(p)[k]) + if k == KindOf(p, e.elemType) then 1 else 0
    {
      Append(es, e, Filled(p)[k]);
    }
  }

  lemma TablesAppend(p: Parser, es: seq<Element>, e: Element)
    requires Fits(e)
    ensures var j := KindOf(p, e.elemType);
            Tables(p, es + [e]) ==
            if j < |Filled(p)| then Tables(p, es)[j := Tables(p, es)[j] + [Decode(e)]] else Tables(p, es)
  {
    hide Filled, Decode, Fits;
    forall k | 0 <= k < |Filled(p)|
      ensures Records(es + [e], Filled(p)[k]) ==
              if k == KindOf(p, e.elemType) then Records(es, Filled(p)[k]) + [Decode(e)] else Records(es, Filled(p)[k])
    {
      Append(es, e, Filled(p)[k]);
      assert Records(es, Filled(p)[k]) + [] == Records(es, Filled(p)[k]);
    }
  }

  lemma {:induction false} CountSplit(a: seq<Element>, b: seq<Element>, kind: nat)
    ensures Count(a + b, kind) == Count(a, kind) + Count(b, kind)
  {
    if b == [] {
      assert a + b == a;
    } else {
      var n := |b| - 1;
      CountSplit(a, b[..n], kind);
      assert (a + b)[..|a + b| - 1] == a + b[..n];
    }
  }

  lemma {:induction false} RecordsCounted(p: Parser, es: seq<Element>, kind: nat)
    requires AllReadable(p, es)
    ensures |Records(es, kind)| == Count(es, kind)
  {
    if es != [] {
      assert Readable(p, es[|es| - 1]);
      RecordsCounted(p, es[..|es| - 1], kind);
    }
  }

  // ---------- the first pass ----------

  /** The first pass let the message through. */
  predicate Counted(p: Parser, end: End, s: seq<Byte>, len: nat, counts: seq<nat>, singles: map<nat, seq<Byte>>) {
    var w := WalkElements(s, len);
    && w.Walked? && Ends(end, s, len, w.consumed)
    && counts == Counts(p, w.elements) && singles == Singles(p, w.elements) && AllPassable(p, w.elements)
  }

  /** The first pass has gone over `seen`, up to `offset`. */
  predicate Counting(p: Parser, s: seq<Byte>, len: nat, seen: seq<Element>, offset: nat,
                     counts: seq<nat>, singles: map<nat, seq<Byte>>) {
    && offset <= |s| && Onward(s, len, seen, offset) == WalkElements(s, len)
    && counts == Counts(p, seen) && singles == Singles(p, seen) && AllPassable(p, seen)
  }

  lemma CountingStarts(p: Parser, s: seq<Byte>, len: nat)
    ensures Counting(p, s, len, [], 0, seq(|Filled(p)|, _ => 0), map[])
  {
    assert s[0..] == s;
    assert Counts(p, []) == seq(|Filled(p)|, _ => 0);
  }

  lemma CountingGoesOn(p: Parser, end: End, s: seq<Byte>, len: nat, seen: seq<Element>, offset: nat,
                       counts: seq<nat>, singles: map<nat, seq<Byte>>)
    requires Counting(p, s, len, seen, offset, counts, singles) && offset < len
    ensures !Inside(s, offset) ==> Parsed(p, end, s, len) == None
    ensures Inside(s, offset) ==>
              var e, j := ElementAt(s, offset), KindOf(p, ElementAt(s, offset).elemType);
              && |counts| == |Filled(p)| && offset < After(s, offset)
              && if j < |Filled(p)| then
                   Counting(p, s, len, seen + [e], After(s, offset), counts[j := counts[j] + 1], singles)
                 else if Single(p, e.elemType) && Fits(e) then
                   Counting(p, s, len, seen + [e], After(s, offset), counts, singles[e.elemType := e.body])
                 else Parsed(p, end, s, len) == None
  {
    if Inside(s, offset) {
      var e := ElementAt(s, offset);
      Advance(s, len, seen, offset);
      CountsAppend(p, seen, e);
      SinglesAppend(p, seen, e);
      SingleIsNotFilled(p, e.elemType);
      hide Filled, Single, Fits, Decode, ElementAt, WalkElements, Counts, Singles, Inside, After;
      if !Passable(p, e) {
        Unreadable(p, end, s, len, seen + [e], After(s, offset), e);
      }
    } else {
      Beyond(s, len, seen, offset);
    }
  }

  lemma SingleIsNotFilled(p: Parser, kind: nat)
    ensures Single(p, kind) ==> KindOf(p, kind) == |Filled(p)|
  {
  }

  lemma CountingEnds(p: Parser, end: End, s: seq<Byte>, len: nat, seen: seq<Element>, offset: nat,
                     counts: seq<nat>, singles: map<nat, seq<Byte>>)
    requires Counting(p, s, len, seen, offset, counts, singles) && offset >= len
    ensures if Ends(end, s, len, offset) then Counted(p, end, s, len, counts, singles)
            else Parsed(p, end, s, len) == None
  {
    AtEnd(s, len, seen, offset);
  }

  /** The first loop: how many elements of each counted kind there are, and the bodies of the
      others; `None` if the message is refused. */
  method CountPass(p: Parser, end: End, s: seq<Byte>, len: nat)
    returns (counts: Option<seq<nat>>, singles: map<nat, seq<Byte>>)
    ensures counts.None? ==> Parsed(p, end, s, len) == None
    ensures counts.Some? ==> Counted(p, end, s, len, counts.value, singles)
  {
    hide Counting, Counted, Parsed, Onward, WalkElements, Fits, Single, Filled, Inside;
    var offset := 0;
    var found: seq<nat> := seq(|Filled(p)|, _ => 0);
    singles := map[];
    ghost var seen: seq<Element> := [];
    CountingStarts(p, s, len);
    while offset < len
      invariant Counting(p, s, len, seen, offset, found, singles)
      decreases len - offset
    {
      CountingGoesOn(p, end, s, len, seen, offset, found, singles);
      if !Inside(s, offset) {
        return None, singles;
      }
      var e := ElementAt(s, offset);
      seen := seen + [e];
      var j := KindOf(p, e.elemType);
      if j < |Filled(p)| {
        found := found[j := found[j] + 1];
      } else if Single(p, e.elemType) && Fits(e) {
        singles := singles[e.elemType := e.body];
      } else {
        return None, singles;
      }
      offset := After(s, offset);
    }
    CountingEnds(p, end, s, len, seen, offset, found, singles);
    if !Ends(end, s, len, offset) {
      return None, singles;
    }
    return Some(found), singles;
  }

  // ---------- the second pass ----------

  /** The second pass has gone over `seen`, up to `offset`, and taken `tables` from it. */
  predicate Filling(p: Parser, s: seq<Byte>, len: nat, seen: seq<Element>, offset: nat, tables: seq<seq<Record>>) {
    && offset <= |s| && Onward(s, len, seen, offset) == WalkElements(s, len)
    && AllReadable(p, seen) && tables == Tables(p, seen)
  }

  /** What was seen is the beginning of what there is; its counts are among those taken. */
  lemma SeenIsPrefix(s: seq<Byte>, len: nat, seen: seq<Element>, offset: nat, kind: nat)
    requires offset <= |s| && Onward(s, len, seen, offset) == WalkElements(s, len) && WalkElements(s, len).Walked?
    ensures Count(seen, kind) <= Count(WalkElements(s, len).elements, kind)
    ensures forall e | e in seen :: e in WalkElements(s, len).elements
  {
    var all := WalkElements(s, len).elements;
    assert all == seen + all[|seen|..];
    CountSplit(seen, all[|seen|..], kind);
  }

  lemma FillingStarts(p: Parser, s: seq<Byte>, len: nat)
    ensures Filling(p, s, len, [], 0, seq(|Filled(p)|, _ => []))
  {
    assert s[0..] == s;
    assert Tables(p, []) == seq(|Filled(p)|, _ => []);
  }

  /** In the second pass there is another element as long as the length says so, it is one
      that the first pass let through, and one of a counted kind has an entry left for it. */
  lemma Another(p: Parser, end: End, s: seq<Byte>, len: nat, counts: seq<nat>, singles: map<nat, seq<Byte>>,
                seen: seq<Element>, offset: nat, tables: seq<seq<Record>>)
    requires Counted(p, end, s, len, counts, singles)
    requires Filling(p, s, len, seen, offset, tables) && offset < len
    ensures Inside(s, offset) && |counts| == |tables| == |Filled(p)|
    ensures var e := ElementAt(s, offset);
            && Passable(p, e) && offset < After(s, offset) <= |s|
            && Onward(s, len, seen + [e], After(s, offset)) == WalkElements(s, len)
            && var j := KindOf(p, e.elemType); j < |Filled(p)| ==> |tables[j]| < counts[j]
  {
    if !Inside(s, offset) {
      Beyond(s, len, seen, offset);
    }
    Advance(s, len, seen, offset);
    var e, j := ElementAt(s, offset), KindOf(p, ElementAt(s, offset).elemType);
    hide Filled, Single, Fits, Decode, ElementAt, WalkElements, Inside, After, Singles, Onward;
    SeenIsPrefix(s, len, seen + [e], After(s, offset), e.elemType);
    assert e in seen + [e];
    if j < |Filled(p)| {
      Append(seen, e, e.elemType);
      RecordsCounted(p, seen, e.elemType);
    }
  }

  /** After it, the pass has gone further; an element of a counted kind that does not fit
      refuses the message. */
  lemma Further(p: Parser, end: End, s: seq<Byte>, len: nat, seen: seq<Element>, offset: nat, tables: seq<seq<Record>>)
    requires Filling(p, s, len, seen, offset, tables) && Inside(s, offset) && |tables| == |Filled(p)|
    requires var e := ElementAt(s, offset);
             && Passable(p, e) && After(s, offset) <= |s|
             && Onward(s, len, seen + [e], After(s, offset)) == WalkElements(s, len)
    ensures var e := ElementAt(s, offset);
            var j := KindOf(p, e.elemType);
            if j == |Filled(p)| then Filling(p, s, len, seen + [e], After(s, offset), tables)
            else if Fits(e) then Filling(p, s, len, seen + [e], After(s, offset), tables[j := tables[j] + [Decode(e)]])
            else Parsed(p, end, s, len) == None
  {
    hide Filled, Single, Fits, Decode, ElementAt, WalkElements, Inside, After, Onward, Tables;
    var e := ElementAt(s, offset);
    if Fits(e) {
      TablesAppend(p, seen, e);
      assert forall x | x in seen + [e] :: x in seen || x == e;
    } else {
      Unreadable(p, end, s, len, seen + [e], After(s, offset), e);
    }
  }

  /** One turn of the second loop. */
  lemma FillingGoesOn(p: Parser, end: End, s: seq<Byte>, len: nat, counts: seq<nat>, singles: map<nat, seq<Byte>>,
                      seen: seq<Element>, offset: nat, tables: seq<seq<Record>>)
    requires Counted(p, end, s, len, counts, singles)
    requires Filling(p, s, len, seen, offset, tables) && offset < len
    ensures Inside(s, offset) && offset < After(s, offset) && |counts| == |tables| == |Filled(p)|
    ensures var e := ElementAt(s, offset);
            var j := KindOf(p, e.elemType);
            if j == |Filled(p)| then Filling(p, s, len, seen + [e], After(s, offset), tables)
            else if !Fits(e) then Parsed(p, end, s, len) == None
            else && |tables[j]| < counts[j]
                 && Filling(p, s, len, seen + [e], After(s, offset), tables[j := tables[j] + [Decode(e)]])
  {
    hide *;
    Another(p, end, s, len, counts, singles, seen, offset, tables);
    Further(p, end, s, len, seen, offset, tables);
  }

  /** At the end every array is full. */
  lemma FillingEnds(p: Parser, end: End, s: seq<Byte>, len: nat, counts: seq<nat>, singles: map<nat, seq<Byte>>,
                    seen: seq<Element>, offset: nat, tables: seq<seq<Record>>)
    requires Counted(p, end, s, len, counts, singles)
    requires Filling(p, s, len, seen, offset, tables) && offset >= len
    ensures |tables| == |counts| && forall j | 0 <= j < |tables| :: |tables[j]| == counts[j]
    ensures Parsed(p, end, s, len) == Some(Request(tables, singles))
  {
    AtEnd(s, len, seen, offset);
    forall j | 0 <= j < |tables|
      ensures |tables[j]| == counts[j]
    {
      RecordsCounted(p, seen, Filled(p)[j]);
    }
  }

  // ---------- in place ----------

  method NewArrays(counts: seq<nat>) returns (arrays: seq<array<Record>>)
    ensures |arrays| == |counts| && forall j | 0 <= j < |arrays| :: arrays[j].Length == counts[j] && fresh(arrays[j])
    ensures forall j, k | 0 <= j < k < |arrays| :: arrays[j] != arrays[k]
  {
    arrays := [];
    for i := 0 to |counts|
      invariant |arrays| == i && forall j | 0 <= j < i :: arrays[j].Length == counts[j] && fresh(arrays[j])
      invariant forall j, k | 0 <= j < k < i :: arrays[j] != arrays[k]
    {
      var a := new Record[counts[i]](_ => Blank);
      arrays := arrays + [a];
    }
  }

  /** One array for each counted kind, and how far each is filled. */
  class Filler {
    const arrays: seq<array<Record>>
    var filled: seq<nat>

    ghost predicate Valid()
      reads this
    {
      && |filled| == |arrays|
      && (forall j | 0 <= j < |arrays| :: filled[j] <= arrays[j].Length)
      && (forall j, k | 0 <= j < k < |arrays| :: arrays[j] != arrays[k])
    }

    ghost function Sizes(): (sizes: seq<nat>)
      ensures |sizes| == |arrays|
    {
      seq(|arrays|, j requires 0 <= j < |arrays| => arrays[j].Length)
    }

    /** What has been filled in. */
    ghost function Contents(): (tables: seq<seq<Record>>)
      requires Valid()
      reads this, arrays
      ensures |tables| == |arrays| && forall j | 0 <= j < |arrays| :: tables[j] == arrays[j][..filled[j]]
    {
      seq(|arrays|, j requires 0 <= j < |arrays| && Valid() reads this, arrays => arrays[j][..filled[j]])
    }

    constructor (arrays: seq<array<Record>>)
      requires forall j, k | 0 <= j < k < |arrays| :: arrays[j] != arrays[k]
      ensures this.arrays == arrays && Valid() && Contents() == seq(|arrays|, _ => [])
    {
      this.arrays, filled := arrays, seq(|arrays|, _ => 0);
    }

    /** The next entry of array `j`. */
    method Add(j: nat, r: Record)
      requires Valid() && j < |arrays| && filled[j] < arrays[j].Length
      modifies this, arrays[j]
      ensures Valid() && Contents() == old(Contents())[j := old(Contents())[j] + [r]]
    {
      arrays[j][filled[j]] := r;
      filled := filled[j := filled[j] + 1];
      assert Contents()[j] == old(Contents())[j] + [r];
    }

    /** The arrays, once every one is full. */
    method Result() returns (tables: seq<seq<Record>>)
      requires Valid() && filled == Sizes()
      ensures tables == Contents()
    {
      tables := [];
      for i := 0 to |arrays|
        invariant |tables| == i && forall j | 0 <= j < i :: tables[j] == arrays[j][..]
      {
        tables := tables + [arrays[i][..]];
      }
      forall j | 0 <= j < |arrays|
        ensures tables[j] == Contents()[j]
      {
        assert filled[j] == Sizes()[j];
        assert arrays[j][..filled[j]] == arrays[j][..];
      }
    }
  }

  /** The second loop: it meets the same element boundaries, and fills as many entries of
      each array as were counted, each once, in order. */
  method FillPass(p: Parser, end: End, s: seq<Byte>, len: nat, filler: Filler, ghost singles: map<nat, seq<Byte>>)
    returns (ok: bool)
    requires Counted(p, end, s, len, filler.Sizes(), singles)
    requires filler.Valid() && filler.Contents() == seq(|filler.arrays|, _ => [])
    modifies filler, filler.arrays
    ensures filler.Valid() && (ok <==> Parsed(p, end, s, len).Some?)
    ensures ok ==> filler.filled == filler.Sizes()
    ensures ok ==> Parsed(p, end, s, len) == Some(Request(filler.Contents(), singles))
  {
    ghost var counts := filler.Sizes();
    CountedSize(p, end, s, len, counts, singles);
    hide Filling, Counted, Parsed, Onward, WalkElements, Fits, Single, Filled, Inside, Passable;
    hide Decode, ElementAt, After;
    var offset := 0;
    ghost var seen: seq<Element> := [];
    FillingStarts(p, s, len);
    while offset < len
      invariant filler.Valid() && Filling(p, s, len, seen, offset, filler.Contents())
      decreases len - offset
    {
      FillingGoesOn(p, end, s, len, counts, singles, seen, offset, filler.Contents());
      var e := ElementAt(s, offset);
      seen := seen + [e];
      var j := KindOf(p, e.elemType);
      if j < |Filled(p)| {
        if !Fits(e) {
          return false;
        }
        filler.Add(j, Decode(e));
      }
      offset := After(s, offset);
    }
    FillingEnds(p, end, s, len, counts, singles, seen, offset, filler.Contents());
    assert filler.filled == counts;
    return true;
  }

  lemma CountedSize(p: Parser, end: End, s: seq<Byte>, len: nat, counts: seq<nat>, singles: map<nat, seq<Byte>>)
    requires Counted(p, end, s, len, counts, singles)
    ensures |counts| == |Filled(p)|
  {
  }

  /** Both passes. */
  method Parse(p: Parser, end: End, s: seq<Byte>, len: nat) returns (result: Option<Request>)
    ensures result == Parsed(p, end, s, len)
  {
    hide Counted, Parsed;
    var counts, singles := CountPass(p, end, s, len);
    if counts.None? {
      return None;
    }
    var arrays := NewArrays(counts.value);
    var filler := new Filler(arrays);
    assert filler.Sizes() == counts.value;
    var ok := FillPass(p, end, s, len, filler, singles);
    if !ok {
      return None;
    }
    var tables := filler.Result();
    return Some(Request(tables, singles));
  }

  // ---------- what comes back ----------

  /** The result code of a Change State Event Request. */
  function ResultCode(r: Request): Option<nat> {
    if RESULT_CODE in r.singles && |r.singles[RESULT_CODE]| == 4 then Some(FromBe32(r.singles[RESULT_CODE])) else None
  }

  /** It is the one in the last element that carries one. */
  lemma {:induction false} ResultCodeIsLast(es: seq<Element>, i: nat)
    requires AllReadable(ChangeState, es) && i < |es| && es[i].elemType == RESULT_CODE
    requires forall k | i < k < |es| :: es[k].elemType != RESULT_CODE
    ensures |es[i].body| == 4
    ensures ResultCode(Request(Tables(ChangeState, es), Singles(ChangeState, es))) == Some(FromBe32(es[i].body))
  {
    assert Readable(ChangeState, es[i]);
    var n := |es| - 1;
    if i < n {
      ResultCodeIsLast(es[..n], i);
    }
  }

  /** A request made of readable elements is parsed by either end test, and what its elements
      say comes back. */
  lemma RequestComesBack(p: Parser, end: End, es: seq<Element>)
    requires AllReadable(p, es)
    ensures Parsed(p, end, ElementsBytes(es), |ElementsBytes(es)|) == Some(Request(Tables(p, es), Singles(p, es)))
  {
    forall e | e in es
      ensures Storable(e)
    {
      ReadableSize(p, e);
    }
    WalkOwnBytes(es, |ElementsBytes(es)|);
  }

  lemma ReadableSize(p: Parser, e: Element)
    requires Readable(p, e)
    ensures |e.body| <= 1533 && Storable(e)
  {
  }

  /** A walk goes past its length by less than one element. */
  lemma {:induction false} WalkStops(s: seq<Byte>, len: int, size: nat)
    requires WalkElements(s, len).Walked? && forall e | e in WalkElements(s, len).elements :: |e.body| <= size
    ensures len >= 0 ==> WalkElements(s, len).consumed < len + 4 + size
    decreases |s|
  {
    hide FromBe16;
    if len > 0 {
      var bodyLen, rest := WalkHead(s, len);
      hide WalkElements;
      var e := Element(FromBe16(s), s[4..4 + bodyLen]);
      assert WalkElements(s, len).elements[0] == e;
      assert forall x | x in rest.elements :: x in WalkElements(s, len).elements;
      if len - 4 - bodyLen >= 0 {
        WalkStops(s[4 + bodyLen..], len - 4 - bodyLen, size);
      }
    }
  }

  /** A whole message: header and elements are assembled and parsed. Below 2^16 bytes of
      elements everything comes back, by either end test. From there on the length in the
      header is too small, and the test on the message end refuses. */
  lemma MessageComesBack(p: Parser, messageType: nat, seqNum: int, es: seq<Element>)
    requires AllReadable(p, es)
    ensures var s, n := MessageBytes(messageType, seqNum, es), |ElementsBytes(es)|;
            && |s| >= CONTROL_HEADER_SIZE
            && var body, len := s[CONTROL_HEADER_SIZE..], ElementsLength(ParseControlHeader(s));
               var whole := Some(Request(Tables(p, es), Singles(p, es)));
               && (n < 0x10000 ==> Parsed(p, AtLength, body, len) == whole)
               && (Parsed(p, AtMessageEnd, body, len) == if n < 0x10000 then whole else None)
  {
    var s, n := MessageBytes(messageType, seqNum, es), |ElementsBytes(es)|;
    MessageHead(messageType, seqNum, es);
    hide MessageBytes, ElementsLength, ParseControlHeader, ElementsBytes, Parsed, Tables, Singles, AllReadable;
    if n < 0x10000 {
      RequestComesBack(p, AtLength, es);
      RequestComesBack(p, AtMessageEnd, es);
    } else {
      TooLong(p, ElementsBytes(es), n % 0x10000);
    }
  }

  lemma TooLong(p: Parser, s: seq<Byte>, len: nat)
    requires len + 0x10000 <= |s|
    ensures Parsed(p, AtMessageEnd, s, len) == None
  {
    var w := WalkElements(s, len);
    if w.Walked? && AllReadable(p, w.elements) {
      forall e | e in w.elements
        ensures |e.body| <= 1533
      {
        ReadableSize(p, e);
      }
      WalkStops(s, len, 1533);
    }
  }

  /** The two end tests, on every message whose elements are readable: one accepts exactly if
      the elements end at the stated length, the other exactly if they end with the message,
      and what they then read is the same. */
  lemma EndsDiffer(p: Parser, s: seq<Byte>, len: nat)
    ensures var w, a, b := WalkElements(s, len), Parsed(p, AtLength, s, len), Parsed(p, AtMessageEnd, s, len);
            var readable := w.Walked? && AllReadable(p, w.elements);
            && (a.Some? <==> readable && w.consumed == len) && (b.Some? <==> readable && w.consumed == |s|)
            && (a.Some? && b.Some? ==> a == b)
            && (a == b <==> readable ==> (w.consumed == len <==> w.consumed == |s|))
  {
  }

  /** A last element that runs past the stated length to the end of the message is accepted
      by the test on the message end alone. */
  lemma PastTheLength(p: Parser, es: seq<Element>, len: nat)
    requires AllReadable(p, es) && es != []
    requires |ElementsBytes(es[..|es| - 1])| < len < |ElementsBytes(es)|
    ensures Parsed(p, AtMessageEnd, ElementsBytes(es), len) == Some(Request(Tables(p, es), Singles(p, es)))
    ensures Parsed(p, AtLength, ElementsBytes(es), len) == None
  {
    forall e | e in es
      ensures Storable(e)
    {
      ReadableSize(p, e);
    }
    WalkPast(es, len);
  }

  /** A walk over the bytes of an element takes it and goes on behind it. */
  lemma WalkOver(e: Element, tail: seq<Byte>, len: nat)
    requires Storable(e) && len > 0
    ensures var n := |ElementBytes(e)|;
            WalkElements(ElementBytes(e) + tail, len) ==
            match WalkElements(tail, len - n)
            case Overread => Overread
            case Walked(es, m) => Walked([e] + es, n + m)
  {
    ElementHead(e, tail);
  }

  lemma WalkOne(e: Element, len: nat)
    requires Storable(e) && 0 < len <= |ElementBytes(e)|
    ensures ElementsBytes([e]) == ElementBytes(e)
    ensures WalkElements(ElementsBytes([e]), len) == Walked([e], |ElementsBytes([e])|)
  {
    WalkOver(e, [], len);
    assert ElementBytes(e) + [] == ElementBytes(e) && [e] + [] == [e];
    Prepend(e, []);
    assert ElementsBytes([]) == [];
  }

  lemma {:induction false} WalkPast(es: seq<Element>, len: nat)
    requires (forall e | e in es :: Storable(e)) && es != []
    requires |ElementsBytes(es[..|es| - 1])| < len <= |ElementsBytes(es)|
    ensures WalkElements(ElementsBytes(es), len) == Walked(es, |ElementsBytes(es)|)
  {
    hide ElementBytes, ElementsBytes, WalkElements;
    var e, rest, init := es[0], es[1..], es[..|es| - 1];
    assert [e] + rest == es;
    Prepend(e, rest);
    if rest == [] {
      assert es == [e];
      SingleBytes(e);
      WalkOne(e, len);
    } else {
      var between := rest[..|rest| - 1];
      assert init == [e] + between;
      Prepend(e, between);
      WalkOver(e, ElementsBytes(rest), len);
      WalkPast(rest, len - |ElementBytes(e)|);
    }
  }

  lemma SingleBytes(e: Element)
    ensures ElementsBytes([e]) == ElementBytes(e)
  {
    assert [e][1..] == [];
  }
}
