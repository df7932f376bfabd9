/** Packing of fields into 32-bit words, as the macros `CWSetField32` and
    `CWGetField32` do it. Field positions count from the most significant bit.
    Words are non-negative integers; shifts and masks go bit by bit. */
module BitFields {

  const WORD_BITS: nat := 32

  /** `x >> k` */
  function Shr(x: nat, k: nat): nat {
    if k == 0 then x else Shr(x / 2, k - 1)
  }

  /** `x << k`, without the cut to the word width */
  function Shl(x: nat, k: nat): nat {
    if k == 0 then x else 2 * Shl(x, k - 1)
  }

  /** `x & ~(0xFFFFFFFF << k)`: the low `k` bits, of a negative `x` too */
  function Low(x: int, k: nat): nat
    decreases k
  {
    if k == 0 then 0 else 2 * Low(x / 2, k - 1) + x % 2
  }

  /** `a | b` */
  function Or(a: nat, b: nat): nat {
    if a == 0 && b == 0 then 0
    else 2 * Or(a / 2, b / 2) + (if a % 2 == 1 || b % 2 == 1 then 1 else 0)
  }

  /** A field of a word: `len` bits that begin `start` bits below the top. */
  datatype Field = Field(start: nat, len: nat)
  {
    predicate Fits() {
      0 < len && start + len <= WORD_BITS
    }

    function Shift(): nat
      requires Fits()
    {
      WORD_BITS - start - len
    }
  }

  predicate Disjoint(f: Field, g: Field) {
    f.start + f.len <= g.start || g.start + g.len <= f.start
  }

  function SetField(src: nat, f: Field, val: int): nat
    requires f.Fits()
  {
    Or(src, Shl(Low(val, f.len), f.Shift()))
  }

  function GetField(src: nat, f: Field): nat
    requires f.Fits()
  {
    Low(Shr(src, f.Shift()), f.len)
  }

  // ---------- "or" works bit by bit ----------

  lemma OrHalf(a: nat, b: nat)
    ensures Or(a, b) / 2 == Or(a / 2, b / 2)
    ensures Or(a, b) % 2 == if a % 2 == 1 || b % 2 == 1 then 1 else 0
  {
  }

  lemma {:induction false} OrZero(a: nat)
    ensures Or(a, 0) == a && Or(0, a) == a
  {
    if a > 0 {
      OrZero(a / 2);
    }
  }

  lemma {:induction false} ShrOr(a: nat, b: nat, k: nat)
    ensures Shr(Or(a, b), k) == Or(Shr(a, k), Shr(b, k))
  {
    if k > 0 {
      OrHalf(a, b);
      ShrOr(a / 2, b / 2, k - 1);
    }
  }

  lemma {:induction false} LowOr(a: nat, b: nat, k: nat)
    ensures Low(Or(a, b), k) == Or(Low(a, k), Low(b, k))
  {
    if k > 0 {
      OrHalf(a, b);
      LowOr(a / 2, b / 2, k - 1);
      OrHalf(Low(a, k), Low(b, k));
    }
  }

  // ---------- shifts and masks of one value ----------

  lemma {:induction false} ShrShl(v: nat, s: nat, k: nat)
    ensures Shr(Shl(v, s), k) == if k <= s then Shl(v, s - k) else Shr(v, k - s)
  {
    if k > 0 && s > 0 {
      ShrShl(v, s - 1, k - 1);
    }
  }

  lemma {:induction false} LowShl(v: nat, s: nat, k: nat)
    requires k <= s
    ensures Low(Shl(v, s), k) == 0
  {
    if k > 0 {
      LowShl(v, s - 1, k - 1);
    }
  }

  lemma {:induction false} ShrLow(v: int, n: nat, k: nat)
    requires n <= k
    ensures Shr(Low(v, n), k) == 0
    decreases n
  {
    if n > 0 {
      ShrLow(v / 2, n - 1, k - 1);
    } else {
      ShrZero(k);
    }
  }

  lemma {:induction false} ShrZero(k: nat)
    ensures Shr(0, k) == 0
  {
    if k > 0 {
      ShrZero(k - 1);
    }
  }

  lemma {:induction false} LowLow(v: int, n: nat)
    ensures Low(Low(v, n), n) == Low(v, n)
    decreases n
  {
    if n > 0 {
      LowLow(v / 2, n - 1);
    }
  }

  lemma {:induction false} LowZero(n: nat)
    ensures Low(0, n) == 0
  {
    if n > 0 {
      LowZero(n - 1);
    }
  }

  /** A value that fits `n` bits is not changed by the mask. */
  lemma {:induction false} LowOfSmall(v: nat, n: nat)
    requires v < Shl(1, n)
    ensures Low(v, n) == v
  {
    if n > 0 {
      LowOfSmall(v / 2, n - 1);
    }
  }

  lemma {:induction false} LowBound(v: int, n: nat)
    ensures Low(v, n) < Shl(1, n)
    decreases n
  {
    if n > 0 {
      LowBound(v / 2, n - 1);
    }
  }

  lemma MulBounds(k: int, d: int)
    requires d > 0
    ensures k >= 1 ==> k * d >= d
    ensures k <= -1 ==> k * d <= -d
  {
  }

  lemma DivUnique(x: int, d: int, q: int, r: int)
    requires 0 <= r < d && x == q * d + r
    ensures x % d == r
  {
    var k := q - x / d;
    assert k * d == x % d - r;
    MulBounds(k, d);
  }

  lemma LowByte(v: int)
    ensures Low(v, 8) == v % 256
  {
    LowIsMod(v, 8);
    ShlByte(1);
  }

  /** The mask is the remainder modulo a power of two. */
  lemma {:induction false} LowIsMod(v: int, n: nat)
    ensures Shl(1, n) > 0 && Low(v, n) == v % Shl(1, n)
    decreases n
  {
    if n > 0 {
      LowIsMod(v / 2, n - 1);
      var p := Shl(1, n - 1);
      var q := v / 2 / p;
      assert v / 2 == q * p + Low(v / 2, n - 1);
      assert v == q * (2 * p) + Low(v, n) by {
        assert 2 * (q * p) == q * (2 * p);
      }
      LowBound(v, n);
      DivUnique(v, 2 * p, q, Low(v, n));
    }
  }

  /** Flags and small constants fit their fields. */
  lemma LowSmall(v: nat, n: nat)
    requires (v < 2 && n >= 1) || (v < 8 && n >= 3)
    ensures Low(v, n) == v
  {
    assert Shl(1, 1) == 2;
    assert Shl(1, 3) == 8;
    if v < 2 {
      ShlMonotone(1, n);
    } else {
      ShlMonotone(3, n);
    }
    LowOfSmall(v, n);
  }

  // ---------- fields ----------

  lemma GetFieldOr(a: nat, b: nat, f: Field)
    requires f.Fits()
    ensures GetField(Or(a, b), f) == Or(GetField(a, f), GetField(b, f))
  {
    ShrOr(a, b, f.Shift());
    LowOr(Shr(a, f.Shift()), Shr(b, f.Shift()), f.len);
  }

  /** A field that was still zero reads back what was set, cut to its width. */
  lemma GetOwnField(src: nat, f: Field, val: int)
    requires f.Fits() && GetField(src, f) == 0
    ensures GetField(SetField(src, f, val), f) == Low(val, f.len)
  {
    var v := Low(val, f.len);
    GetFieldOr(src, Shl(v, f.Shift()), f);
    ShrShl(v, f.Shift(), f.Shift());
    LowLow(val, f.len);
    OrZero(v);
  }

  /** Setting one field leaves every field disjoint from it as it was. */
  lemma GetOtherField(src: nat, f: Field, val: int, g: Field)
    requires f.Fits() && g.Fits() && Disjoint(f, g)
    ensures GetField(SetField(src, f, val), g) == GetField(src, g)
  {
    var v := Low(val, f.len);
    GetFieldOr(src, Shl(v, f.Shift()), g);
    ShrShl(v, f.Shift(), g.Shift());
    if g.start + g.len <= f.start {
      ShrLow(val, f.len, g.Shift() - f.Shift());
      LowZero(g.len);
    } else {
      LowShl(v, f.Shift() - g.Shift(), g.len);
    }
    OrZero(GetField(src, g));
  }

  lemma SetZero(src: nat, f: Field)
    requires f.Fits()
    ensures SetField(src, f, 0) == src
  {
    LowZero(f.len);
    ShlZero(f.Shift());
    OrZero(src);
  }

  lemma {:induction false} ShlZero(k: nat)
    ensures Shl(0, k) == 0
  {
    if k > 0 {
      ShlZero(k - 1);
    }
  }

  // ---------- whole words ----------

  /** One `CWSetField32` call. */
  datatype Setting = Setting(field: Field, val: int)

  predicate WellLaid(ss: seq<Setting>) {
    && (forall i | 0 <= i < |ss| :: ss[i].field.Fits())
    && (forall i, j | 0 <= i < j < |ss| :: Disjoint(ss[i].field, ss[j].field))
  }

  /** The word a run of `CWSetField32` calls builds, starting from 0. */
  function Pack(ss: seq<Setting>): nat
    requires forall i | 0 <= i < |ss| :: ss[i].field.Fits()
  {
    if ss == [] then 0
    else SetField(Pack(ss[..|ss| - 1]), ss[|ss| - 1].field, ss[|ss| - 1].val)
  }

  /** A field no setting touches stays zero. */
  lemma {:induction false} PackOther(ss: seq<Setting>, g: Field)
    requires g.Fits()
    requires forall i | 0 <= i < |ss| :: ss[i].field.Fits() && Disjoint(ss[i].field, g)
    ensures GetField(Pack(ss), g) == 0
  {
    if ss == [] {
      ShrZero(g.Shift());
      LowZero(g.len);
    } else {
      var last := ss[|ss| - 1];
      PackOther(ss[..|ss| - 1], g);
      GetOtherField(Pack(ss[..|ss| - 1]), last.field, last.val, g);
    }
  }

  lemma LoneField(f: Field, val: int, g: Field)
    requires f.Fits() && g.Fits() && Disjoint(f, g)
    ensures var w := Pack([Setting(f, val)]);
            GetField(w, f) == Low(val, f.len) && GetField(w, g) == 0
  {
    PackGet([Setting(f, val)], 0);
    PackOther([Setting(f, val)], g);
  }

  /** A field followed by zero padding. */
  lemma PaddedField(f: Field, val: int, pad: Field, g: Field)
    requires f.Fits() && g.Fits() && pad.Fits() && Disjoint(f, g)
    ensures var w := Pack([Setting(f, val), Setting(pad, 0)]);
            GetField(w, f) == Low(val, f.len) && GetField(w, g) == 0
  {
    var ss := [Setting(f, val), Setting(pad, 0)];
    assert ss[..1] == [Setting(f, val)];
    SetZero(Pack([Setting(f, val)]), pad);
    LoneField(f, val, g);
  }

  /** With pairwise disjoint fields, every field reads back its own value. */
  lemma {:induction false} PackGet(ss: seq<Setting>, k: nat)
    requires WellLaid(ss) && k < |ss|
    ensures GetField(Pack(ss), ss[k].field) == Low(ss[k].val, ss[k].field.len)
  {
    var n := |ss| - 1;
    var init := ss[..n];
    if k == n {
      PackOther(init, ss[n].field);
      GetOwnField(Pack(init), ss[n].field, ss[n].val);
    } else {
      PackGet(init, k);
      GetOtherField(Pack(init), ss[n].field, ss[n].val, ss[k].field);
    }
  }

  lemma {:induction false} OrBound(a: nat, b: nat, n: nat)
    requires a < Shl(1, n) && b < Shl(1, n)
    ensures Or(a, b) < Shl(1, n)
  {
    if n == 0 {
      OrZero(0);
    } else {
      OrBound(a / 2, b / 2, n - 1);
    }
  }

  lemma {:induction false} ShlBound(v: nat, n: nat, k: nat)
    requires v < Shl(1, n)
    ensures Shl(v, k) < Shl(1, n + k)
  {
    if k > 0 {
      ShlBound(v, n, k - 1);
    }
  }

  lemma {:induction false} ShlMonotone(n: nat, m: nat)
    requires n <= m
    ensures Shl(1, n) <= Shl(1, m)
  {
    if n < m {
      ShlMonotone(n, m - 1);
    }
  }

  lemma {:induction false} ShlTwice(v: nat, n: nat, m: nat)
    ensures Shl(Shl(v, n), m) == Shl(v, n + m)
  {
    if m > 0 {
      ShlTwice(v, n, m - 1);
    }
  }

  lemma {:induction false} ShlByte(v: nat)
    ensures Shl(v, 8) == v * 256
  {
    assert Shl(v, 1) == 2 * v;
    assert Shl(v, 2) == 4 * v;
    assert Shl(v, 4) == 16 * v;
    assert Shl(v, 6) == 64 * v;
  }

  lemma WordSize()
    ensures Shl(1, WORD_BITS) == 0x1_0000_0000
  {
    ShlByte(1);
    ShlTwice(1, 8, 8);
    ShlByte(256);
    ShlTwice(1, 16, 8);
    ShlByte(0x10000);
    ShlTwice(1, 24, 8);
    ShlByte(0x1000000);
  }

  /** The packed word fits in 32 bits. */
  lemma {:induction false} PackBound(ss: seq<Setting>)
    requires forall i | 0 <= i < |ss| :: ss[i].field.Fits()
    ensures Pack(ss) < Shl(1, WORD_BITS)
  {
    if ss != [] {
      var last := ss[|ss| - 1];
      var f := last.field;
      PackBound(ss[..|ss| - 1]);
      LowBound(last.val, f.len);
      ShlBound(Low(last.val, f.len), f.len, f.Shift());
      ShlMonotone(f.len + f.Shift(), WORD_BITS);
      OrBound(Pack(ss[..|ss| - 1]), Shl(Low(last.val, f.len), f.Shift()), WORD_BITS);
    } else {
      ShlMonotone(0, WORD_BITS);
    }
  }

  /** Fields that follow each other without a gap and fill the word. */
  predicate Tiles(ss: seq<Setting>) {
    && |ss| > 0 && ss[0].field.start == 0
    && (forall i | 0 <= i < |ss| :: ss[i].field.len > 0)
    && (forall i | 0 <= i < |ss| - 1 :: ss[i].field.start + ss[i].field.len == ss[i + 1].field.start)
    && ss[|ss| - 1].field.start + ss[|ss| - 1].field.len == WORD_BITS
  }

  lemma {:induction false} TilesOrdered(ss: seq<Setting>, i: nat, j: nat)
    requires Tiles(ss) && i < j < |ss|
    ensures ss[i].field.start + ss[i].field.len <= ss[j].field.start
  {
    if i + 1 < j {
      TilesOrdered(ss, i, j - 1);
    }
    assert ss[j - 1].field.start + ss[j - 1].field.len == ss[j].field.start;
  }

  /** A tiling is a legal layout: all fields lie in the word and no two overlap. */
  lemma TilesWellLaid(ss: seq<Setting>)
    requires Tiles(ss)
    ensures WellLaid(ss)
  {
    forall i, j | 0 <= i < j < |ss|
      ensures Disjoint(ss[i].field, ss[j].field)
    {
      TilesOrdered(ss, i, j);
    }
    forall i | 0 <= i < |ss|
      ensures ss[i].field.Fits()
    {
      if i < |ss| - 1 {
        TilesOrdered(ss, i, |ss| - 1);
      }
    }
  }

  /** Every bit of the word belongs to a field of the tiling. */
  lemma TileOf(ss: seq<Setting>, b: nat) returns (i: nat)
    requires Tiles(ss) && b < WORD_BITS
    ensures i < |ss| && ss[i].field.start <= b < ss[i].field.start + ss[i].field.len
  {
    i := 0;
    while b >= ss[i].field.start + ss[i].field.len
      invariant i < |ss| && ss[i].field.start <= b
      decreases |ss| - i
    {
      i := i + 1;
    }
  }
}
