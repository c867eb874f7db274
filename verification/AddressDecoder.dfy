/** Translation of linear addresses to a memory chip and an address within it. */
module AddressDecoder {
  import opened Bits

  // ----- Decoding by division

  /** The chip that the bits of the address from `s` on select. */
  function ChipOf(addr: nat, s: nat, chips: nat): nat
    requires chips > 0
  {
    Mod(Div(addr, Pow2(s)), chips)
  }

  /** The address with the chip selection taken out. */
  function Rest(addr: nat, s: nat, chips: nat): nat
    requires chips > 0
  {
    Mul(Pow2(s), Div(Div(addr, Pow2(s)), chips)) + Mod(addr, Pow2(s))
  }

  lemma RestParts(addr: nat, s: nat, chips: nat)
    requires chips > 0
    ensures Div(Rest(addr, s, chips), Pow2(s)) == Div(Div(addr, Pow2(s)), chips)
    ensures Mod(Rest(addr, s, chips), Pow2(s)) == Mod(addr, Pow2(s))
  {
    hide Pow2, Mul, Div, Mod;
    Divided(addr, Pow2(s));
    Quotient(Pow2(s), Div(Div(addr, Pow2(s)), chips), Mod(addr, Pow2(s)));
  }

  /** The chip and the rest of the address determine the address. */
  lemma RestDetermines(a: nat, b: nat, s: nat, chips: nat)
    requires chips > 0 && ChipOf(a, s, chips) == ChipOf(b, s, chips) && Rest(a, s, chips) == Rest(b, s, chips)
    ensures a == b
  {
    hide Pow2, Mul, Div, Mod;
    RestParts(a, s, chips);
    RestParts(b, s, chips);
    hide Rest;
    var p := Pow2(s);
    Divided(Div(a, p), chips);
    Divided(Div(b, p), chips);
    Divided(a, p);
    Divided(b, p);
  }

  /** Taking the chip selection out changes every address that has bits above it, unless there is only one chip. */
  lemma RestDiffers(addr: nat, s: nat, chips: nat)
    requires chips > 0 && addr >= Pow2(s)
    ensures Rest(addr, s, chips) != addr <==> chips > 1
  {
    hide Pow2, Mul, Div, Mod;
    RestParts(addr, s, chips);
    hide Rest;
    var high := Div(addr, Pow2(s));
    DivideByOne(high);
    Divided(addr, Pow2(s));
    HighPart(addr, Pow2(s));
    if chips > 1 {
      Shrinks(high, chips);
    } else {
      Divided(Rest(addr, s, chips), Pow2(s));
    }
  }

  lemma HighPart(x: nat, d: nat)
    requires d > 0 && x >= d
    ensures Div(x, d) > 0
  {
  }

  lemma Shrinks(x: nat, d: nat)
    requires x > 0 && d > 1
    ensures Div(x, d) < x
  {
    hide Mul, Div, Mod;
    Divided(x, d);
    Monotone(Div(x, d), 2, d);
    Doubled(Div(x, d), 1);
    Doubled(d, Div(x, d));
  }

  lemma RestHalves(addr: nat, s: nat, chips: nat)
    requires s > 0 && chips > 0
    ensures Rest(addr, s, chips) == 2 * Rest(addr / 2, s - 1, chips) + addr % 2
    ensures ChipOf(addr, s, chips) == ChipOf(addr / 2, s - 1, chips)
  {
    hide Mul, Div, Mod;
    DivideTwice(addr, Pow2(s - 1));
    Doubled(Pow2(s - 1), Div(Div(addr, Pow2(s)), chips));
  }

  lemma RestAtZero(addr: nat, chips: nat)
    requires chips > 0
    ensures Rest(addr, 0, chips) == Div(addr, chips) && ChipOf(addr, 0, chips) == Mod(addr, chips)
  {
    hide Mul, Div, Mod;
    DivideByOne(addr);
    Doubled(Div(addr, chips), 1);
  }

  // ----- Masks with the chip bits inserted

  /** A mask with room for `k` chip bits at `s`, in 64 bits. */
  function Inserted(mask: nat, s: nat, k: nat): nat {
    Mod(Mul(Mul(Pow2(s), Div(mask, Pow2(s))), Pow2(k)), Pow2(64)) + Mod(mask, Pow2(s))
  }

  /** The same, with no bits lost at the top. */
  ghost function Spread(mask: nat, s: nat, k: nat): nat {
    if s == 0 then Mul(mask, Pow2(k)) else 2 * Spread(mask / 2, s - 1, k) + mask % 2
  }

  function ChipBits(s: nat, k: nat): nat {
    Mul(Pow2(s), Pow2(k) - 1)
  }

  lemma {:induction false} SpreadForm(mask: nat, s: nat, k: nat)
    ensures Spread(mask, s, k) == Mul(Mul(Pow2(s), Div(mask, Pow2(s))), Pow2(k)) + Mod(mask, Pow2(s))
  {
    hide Mul, Div, Mod;
    if s == 0 {
      DivideByOne(mask);
      Doubled(mask, 1);
    } else {
      var p := Pow2(s - 1);
      SpreadForm(mask / 2, s - 1, k);
      DivideTwice(mask, p);
      Doubled(p, Div(mask / 2, p));
      Doubled(Mul(p, Div(mask / 2, p)), Pow2(k));
    }
  }

  lemma {:induction false} PackShift(mask: nat, k: nat, addr: nat, n: nat)
    requires addr < Pow2(n) && k <= n
    ensures Packed(Mul(mask, Pow2(k)), addr, n) == Packed(mask, Div(addr, Pow2(k)), n)
  {
    hide Mul, Div, Mod;
    if k == 0 {
      DivideByOne(addr);
      Doubled(mask, 1);
    } else {
      var p := Pow2(k - 1);
      PackShift(mask, k - 1, addr / 2, n - 1);
      Doubled(mask, p);
      DivideTwice(addr, p);
      Smaller(addr / 2, p);
      PackedSmall(mask, Div(addr, Pow2(k)), n - 1, n);
    }
  }

  lemma {:induction false} PackSpread(mask: nat, s: nat, k: nat, addr: nat, n: nat)
    requires addr < Pow2(n) && s + k <= n
    ensures Packed(Spread(mask, s, k), addr, n) == Packed(mask, Rest(addr, s, Pow2(k)), n)
  {
    hide Mul, Rest, Packed;
    if s == 0 {
      PackShift(mask, k, addr, n);
      RestAtZero(addr, Pow2(k));
    } else {
      PackSpread(mask / 2, s - 1, k, addr / 2, n - 1);
      RestHalves(addr, s, Pow2(k));
      PackedStep(Spread(mask / 2, s - 1, k), mask % 2, addr / 2, addr % 2, n);
      PackedStep(mask / 2, mask % 2, Rest(addr / 2, s - 1, Pow2(k)), addr % 2, n);
    }
  }

  /** A field's mask with the chip bits inserted selects from the address what the mask selected from the rest. */
  lemma PackInserted(mask: nat, s: nat, k: nat, addr: nat)
    requires addr < Pow2(64) && s + k <= 64
    ensures Packed(Inserted(mask, s, k), addr, 64) == Packed(mask, Rest(addr, s, Pow2(k)), 64)
  {
    hide Pow2, Packed, Rest, Mul, Div, Mod, Spread;
    SpreadForm(mask, s, k);
    ModAdd(Mul(Mul(Pow2(s), Div(mask, Pow2(s))), Pow2(k)), Mod(mask, Pow2(s)), Pow2(64));
    PackedMod(Inserted(mask, s, k), addr, 64);
    PackedMod(Spread(mask, s, k), addr, 64);
    PackSpread(mask, s, k, addr, 64);
  }

  lemma {:induction false} PackNone(addr: nat, n: nat)
    ensures Packed(0, addr, n) == 0
  {
    if n > 0 {
      PackNone(addr / 2, n - 1);
    }
  }

  lemma {:induction false} PackAll(addr: nat, n: nat)
    requires addr < Pow2(n)
    ensures Packed(Pow2(n) - 1, addr, n) == addr
  {
    hide Packed;
    if n == 0 {
      PackedNothing(Pow2(n) - 1, addr);
    } else {
      PackAll(addr / 2, n - 1);
      PackedStep(Pow2(n - 1) - 1, 1, addr / 2, addr % 2, n);
    }
  }

  lemma ChipBitsHalve(s: nat, k: nat)
    ensures s > 0 ==> ChipBits(s, k) == 2 * ChipBits(s - 1, k)
    ensures s == 0 && k > 0 ==> ChipBits(0, k) == 2 * ChipBits(0, k - 1) + 1
    ensures ChipBits(0, 0) == 0
  {
    hide Mul;
    if s > 0 {
      Doubled(Pow2(s - 1), Pow2(k) - 1);
    } else if k > 0 {
      Doubled(Pow2(k) - 1, 1);
      Doubled(Pow2(k - 1) - 1, 1);
    }
    Doubled(1, 0);
  }

  lemma {:induction false} ChipBitsBound(s: nat, k: nat, n: nat)
    requires s + k <= n
    ensures ChipBits(s, k) < Pow2(n)
    decreases n
  {
    ChipBitsHalve(s, k);
    hide ChipBits;
    if s > 0 {
      ChipBitsBound(s - 1, k, n - 1);
    } else if k > 0 {
      ChipBitsBound(0, k - 1, n - 1);
    }
  }

  /** The inserted chip bits select the chip. */
  lemma {:induction false} PackChip(s: nat, k: nat, addr: nat, n: nat)
    requires s + k <= n
    ensures Packed(ChipBits(s, k), addr, n) == ChipOf(addr, s, Pow2(k))
    decreases n
  {
    hide ChipBits, ChipOf, Mod, Div;
    ChipBitsHalve(s, k);
    if s > 0 {
      PackChip(s - 1, k, addr / 2, n - 1);
      RestHalves(addr, s, Pow2(k));
    } else {
      RestAtZero(addr, Pow2(k));
      if k > 0 {
        PackChip(0, k - 1, addr / 2, n - 1);
        RestAtZero(addr / 2, Pow2(k - 1));
        DivideTwice(addr, Pow2(k - 1));
      } else {
        PackNone(addr, n);
        DivideByOne(addr);
      }
    }
  }

  /** Packing by a complement takes one bit off. */
  lemma PackNotStep(x: nat, bit: nat, addr: nat, n: nat)
    requires n > 0 && bit < 2 && x < Pow2(n - 1)
    ensures 2 * x + bit < Pow2(n)
    ensures Packed(Not(2 * x + bit, n), addr, n) ==
            if bit == 0 then addr % 2 + 2 * Packed(Not(x, n - 1), addr / 2, n - 1)
            else Packed(Not(x, n - 1), addr / 2, n - 1)
  {
    hide Packed;
    assert Not(2 * x + bit, n) == 2 * Not(x, n - 1) + (1 - bit);
    PackedStep(Not(x, n - 1), 1 - bit, addr / 2, addr % 2, n);
  }

  lemma NotZero(n: nat)
    ensures Not(0, n) == Pow2(n) - 1
  {
  }

  /** The complement of the inserted chip bits selects the rest of the address. */
  lemma {:induction false} PackRest(s: nat, k: nat, addr: nat, n: nat)
    requires addr < Pow2(n) && s + k <= n && ChipBits(s, k) < Pow2(n)
    ensures Packed(Not(ChipBits(s, k), n), addr, n) == Rest(addr, s, Pow2(k))
    decreases n
  {
    hide ChipBits, Rest, Mod, Div, Packed, Not;
    ChipBitsHalve(s, k);
    if s > 0 {
      ChipBitsBound(s - 1, k, n - 1);
      PackRest(s - 1, k, addr / 2, n - 1);
      PackNotStep(ChipBits(s - 1, k), 0, addr, n);
      RestHalves(addr, s, Pow2(k));
    } else {
      RestAtZero(addr, Pow2(k));
      if k > 0 {
        ChipBitsBound(0, k - 1, n - 1);
        PackRest(0, k - 1, addr / 2, n - 1);
        PackNotStep(ChipBits(0, k - 1), 1, addr, n);
        RestAtZero(addr / 2, Pow2(k - 1));
        DivideTwice(addr, Pow2(k - 1));
      } else {
        NotZero(n);
        PackAll(addr, n);
        DivideByOne(addr);
      }
    }
  }

  // ----- The translation

  /** The masks chosen by the options, and the bit the chip selection starts at or -1 for an explicit chip mask. */
  datatype Config = Config(chipStart: int, chip: nat, bk: nat, row: nat, col: nat, burst: nat)

  /** A decoded address; the fields are 32-bit. */
  datatype Raw = Raw(chip: nat, bk: nat, row: nat, col: nat, burst: nat)

  datatype Field = Field(mask: nat, high: nat, low: nat)

  function Log2(n: nat): (k: nat)
    requires n > 0
    ensures Pow2(k) <= n < 2 * Pow2(k)
  {
    if n == 1 then 0 else 1 + Log2(n / 2)
  }

  /** How many chips there are beyond a power of two. */
  function Gap(chips: nat): nat
    requires chips > 0
  {
    chips - Pow2(Log2(chips))
  }

  /** An explicit chip mask needs a power of two of chips; otherwise the chip bits are to be inserted by shifts that
      stay within their words. */
  predicate Usable(c: Config, chips: nat) {
    && 0 < chips < WORD32 && c.chipStart >= -1
    && c.chip < Pow2(64) && c.bk < Pow2(64) && c.row < Pow2(64) && c.col < Pow2(64) && c.burst < Pow2(64)
    && (c.chipStart == -1 ==> Gap(chips) == 0)
    && (c.chipStart >= 0 ==> c.chip == 0 && c.chipStart < 64 && c.chipStart + Log2(chips) <= 64)
    && (Gap(chips) != 0 ==> c.chipStart < 31)
  }

  /** What decoding means for any number of chips: divide out the chip, and select the other fields from the rest. Only
      the burst mask is left where it is when chip bits are inserted, so that field is selected from the address
      itself. */
  function Decoded(c: Config, chips: nat, addr: nat): Raw
    requires chips > 0
  {
    if c.chipStart >= 0 then
      var rest := Rest(addr, c.chipStart, chips);
      Raw(ChipOf(addr, c.chipStart, chips), Select(c.bk, rest), Select(c.row, rest), Select(c.col, rest),
          Select(c.burst, if Gap(chips) == 0 then addr else rest))
    else
      Raw(Select(c.chip, addr), Select(c.bk, addr), Select(c.row, addr), Select(c.col, addr), Select(c.burst, addr))
  }

  function Select(mask: nat, val: nat): nat {
    Packed(mask, val, 64) % WORD32
  }

  /** The address within the chip. */
  function PartitionOf(c: Config, chips: nat, addr: nat): nat
    requires Usable(c, chips)
  {
    if c.chipStart >= 0 then Rest(addr, c.chipStart, chips) else Packed(Not(c.chip, 64), addr, 64)
  }

  lemma {:induction false} ChipBitsGrow(s: nat, k: nat)
    ensures ChipBits(s, k + 1) == ChipBits(s, k) + Pow2(s + k)
    decreases s, k
  {
    ChipBitsHalve(s, k + 1);
    ChipBitsHalve(s, k);
    hide ChipBits;
    if s > 0 {
      ChipBitsGrow(s - 1, k);
    } else if k > 0 {
      ChipBitsGrow(0, k - 1);
    }
  }

  /** Sets the chip bits one by one. */
  method InsertChipBits(s: nat, k: nat) returns (mask: nat)
    ensures mask == ChipBits(s, k)
  {
    hide ChipBits, Pow2;
    ChipBitsNone(s);
    mask := 0;
    var i := s;
    while i < s + k
      invariant s <= i <= s + k && mask == ChipBits(s, i - s)
    {
      ChipBitsGrow(s, i - s);
      mask := mask + Pow2(i);
      i := i + 1;
    }
  }

  lemma ChipBitsNone(s: nat)
    ensures ChipBits(s, 0) == 0
  {
  }

  /** The masks after the chip bits were inserted. */
  ghost function MaskedFor(c: Config, chips: nat): Config
    requires Usable(c, chips)
  {
    if c.chipStart >= 0 && Gap(chips) == 0 then
      var s, k := c.chipStart, Log2(chips);
      Config(s, ChipBits(s, k), Inserted(c.bk, s, k), Inserted(c.row, s, k), Inserted(c.col, s, k), c.burst)
    else c
  }

  /** For a power of two of chips, selecting by masks with the chip bits inserted gives what division gives. */
  lemma MasksAgreeWithDivision(c: Config, chips: nat, addr: nat)
    requires Usable(c, chips) && Gap(chips) == 0 && addr < Pow2(64)
    ensures var m := MaskedFor(c, chips);
            && m.chip < Pow2(64)
            && Decoded(c, chips, addr) == Raw(Select(m.chip, addr), Select(m.bk, addr), Select(m.row, addr),
                                              Select(m.col, addr), Select(m.burst, addr))
            && PartitionOf(c, chips, addr) == Packed(Not(m.chip, 64), addr, 64)
  {
    hide Pow2, Inserted, ChipBits, Rest, Packed, Not, ChipOf;
    if c.chipStart >= 0 {
      var s, k := c.chipStart, Log2(chips);
      PackInserted(c.bk, s, k, addr);
      PackInserted(c.row, s, k, addr);
      PackInserted(c.col, s, k, addr);
      ChipBitsBound(s, k, 64);
      PackChip(s, k, addr, 64);
      PackRest(s, k, addr, 64);
      ChipBelow(addr, s, chips);
      SmallMod(ChipOf(addr, s, chips));
    }
  }

  lemma SmallMod(x: nat)
    requires x < WORD32
    ensures x % WORD32 == x
  {
  }

  /** No address goes to a chip that does not exist. */
  lemma ChipBelow(addr: nat, s: nat, chips: nat)
    requires chips > 0
    ensures ChipOf(addr, s, chips) < chips
  {
  }

  lemma {:induction false} PackedWidth(mask: nat, val: nat, n: nat)
    ensures Packed(mask, val, n) < Pow2(BitCount(mask, n))
  {
    if n > 0 {
      PackedWidth(mask / 2, val / 2, n - 1);
    }
  }

  /** A field of at most 32 bits is not cut. */
  lemma SelectAll(mask: nat, val: nat)
    requires BitCount(mask, 64) <= 32
    ensures Select(mask, val) == Packed(mask, val, 64)
  {
    hide Packed, BitCount, Pow2;
    PackedWidth(mask, val, 64);
    Pow2Monotone(BitCount(mask, 64), 32);
    WordIsPower();
  }

  /** The chip and the address within the chip determine the linear address, for every number of chips. */
  lemma ChipAndPartitionDetermine(c: Config, chips: nat, a: nat, b: nat)
    requires Usable(c, chips) && a < Pow2(64) && b < Pow2(64) && BitCount(c.chip, 64) <= 32
    requires Decoded(c, chips, a).chip == Decoded(c, chips, b).chip
    requires PartitionOf(c, chips, a) == PartitionOf(c, chips, b)
    ensures a == b
  {
    hide Pow2, Rest, Packed, Not, ChipOf, BitCount, Select;
    if c.chipStart >= 0 {
      RestDetermines(a, b, c.chipStart, chips);
    } else {
      SelectAll(c.chip, a);
      SelectAll(c.chip, b);
      PackedDetermines(c.chip, a, b, 64);
    }
  }

  // ----- Which addresses alias

  /** Bit `i` of what the fields are selected from is selected by one of them. */
  predicate Covered(c: Config, i: nat) {
    Bit(c.bk, i) || Bit(c.row, i) || Bit(c.col, i) || (c.chipStart < 0 && Bit(c.chip, i))
  }

  /** The smallest address that has bit `i` once the chip is taken out. */
  function Lift(c: Config, chips: nat, i: nat): nat {
    if c.chipStart < 0 || i < c.chipStart then Pow2(i) else Mul(Pow2(i), chips)
  }

  /** What the fields other than the chip are selected from. */
  function Source(c: Config, chips: nat, addr: nat): nat
    requires chips > 0
  {
    if c.chipStart >= 0 then Rest(addr, c.chipStart, chips) else addr
  }

  /** The fields are not cut to 32 bits. */
  predicate Narrow(c: Config) {
    BitCount(c.chip, 64) <= 32 && BitCount(c.bk, 64) <= 32 && BitCount(c.row, 64) <= 32 && BitCount(c.col, 64) <= 32
  }

  lemma SelectSame(mask: nat, a: nat, b: nat)
    requires BitCount(mask, 64) <= 32
    ensures Select(mask, a) == Select(mask, b) <==> forall i: nat :: i < 64 && Bit(mask, i) ==> Bit(a, i) == Bit(b, i)
  {
    hide Bit, Packed, Select, BitCount;
    SelectAll(mask, a);
    SelectAll(mask, b);
    PackedBits(mask, a, b, 64);
  }

  ghost predicate SameCovered(c: Config, a: nat, b: nat) {
    forall i: nat :: i < 64 && Covered(c, i) ==> Bit(a, i) == Bit(b, i)
  }

  /** The same chip, bank, row and column. */
  predicate SamePlace(a: Raw, b: Raw) {
    a.chip == b.chip && a.bk == b.bk && a.row == b.row && a.col == b.col
  }

  /** `x` is the field that `mask` selects from `src`, cut to 32 bits: the bits selected are moved down next to each
      other in their order, and there are no others. */
  ghost predicate FieldOf(x: nat, mask: nat, src: nat) {
    && (forall i: nat :: i < 64 && Bit(mask, i) && BitCount(mask, i) < 32 ==> Bit(x, BitCount(mask, i)) == Bit(src, i))
    && (forall k: nat :: k >= 32 || k >= BitCount(mask, 64) ==> !Bit(x, k))
  }

  lemma SelectIsField(mask: nat, src: nat)
    ensures FieldOf(Select(mask, src), mask, src)
  {
    hide Bit, Packed, BitCount, Select, Pow2;
    var p := Packed(mask, src, 64);
    forall k: nat ensures Bit(Select(mask, src), k) <==> k < 32 && Bit(p, k) {
      SelectIsCut(mask, src);
      CutBits(p, 32, k);
    }
    forall i: nat | i < 64 && Bit(mask, i) ensures Bit(p, BitCount(mask, i)) == Bit(src, i) {
      PackedAt(mask, src, 64, i);
    }
    forall k: nat | k >= BitCount(mask, 64) ensures !Bit(p, k) {
      PackedAbove(mask, src, 64, k);
    }
  }

  lemma SelectIsCut(mask: nat, src: nat)
    ensures Select(mask, src) == Mod(Packed(mask, src, 64), Pow2(32))
  {
    hide Packed, Pow2;
    WordIsPower();
  }

  /** Each field comes from its own mask, for every number of chips: bank, row and column from the address with the chip
      divided out, and the chip is the remainder; with an explicit chip mask all come from the address itself. */
  lemma FieldsDecoded(c: Config, chips: nat, addr: nat)
    requires chips > 0
    ensures var r := Decoded(c, chips, addr);
      if c.chipStart >= 0 then
        var rest := Rest(addr, c.chipStart, chips);
        && r.chip == Mod(Div(addr, Pow2(c.chipStart)), chips)
        && FieldOf(r.bk, c.bk, rest) && FieldOf(r.row, c.row, rest) && FieldOf(r.col, c.col, rest)
        && FieldOf(r.burst, c.burst, if Gap(chips) == 0 then addr else rest)
      else
        && FieldOf(r.chip, c.chip, addr) && FieldOf(r.bk, c.bk, addr) && FieldOf(r.row, c.row, addr)
        && FieldOf(r.col, c.col, addr) && FieldOf(r.burst, c.burst, addr)
  {
    hide FieldOf, Select, Rest, Mod, Div, Pow2, Gap;
    var from := if c.chipStart >= 0 then Rest(addr, c.chipStart, chips) else addr;
    SelectIsField(c.chip, addr);
    SelectIsField(c.bk, from);
    SelectIsField(c.row, from);
    SelectIsField(c.col, from);
    SelectIsField(c.burst, addr);
    SelectIsField(c.burst, from);
  }

  /** Two addresses get the same bank, row or column exactly if they agree on the bits of the field's own mask. */
  lemma FieldsSame(c: Config, chips: nat, a: nat, b: nat)
    requires chips > 0 && Narrow(c)
    ensures var r, t := Decoded(c, chips, a), Decoded(c, chips, b);
      var x, y := if c.chipStart >= 0 then Rest(a, c.chipStart, chips) else a,
                  if c.chipStart >= 0 then Rest(b, c.chipStart, chips) else b;
      && (r.bk == t.bk <==> forall i: nat :: i < 64 && Bit(c.bk, i) ==> Bit(x, i) == Bit(y, i))
      && (r.row == t.row <==> forall i: nat :: i < 64 && Bit(c.row, i) ==> Bit(x, i) == Bit(y, i))
      && (r.col == t.col <==> forall i: nat :: i < 64 && Bit(c.col, i) ==> Bit(x, i) == Bit(y, i))
  {
    hide Bit, Packed, Select, BitCount, Rest, ChipOf;
    var x, y := Source(c, chips, a), Source(c, chips, b);
    SelectSame(c.bk, x, y);
    SelectSame(c.row, x, y);
    SelectSame(c.col, x, y);
  }

  /** What the address within the chip is: the chip divided out of the part from its first bit on, or the bits that an
      explicit chip mask does not select, moved together. */
  lemma PartitionMeans(c: Config, chips: nat, addr: nat)
    requires Usable(c, chips) && addr < Pow2(64)
    ensures var p := PartitionOf(c, chips, addr);
      if c.chipStart >= 0 then
        && Div(p, Pow2(c.chipStart)) == Div(Div(addr, Pow2(c.chipStart)), chips)
        && Mod(p, Pow2(c.chipStart)) == Mod(addr, Pow2(c.chipStart))
      else
        var others := Not(c.chip, 64);
        && (forall i: nat :: i < 64 && Bit(others, i) ==> Bit(p, BitCount(others, i)) == Bit(addr, i))
        && (forall k: nat :: k >= BitCount(others, 64) ==> !Bit(p, k))
  {
    hide Pow2, Mul, Div, Mod, Bit, Packed, BitCount, Rest, Not;
    if c.chipStart >= 0 {
      RestParts(addr, c.chipStart, chips);
    } else {
      var others := Not(c.chip, 64);
      forall i: nat | i < 64 && Bit(others, i)
        ensures Bit(Packed(others, addr, 64), BitCount(others, i)) == Bit(addr, i)
      {
        PackedAt(others, addr, 64, i);
      }
      forall k: nat | k >= BitCount(others, 64) ensures !Bit(Packed(others, addr, 64), k) {
        PackedAbove(others, addr, 64, k);
      }
    }
  }

  /** Two addresses decode alike exactly when they go to one chip and agree on the covered bits. */
  lemma DecodedSame(c: Config, chips: nat, a: nat, b: nat)
    requires chips > 0 && Narrow(c)
    ensures SamePlace(Decoded(c, chips, a), Decoded(c, chips, b)) <==>
            && SameCovered(c, Source(c, chips, a), Source(c, chips, b))
            && (c.chipStart >= 0 ==> ChipOf(a, c.chipStart, chips) == ChipOf(b, c.chipStart, chips))
  {
    hide Bit, Packed, Select, BitCount, Rest, ChipOf;
    var x, y := Source(c, chips, a), Source(c, chips, b);
    SelectSame(c.bk, x, y);
    SelectSame(c.row, x, y);
    SelectSame(c.col, x, y);
    SelectSame(c.chip, a, b);
  }

  lemma RestBelow(addr: nat, s: nat, chips: nat)
    requires chips > 0
    ensures Rest(addr, s, chips) <= addr
  {
    hide Pow2, Mul, Div, Mod;
    Divided(addr, Pow2(s));
    Smaller(Div(addr, Pow2(s)), chips);
    Monotone(Pow2(s), Div(Div(addr, Pow2(s)), chips), Div(addr, Pow2(s)));
  }

  /** An address whose rest has bit `i` is no smaller than the smallest such. */
  lemma LiftIsLeast(c: Config, chips: nat, addr: nat, i: nat)
    requires chips > 0 && Bit(Source(c, chips, addr), i)
    ensures Lift(c, chips, i) <= addr
  {
    hide Pow2, Mul, Div, Mod, Bit, Rest;
    var x := Source(c, chips, addr);
    BitIsLarge(x, i);
    if c.chipStart >= 0 {
      RestBelow(addr, c.chipStart, chips);
      if i >= c.chipStart {
        RestIsLarge(addr, c.chipStart, chips, i);
      }
    }
  }

  lemma RestIsLarge(addr: nat, s: nat, chips: nat, i: nat)
    requires chips > 0 && s <= i && Rest(addr, s, chips) >= Pow2(i)
    ensures Mul(Pow2(i), chips) <= addr
  {
    hide Pow2, Mul, Div, Mod;
    var p, q, high := Pow2(s), Pow2(i - s), Div(addr, Pow2(s));
    Pow2Sum(s, i - s);
    Divided(addr, p);
    AtLeastQuotient(p, q, Div(high, chips), Mod(addr, p));
    Divided(high, chips);
    Monotone(chips, q, Div(high, chips));
    Monotone(p, Mul(chips, q), high);
    Associate(p, q, chips);
  }

  lemma AtLeastQuotient(p: nat, q: nat, d: nat, r: nat)
    requires r < p && Mul(p, d) + r >= Mul(p, q)
    ensures q <= d
  {
    hide Mul;
    if d < q {
      MulNext(p, d);
      Monotone(p, d + 1, q);
    }
  }

  lemma Associate(p: nat, q: nat, n: nat)
    ensures Mul(p, Mul(n, q)) == Mul(Mul(p, q), n)
  {
  }

  /** The smallest address with bit `i` has no other, and goes to chip 0. */
  lemma LiftIsOneBit(c: Config, chips: nat, i: nat)
    requires chips > 0
    ensures Source(c, chips, Lift(c, chips, i)) == Pow2(i) && Lift(c, chips, i) > 0
    ensures c.chipStart >= 0 ==> ChipOf(Lift(c, chips, i), c.chipStart, chips) == 0
  {
    hide Pow2, Mul, Div, Mod;
    Doubled(Pow2(i), 1);
    MulPositive(Pow2(i), chips);
    if c.chipStart >= 0 {
      var s := c.chipStart;
      var p := Pow2(s);
      if i < s {
        Pow2Monotone(i + 1, s);
        PowNext(i);
        Quotient(p, 0, Pow2(i));
        Doubled(p, 1);
        Quotient(chips, 0, 0);
        Doubled(chips, 1);
      } else {
        var q := Pow2(i - s);
        Pow2Sum(s, i - s);
        Associate(p, q, chips);
        Quotient(p, Mul(chips, q), 0);
        Quotient(chips, q, 0);
      }
    }
  }

  lemma PowNext(i: nat)
    ensures Pow2(i + 1) == 2 * Pow2(i)
  {
  }

  lemma MulPositive(a: nat, b: nat)
    requires a > 0 && b > 0
    ensures Mul(a, b) > 0
  {
  }

  lemma SourceOfZero(c: Config, chips: nat)
    requires chips > 0
    ensures Source(c, chips, 0) == 0 && (c.chipStart >= 0 ==> ChipOf(0, c.chipStart, chips) == 0)
  {
  }

  ghost predicate NoAliases(c: Config, chips: nat, limit: nat)
    requires chips > 0
  {
    forall a: nat, b: nat :: a < limit && b < limit && SamePlace(Decoded(c, chips, a), Decoded(c, chips, b)) ==> a == b
  }

  /** No two addresses below a limit decode alike exactly when every bit that some address below it has is covered. */
  lemma NoAliasesIff(c: Config, chips: nat, limit: nat)
    requires chips > 0 && Narrow(c) && limit <= Pow2(64)
    ensures NoAliases(c, chips, limit) <==> forall i: nat :: i < 64 && Lift(c, chips, i) < limit ==> Covered(c, i)
  {
    hide Decoded, Covered, Lift, Narrow, Pow2;
    if NoAliases(c, chips, limit) {
      forall i: nat | i < 64 && Lift(c, chips, i) < limit ensures Covered(c, i) {
        UncoveredAliases(c, chips, i);
        LiftIsOneBit(c, chips, i);
      }
    }
    if forall i: nat :: i < 64 && Lift(c, chips, i) < limit ==> Covered(c, i) {
      forall a: nat, b: nat | a < limit && b < limit && SamePlace(Decoded(c, chips, a), Decoded(c, chips, b))
        ensures a == b
      {
        CoveredDetermines(c, chips, limit, a, b);
      }
    }
  }

  lemma UncoveredAliases(c: Config, chips: nat, i: nat)
    requires chips > 0 && Narrow(c)
    ensures !Covered(c, i) ==> SamePlace(Decoded(c, chips, Lift(c, chips, i)), Decoded(c, chips, 0))
  {
    hide Decoded, Lift, Narrow, Pow2, Source, Bit;
    LiftIsOneBit(c, chips, i);
    SourceOfZero(c, chips);
    forall j: nat ensures Bit(Pow2(i), j) == (i == j) && !Bit(0, j) {
      PowerBits(i, j);
      ZeroBits(j);
    }
    DecodedSame(c, chips, Lift(c, chips, i), 0);
  }

  lemma CoveredDetermines(c: Config, chips: nat, limit: nat, a: nat, b: nat)
    requires chips > 0 && Narrow(c) && limit <= Pow2(64) && a < limit && b < limit
    requires forall i: nat :: i < 64 && Lift(c, chips, i) < limit ==> Covered(c, i)
    requires SamePlace(Decoded(c, chips, a), Decoded(c, chips, b))
    ensures a == b
  {
    hide Decoded, Lift, Narrow, Pow2, Bit, Covered, Rest, ChipOf;
    DecodedSame(c, chips, a, b);
    var x, y := Source(c, chips, a), Source(c, chips, b);
    forall i: nat | i < 64 ensures Bit(x, i) == Bit(y, i) {
      if Bit(x, i) {
        LiftIsLeast(c, chips, a, i);
      }
      if Bit(y, i) {
        LiftIsLeast(c, chips, b, i);
      }
    }
    if c.chipStart >= 0 {
      RestBelow(a, c.chipStart, chips);
      RestBelow(b, c.chipStart, chips);
      SameBits(x, y, 64);
      RestDetermines(a, b, c.chipStart, chips);
    } else {
      SameBits(x, y, 64);
    }
  }

  // ----- The burst field

  lemma BitStep(x: nat, low: nat, i: nat)
    requires low < 2
    ensures Bit(2 * x + low, i) == if i == 0 then low == 1 else Bit(x, i - 1)
  {
    assert (2 * x + low) / 2 == x;
  }

  lemma {:induction false} RestLowBits(addr: nat, s: nat, chips: nat, i: nat)
    requires chips > 0 && i < s
    ensures Bit(Rest(addr, s, chips), i) == Bit(addr, i)
    decreases s
  {
    hide Rest, Bit;
    RestHalves(addr, s, chips);
    BitStep(Rest(addr / 2, s - 1, chips), addr % 2, i);
    BitStep(addr / 2, addr % 2, i);
    if i > 0 {
      RestLowBits(addr / 2, s - 1, chips, i - 1);
    }
  }

  /** The burst field is what division would give, for every address, exactly when its mask has no bits that the
      inserted chip bits should have moved. */
  lemma BurstAgreesIff(mask: nat, s: nat, chips: nat)
    requires chips > 1 && s < 64 && BitCount(mask, 64) <= 32
    ensures (forall addr: nat :: addr < Pow2(64) ==> Select(mask, addr) == Select(mask, Rest(addr, s, chips))) <==>
            forall i: nat :: s <= i < 64 ==> !Bit(mask, i)
  {
    hide Bit, Select, BitCount, Rest, Pow2;
    if forall i: nat :: s <= i < 64 ==> !Bit(mask, i) {
      forall addr: nat | addr < Pow2(64) ensures Select(mask, addr) == Select(mask, Rest(addr, s, chips)) {
        forall i: nat | i < 64 && Bit(mask, i) ensures Bit(addr, i) == Bit(Rest(addr, s, chips), i) {
          RestLowBits(addr, s, chips, i);
        }
        SelectSame(mask, addr, Rest(addr, s, chips));
      }
    } else {
      var i: nat :| s <= i < 64 && Bit(mask, i);
      BurstDiffers(mask, s, chips, i);
    }
  }

  lemma BurstDiffers(mask: nat, s: nat, chips: nat, i: nat)
    requires chips > 1 && s <= i < 64 && BitCount(mask, 64) <= 32 && Bit(mask, i)
    ensures Pow2(i) < Pow2(64) && Select(mask, Pow2(i)) != Select(mask, Rest(Pow2(i), s, chips))
  {
    hide Select, BitCount, Rest, Bit;
    var addr := Pow2(i);
    Pow2Monotone(i + 1, 64);
    Pow2Monotone(s, i);
    PowerBits(i, i);
    RestDiffers(addr, s, chips);
    RestBelow(addr, s, chips);
    if Bit(Rest(addr, s, chips), i) {
      BitIsLarge(Rest(addr, s, chips), i);
    }
    SelectSame(mask, addr, Rest(addr, s, chips));
  }

  ghost predicate Limited(f: Field) {
    Limits(f.mask, f.high, f.low)
  }

  method WithLimits(mask: nat) returns (f: Field)
    ensures f.mask == mask && Limited(f)
  {
    var high, low := GetMaskLimit(mask);
    f := Field(mask, high, low);
  }

  method PackField(f: Field, val: nat) returns (x: nat)
    requires Limited(f)
    ensures x == Select(f.mask, val)
  {
    hide Packed, Shr;
    x := PackBits(f.mask, val, f.high, f.low);
    LimitsPackAll(f.mask, val, f.high, f.low);
    x := x % WORD32;
  }

  class Translation {
    ghost var config: Config
    var chipStart: int
    var chip: Field
    var bk: Field
    var row: Field
    var col: Field
    var burst: Field
    var gap: nat
    var chips: nat

    ghost predicate Valid()
      reads this
    {
      && Usable(config, chips) && gap == Gap(chips) && chipStart == config.chipStart
      && Config(chipStart, chip.mask, bk.mask, row.mask, col.mask, burst.mask) == MaskedFor(config, chips)
      && Limited(chip) && Limited(bk) && Limited(row) && Limited(col) && Limited(burst)
    }

    /** Inserts the chip bits into the masks when the number of chips is a power of two. */
    constructor (c: Config, nchips: nat)
      requires Usable(c, nchips)
      ensures Valid() && config == c && chips == nchips
    {
      hide Pow2, Inserted, ChipBits, Limits;
      var bits := Log2(nchips);
      var m := c;
      if c.chipStart >= 0 && Gap(nchips) == 0 {
        var s := c.chipStart;
        var chipMask := InsertChipBits(s, bits);
        m := Config(s, chipMask, Inserted(c.bk, s, bits), Inserted(c.row, s, bits), Inserted(c.col, s, bits), c.burst);
      }
      config, chips, gap, chipStart := c, nchips, Gap(nchips), c.chipStart;
      new;
      chip := WithLimits(m.chip);
      bk := WithLimits(m.bk);
      row := WithLimits(m.row);
      col := WithLimits(m.col);
      burst := WithLimits(m.burst);
    }

    /** Decodes an address, by masks or by division. */
    method Decode(addr: nat) returns (r: Raw)
      requires Valid() && addr < Pow2(64)
      ensures r == Decoded(config, chips, addr)
    {
      hide Pow2, Packed, Inserted, ChipBits, Limits, Rest, ChipOf, Select, Not;
      var from := addr;
      var c;
      if gap == 0 {
        c := PackField(chip, addr);
        MasksAgreeWithDivision(config, chips, addr);
      } else {
        c := ChipOf(addr, chipStart, chips);
        from := Rest(addr, chipStart, chips);
      }
      var b := PackField(bk, from);
      var w := PackField(row, from);
      var l := PackField(col, from);
      var u := PackField(burst, from);
      r := Raw(c, b, w, l, u);
    }

    method PartitionAddress(addr: nat) returns (p: nat)
      requires Valid() && addr < Pow2(64)
      ensures p == PartitionOf(config, chips, addr)
    {
      hide Pow2, Packed, Inserted, ChipBits, Limits, Rest, ChipOf, Select;
      if gap == 0 {
        MasksAgreeWithDivision(config, chips, addr);
        p := PackBits(Not(chip.mask, 64), addr, 64, 0);
        assert Shr(Not(chip.mask, 64), 0) == Not(chip.mask, 64) && Shr(addr, 0) == addr;
      } else {
        p := Rest(addr, chipStart, chips);
      }
    }
  }
}
