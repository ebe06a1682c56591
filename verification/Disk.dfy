/** Disk arithmetic: block counts to bytes, and several filesystems to one total. */
module Disk {

  const U64: nat := 0x1_0000_0000_0000_0000

  /** The block counts of one statfs reply. */
  datatype Sample = Sample(blocks: nat, freeBlocks: nat, availableBlocks: nat, blockSize: nat)

  datatype Usage = Usage(total: nat, used: nat, free: nat, reserved: nat, usedPercent: real)

  /** The counters are unsigned 64-bit, and so is every product and sum. */
  function Wrap(x: nat): (r: nat)
    ensures r < U64
    ensures x < U64 ==> r == x
  {
    x % U64
  }

  function Percent(used: nat, free: nat): real
  {
    if Wrap(used + free) > 0 then used as real / Wrap(used + free) as real * 100.0 else 0.0
  }

  function Excess(a: nat, b: nat): nat
  {
    if a > b then a - b else 0
  }

  function ToBytes(s: Sample): Usage
  {
    var used := Wrap(Excess(s.blocks, s.freeBlocks) * s.blockSize);
    var free := Wrap(s.availableBlocks * s.blockSize);
    Usage(Wrap(s.blocks * s.blockSize), used, free,
          Wrap(Excess(s.freeBlocks, s.availableBlocks) * s.blockSize), Percent(used, free))
  }

  /** No product of a count and the block size overflows. */
  ghost predicate InRange(s: Sample)
  {
    s.blocks * s.blockSize < U64 && s.freeBlocks * s.blockSize < U64 && s.availableBlocks * s.blockSize < U64
  }

  lemma {:induction false} SmallerProduct(a: nat, b: nat, size: nat)
    requires a <= b
    ensures a * size <= b * size
    ensures Excess(b, a) * size == b * size - a * size
  {
    assert (b - a) * size == b * size - a * size;
    assert (b - a) * size >= 0;
  }

  /** In range, used + free + reserved is the total exactly when the filesystem
      reports available <= free <= total blocks, or has no bytes at all. */
  lemma {:induction false} BytesAddUpExactlyWhenConsistent(s: Sample)
    requires InRange(s)
    ensures var u := ToBytes(s);
            u.used + u.free + u.reserved == u.total <==>
              s.availableBlocks <= s.freeBlocks <= s.blocks || s.blockSize == 0
  {
    var b, f, a, z := s.blocks, s.freeBlocks, s.availableBlocks, s.blockSize;
    if f <= b { SmallerProduct(f, b, z); } else { Grows(b, f, z); }
    if a <= f { SmallerProduct(a, f, z); } else { Grows(f, a, z); }
    assert z == 0 ==> b * z == 0 && f * z == 0 && a * z == 0;
  }

  /** A filesystem with more available than free blocks: 5 used and 6 free of 10. */
  lemma {:induction false} BytesNeedNotAddUp()
    ensures var s := Sample(10, 5, 6, 1);
            var u := ToBytes(s);
            && InRange(s) && u == Usage(10, 5, 6, 0, 500.0 / 11.0)
            && u.used + u.free + u.reserved != u.total
  {}

  lemma {:induction false} Spread3(a: nat, d: nat, size: nat)
    ensures (a + 1 + d) * size == a * size + size + d * size
  {}

  lemma {:induction false} Grows(a: nat, b: nat, size: nat)
    requires a < b
    ensures size > 0 ==> a * size < b * size
    ensures size == 0 ==> a * size == b * size == 0
    ensures Excess(a, b) * size == 0
  {
    var d: nat := b - a - 1;
    assert b * size == a * size + size + d * size by {
      assert b == a + 1 + d;
      Spread3(a, d, size);
    }
    assert d * size >= 0;
  }

  /** Used, free and reserved make up the total, and the percentage is df's. */
  ghost predicate Consistent(u: Usage)
  {
    && u.used + u.free + u.reserved == u.total
    && u.usedPercent == (if u.used + u.free > 0 then u.used as real / (u.used + u.free) as real * 100.0 else 0.0)
  }

  /** A consistent filesystem's usage, against its block counts. */
  lemma {:induction false} ConsistentBytes(s: Sample)
    requires InRange(s) && s.availableBlocks <= s.freeBlocks <= s.blocks
    ensures var u, size := ToBytes(s), s.blockSize;
            && Consistent(u)
            && u.total == s.blocks * size && u.free == s.availableBlocks * size
            && u.used == u.total - s.freeBlocks * size && u.reserved == s.freeBlocks * size - u.free
  {
    BytesAddUpExactlyWhenConsistent(s);
    SmallerProduct(s.freeBlocks, s.blocks, s.blockSize);
    SmallerProduct(s.availableBlocks, s.freeBlocks, s.blockSize);
  }

  /** Of any filesystem in range, consistent or not: used is what is not free,
      reserved what is free but not available, neither ever below nothing, and
      the percentage is the used share of used and available together. */
  lemma {:induction false} BytesOfAnyFilesystem(s: Sample)
    requires InRange(s)
    ensures var u, size := ToBytes(s), s.blockSize;
            && u.total == s.blocks * size && u.free == s.availableBlocks * size
            && u.used == Excess(s.blocks * size, s.freeBlocks * size)
            && u.reserved == Excess(s.freeBlocks * size, s.availableBlocks * size)
            && (0 < u.used + u.free < U64 ==> u.usedPercent * (u.used + u.free) as real == 100.0 * u.used as real)
            && (u.used + u.free == 0 ==> u.usedPercent == 0.0)
  {
    hide Excess, Percent, Wrap;
    ExcessScales(s.blocks, s.freeBlocks, s.blockSize);
    ExcessScales(s.freeBlocks, s.availableBlocks, s.blockSize);
    var u := ToBytes(s);
    PercentIsTheShare(u.used, u.free);
  }

  lemma {:induction false} PercentIsTheShare(used: nat, free: nat)
    ensures 0 < used + free < U64 ==> Percent(used, free) * (used + free) as real == 100.0 * used as real
    ensures used + free == 0 ==> Percent(used, free) == 0.0
  {
    if 0 < used + free < U64 {
      var u, all := used as real, (used + free) as real;
      assert u / all * all == u;
      assert u / all * 100.0 * all == u / all * all * 100.0;
    }
  }

  lemma {:induction false} ExcessScales(a: nat, b: nat, size: nat)
    ensures Excess(a, b) * size == Excess(a * size, b * size) <= a * size
  {
    if b <= a { SmallerProduct(b, a, size); } else { Grows(a, b, size); }
  }

  // ---------------------------------------------------------------------
  // The server total
  // ---------------------------------------------------------------------

  function SumTotal(us: seq<Usage>): nat { if us == [] then 0 else SumTotal(us[..|us| - 1]) + us[|us| - 1].total }
  function SumUsed(us: seq<Usage>): nat { if us == [] then 0 else SumUsed(us[..|us| - 1]) + us[|us| - 1].used }
  function SumFree(us: seq<Usage>): nat { if us == [] then 0 else SumFree(us[..|us| - 1]) + us[|us| - 1].free }
  function SumReserved(us: seq<Usage>): nat { if us == [] then 0 else SumReserved(us[..|us| - 1]) + us[|us| - 1].reserved }

  /** The sums of all filesystems; the percentage comes from the sums. */
  function TotalOf(us: seq<Usage>): Usage
  {
    Usage(Wrap(SumTotal(us)), Wrap(SumUsed(us)), Wrap(SumFree(us)), Wrap(SumReserved(us)),
          Percent(Wrap(SumUsed(us)), Wrap(SumFree(us))))
  }

  /** Adds up several filesystems in one pass. */
  method Total(us: seq<Usage>) returns (t: Usage)
    ensures t == TotalOf(us)
  {
    var total: nat, used: nat, free: nat, reserved: nat := 0, 0, 0, 0;
    for i := 0 to |us|
      invariant total == Wrap(SumTotal(us[..i])) && used == Wrap(SumUsed(us[..i]))
      invariant free == Wrap(SumFree(us[..i])) && reserved == Wrap(SumReserved(us[..i]))
    {
      assert us[..i + 1][..i] == us[..i];
      WrapAdds(SumTotal(us[..i]), us[i].total);
      WrapAdds(SumUsed(us[..i]), us[i].used);
      WrapAdds(SumFree(us[..i]), us[i].free);
      WrapAdds(SumReserved(us[..i]), us[i].reserved);
      total := Wrap(total + us[i].total);
      used := Wrap(used + us[i].used);
      free := Wrap(free + us[i].free);
      reserved := Wrap(reserved + us[i].reserved);
    }
    assert us[..|us|] == us;
    t := Usage(total, used, free, reserved, Percent(used, free));
  }

  lemma {:induction false} Shift(x: nat, q: nat)
    ensures (x + q * U64) % U64 == x % U64
  {
    if q > 0 {
      Shift(x, q - 1);
      assert x + q * U64 == (x + (q - 1) * U64) + U64;
    }
  }

  lemma {:induction false} WrapAdds(a: nat, b: nat)
    ensures Wrap(Wrap(a) + b) == Wrap(a + b)
  {
    var q := a / U64;
    assert a == q * U64 + Wrap(a);
    Shift(Wrap(a) + b, q);
  }

  ghost predicate AllConsistent(us: seq<Usage>)
  {
    forall i :: 0 <= i < |us| ==> Consistent(us[i])
  }

  lemma {:induction false} SumsAddUp(us: seq<Usage>)
    requires AllConsistent(us)
    ensures SumUsed(us) + SumFree(us) + SumReserved(us) == SumTotal(us)
  {
    if us != [] {
      SumsAddUp(us[..|us| - 1]);
    }
  }

  /** The sum of consistent filesystems is consistent, as long as it fits. */
  lemma {:induction false} TotalIsConsistent(us: seq<Usage>)
    requires AllConsistent(us) && SumTotal(us) < U64
    ensures Consistent(TotalOf(us)) && TotalOf(us).total == SumTotal(us)
  {
    SumsAddUp(us);
  }

  /** Every filesystem with something to measure lies within the two bounds. */
  ghost predicate PercentsWithin(us: seq<Usage>, lo: real, hi: real)
  {
    forall i :: 0 <= i < |us| && us[i].used + us[i].free > 0 ==> lo <= us[i].usedPercent <= hi
  }

  /** The percentage bounds without the division. */
  ghost predicate Between(lo: real, hi: real, used: nat, free: nat)
  {
    lo * (used + free) as real <= used as real * 100.0 <= hi * (used + free) as real
  }

  lemma {:induction false} ShareWithin(u: Usage, lo: real, hi: real)
    requires Consistent(u) && (u.used + u.free > 0 ==> lo <= u.usedPercent <= hi)
    ensures Between(lo, hi, u.used, u.free)
  {
    var whole := (u.used + u.free) as real;
    if u.used + u.free > 0 {
      var share := u.used as real / whole;
      assert share * whole == u.used as real;
      assert u.used as real * 100.0 == u.usedPercent * whole;
    }
  }

  lemma {:induction false} BetweenAdds(lo: real, hi: real, u1: nat, f1: nat, u2: nat, f2: nat)
    requires Between(lo, hi, u1, f1) && Between(lo, hi, u2, f2)
    ensures Between(lo, hi, u1 + u2, f1 + f2)
  {
    var w1, w2 := (u1 + f1) as real, (u2 + f2) as real;
    assert (u1 + u2 + (f1 + f2)) as real == w1 + w2;
    assert lo * (w1 + w2) == lo * w1 + lo * w2;
    assert hi * (w1 + w2) == hi * w1 + hi * w2;
  }

  lemma {:induction false} SumsWithin(us: seq<Usage>, lo: real, hi: real)
    requires AllConsistent(us) && PercentsWithin(us, lo, hi)
    ensures Between(lo, hi, SumUsed(us), SumFree(us))
  {
    if us != [] {
      hide Between, Consistent;
      var n := |us| - 1;
      SumsWithin(us[..n], lo, hi);
      ShareWithin(us[n], lo, hi);
      BetweenAdds(lo, hi, SumUsed(us[..n]), SumFree(us[..n]), us[n].used, us[n].free);
    }
  }

  /** The server percentage lies between the smallest and the largest percentage
      of the filesystems that have used or free space. */
  lemma {:induction false} ServerPercentIsBetween(us: seq<Usage>, lo: real, hi: real)
    requires AllConsistent(us) && SumTotal(us) < U64 && PercentsWithin(us, lo, hi)
    requires SumUsed(us) + SumFree(us) > 0
    ensures lo <= TotalOf(us).usedPercent <= hi
  {
    hide Between, Percent, Consistent, SumUsed, SumFree, SumTotal, SumReserved;
    SumsAddUp(us);
    SumsWithin(us, lo, hi);
    PercentBetween(lo, hi, SumUsed(us), SumFree(us));
  }

  lemma {:induction false} PercentBetween(lo: real, hi: real, used: nat, free: nat)
    requires 0 < used + free < U64 && Between(lo, hi, used, free)
    ensures lo <= Percent(used, free) <= hi
  {
    var u, whole := used as real, (used + free) as real;
    var share := u / whole * 100.0;
    assert u / whole * whole == u;
    assert share * whole == u * 100.0;
    Cancel(lo, share, whole);
    Cancel(share, hi, whole);
  }

  lemma {:induction false} Cancel(x: real, y: real, whole: real)
    requires whole > 0.0 && x * whole <= y * whole
    ensures x <= y
  {
    assert (y - x) * whole == y * whole - x * whole;
    assert y - x == (y - x) * whole / whole;
  }

  /** The readable ones of several filesystems. */
  function Masked(us: seq<Usage>, readable: seq<bool>): seq<Usage>
    requires |us| == |readable|
  {
    if us == [] then []
    else Masked(us[..|us| - 1], readable[..|us| - 1]) + if readable[|us| - 1] then [us[|us| - 1]] else []
  }

  lemma {:induction false} MaskedSums(us: seq<Usage>, readable: seq<bool>)
    requires |us| == |readable|
    ensures var m := Masked(us, readable);
            && SumTotal(m) <= SumTotal(us) && SumUsed(m) <= SumUsed(us)
            && SumFree(m) <= SumFree(us) && SumReserved(m) <= SumReserved(us)
  {
    if us != [] {
      var n := |us| - 1;
      MaskedSums(us[..n], readable[..n]);
      var m := Masked(us[..n], readable[..n]);
      SumsSnoc(m, us[n]);
      assert m + [] == m;
    }
  }

  lemma {:induction false} SumsSnoc(us: seq<Usage>, u: Usage)
    ensures SumTotal(us + [u]) == SumTotal(us) + u.total && SumUsed(us + [u]) == SumUsed(us) + u.used
    ensures SumFree(us + [u]) == SumFree(us) + u.free && SumReserved(us + [u]) == SumReserved(us) + u.reserved
  {
    assert (us + [u])[..|us|] == us;
  }

  /** A total with filesystems missing is component-wise at most the whole one. */
  lemma {:induction false} PartialTotalIsSmaller(us: seq<Usage>, readable: seq<bool>)
    requires |us| == |readable| && AllConsistent(us) && SumTotal(us) < U64
    ensures var part, whole := TotalOf(Masked(us, readable)), TotalOf(us);
            part.total <= whole.total && part.used <= whole.used
            && part.free <= whole.free && part.reserved <= whole.reserved
  {
    SumsAddUp(us);
    MaskedSums(us, readable);
  }
}
