/**
 * The MAA controller (src/mem/MAA/MAA.cc): the RoBaRaCoCh DRAM address
 * mapping it takes from Ramulator2, the status of a scratchpad tile as the
 * dispatcher sees it, the idle bookkeeping of its functional units while it
 * issues and retires instructions, the "only ever earlier" rescheduling of
 * its issue and dispatch events, and its address-range lookup.
 */
module MaaController {

  import opened Wrappers
  import opened MachineTypes

  // ---------------------------------------------------------------------
  // Address mapping
  // ---------------------------------------------------------------------

  /**
   * The part of the Ramulator2 DRAM organisation the mapping reads:
   * the number of levels, the transaction offset (the low address bits that
   * select a byte inside one burst) and the width in bits of each level's
   * field, indexed by level (0 is the channel, the last is the column).
   * `rowBitsIdx` is the level of the row, the last level sliced by the loop.
   */
  datatype DramAddrMap = DramAddrMap(numLevels: nat, txOffset: nat, addrBits: seq<nat>, rowBitsIdx: nat)

  /**
   * What the C++ needs for the mapping to be defined: one width per level,
   * a shift below 64, `1 << bits` that fits a 32-bit `int`, and every index
   * the row loop writes inside the level vector.
   */
  predicate WellFormed(m: DramAddrMap)
  {
    && m.numLevels == |m.addrBits| >= 1
    && m.txOffset < 64
    && (forall k :: 0 <= k < |m.addrBits| ==> m.addrBits[k] <= 30)
    && m.rowBitsIdx < m.numLevels
  }

  /** Under the well-formedness bounds every level's `1 << bits` is a positive 32-bit `int`. */
  lemma WellFormedShiftFits(m: DramAddrMap, k: nat)
    requires WellFormed(m) && k < |m.addrBits|
    ensures IsInt32(Pow2(m.addrBits[k])) && Pow2(m.addrBits[k]) >= 1
  {
    Pow2Monotone(m.addrBits[k], 30);
    assert Pow2(5) == 32 by {
      assert Pow2(1) == 2 && Pow2(2) == 4 && Pow2(3) == 8 && Pow2(4) == 16;
    }
    assert Pow2(10) == 1024 by {
      Pow2Add(5, 5);
    }
    assert Pow2(20) == 0x10_0000 by {
      Pow2Add(10, 10);
    }
    assert Pow2(30) == 0x4000_0000 by {
      Pow2Add(10, 20);
    }
  }

  lemma MulAtLeast(x: int, d: int)
    requires x >= 1 && d >= 1
    ensures x * d >= d
  {
    assert x * d == (x - 1) * d + d;
    assert (x - 1) * d >= 0;
  }

  lemma MulLeq(x: int, y: int, d: int)
    requires x <= y && d >= 0
    ensures x * d <= y * d
  {
    assert y * d - x * d == (y - x) * d;
  }

  lemma DivBounds(a: int, d: int)
    requires a >= 0 && d >= 1
    ensures 0 <= a / d <= a
  {
    var q, r := a / d, a % d;
    assert a == q * d + r;
    if q < 0 {
      MulAtLeast(-q, d);
    }
    if q >= 1 {
      MulAtLeast(d, q);
      assert d * q == q * d;
    }
  }

  /** `a >> n` */
  function Shr(a: nat, n: nat): (r: nat)
    ensures r <= a
  {
    DivBounds(a, Pow2(n));
    a / Pow2(n)
  }

  /** Bits `lo .. lo + w - 1` of `addr`, as a number. */
  function BitField(addr: nat, lo: nat, w: nat): (f: nat)
    ensures f < Pow2(w)
  {
    Shr(addr, lo) % Pow2(w)
  }

  lemma DivMod(a: int, d: int)
    requires d > 0
    ensures a == a / d * d + a % d
  {
  }

  /** Division by `d` has one quotient and one remainder. */
  lemma DivModUnique(a: int, d: int, q: int, r: int)
    requires d > 0 && 0 <= r < d && a == q * d + r
    ensures q == a / d && r == a % d
  {
    var q0, r0 := a / d, a % d;
    assert a == q0 * d + r0;
    if q > q0 {
      assert (q - q0) * d == r0 - r;
      MulAtLeast(q - q0, d);
    } else if q < q0 {
      assert (q0 - q) * d == r - r0;
      MulAtLeast(q0 - q, d);
    }
  }

  lemma DivDiv(a: int, dx: int, dy: int)
    requires a >= 0 && dx > 0 && dy > 0
    ensures a / dx / dy == a / (dx * dy)
  {
    var q1, r1 := a / dx, a % dx;
    var q2, r2 := q1 / dy, q1 % dy;
    assert a == q1 * dx + r1;
    assert q1 == q2 * dy + r2;
    assert q1 * dx == q2 * (dx * dy) + r2 * dx by {
      assert (q2 * dy + r2) * dx == q2 * dy * dx + r2 * dx;
      assert q2 * dy * dx == q2 * (dx * dy);
    }
    MulLeq(r2, dy - 1, dx);
    assert (dy - 1) * dx == dx * dy - dx;
    DivModUnique(a, dx * dy, q2, r2 * dx + r1);
  }

  /** Shifting right by `x` bits and then by `y` bits shifts by `x + y`. */
  lemma ShiftTwice(a: nat, x: nat, y: nat)
    ensures Shr(Shr(a, x), y) == Shr(a, x + y)
  {
    Pow2Add(x, y);
    DivDiv(a, Pow2(x), Pow2(y));
  }

  lemma Regroup(a: int, q: int, r: int, d: int, f: int, s: int, p: int)
    requires a == r * s + p && r == q * d + f
    ensures a == q * (s * d) + (p + f * s)
  {
    assert q * (s * d) == q * d * s;
    assert (q * d + f) * s == q * d * s + f * s;
  }

  /**
   * `slice_lower_bits`: splits `addr` into its low `bits` bits (returned)
   * and the rest (written back through the reference).
   */
  method SliceLowerBits(addr: Addr, bits: nat) returns (lbits: int, rest: Addr)
    requires bits <= 30
    ensures addr == rest * Pow2(bits) + lbits
    ensures 0 <= lbits < Pow2(bits)
  {
    lbits := addr % Pow2(bits);
    rest := Shr(addr, bits);
  }

  /** Total width of the fields `ws`. */
  function Sum(ws: seq<nat>): nat
  {
    if ws == [] then 0 else Sum(ws[..|ws| - 1]) + ws[|ws| - 1]
  }

  lemma {:induction false} SumAppend(a: seq<nat>, b: seq<nat>)
    ensures Sum(a + b) == Sum(a) + Sum(b)
    decreases |b|
  {
    if b != [] {
      var n := |b| - 1;
      assert (a + b)[..|a + b| - 1] == a + b[..n];
      assert (a + b)[|a + b| - 1] == b[n];
      SumAppend(a, b[..n]);
    } else {
      assert a + b == a;
    }
  }

  /** What is left of `a` once the fields of widths `ws` are sliced off, lowest first. */
  function Rest(a: nat, ws: seq<nat>): nat
  {
    if ws == [] then a else Shr(Rest(a, ws[..|ws| - 1]), ws[|ws| - 1])
  }

  /** The fields of widths `ws` sliced off `a`, lowest first. */
  function Fields(a: nat, ws: seq<nat>): (fs: seq<int>)
    ensures |fs| == |ws|
  {
    seq(|ws|, k requires 0 <= k < |ws| => Rest(a, ws[..k]) % Pow2(ws[k]))
  }

  /** The fields packed back together, the first one lowest. */
  function Pack(fs: seq<int>, ws: seq<nat>): int
    requires |fs| == |ws|
  {
    if ws == [] then 0
    else Pack(fs[..|fs| - 1], ws[..|ws| - 1]) + fs[|fs| - 1] * Pow2(Sum(ws[..|ws| - 1]))
  }

  /** Slicing off fields one after the other is repeated shifting. */
  lemma {:induction false} RestIsShift(a: nat, ws: seq<nat>)
    ensures Rest(a, ws) == Shr(a, Sum(ws))
    decreases |ws|
  {
    if ws != [] {
      var n := |ws| - 1;
      RestIsShift(a, ws[..n]);
      ShiftTwice(a, Sum(ws[..n]), ws[n]);
    }
  }

  /** Field `k` is the slice of `a` starting at the total width of the fields before it. */
  lemma FieldIsBitField(a: nat, ws: seq<nat>, k: nat)
    requires k < |ws|
    ensures Fields(a, ws)[k] == BitField(a, Sum(ws[..k]), ws[k])
  {
    RestIsShift(a, ws[..k]);
  }

  /** Every field fits its width. */
  lemma FieldsFit(a: nat, ws: seq<nat>)
    ensures forall k :: 0 <= k < |ws| ==> 0 <= Fields(a, ws)[k] < Pow2(ws[k])
  {
  }

  /**
   * Slicing loses nothing: the fields, packed back in order under what is
   * left, give the address again.
   */
  lemma {:induction false} SliceRoundTrip(a: nat, ws: seq<nat>)
    ensures a == Rest(a, ws) * Pow2(Sum(ws)) + Pack(Fields(a, ws), ws)
    decreases |ws|
  {
    if ws != [] {
      var n := |ws| - 1;
      var p, w := ws[..n], ws[n];
      var fs := Fields(a, ws);
      SliceRoundTrip(a, p);
      assert fs[..n] == Fields(a, p) by {
        forall k | 0 <= k < n
          ensures fs[k] == Fields(a, p)[k]
        {
          assert ws[..k] == p[..k];
        }
      }
      var q, r, d, s := Rest(a, ws), Rest(a, p), Pow2(w), Pow2(Sum(p));
      var f, pk := fs[n], Pack(Fields(a, p), p);
      assert Pack(fs, ws) == pk + f * s;
      assert f == r % d && q == r / d;
      DivMod(r, d);
      assert Sum(ws) == Sum(p) + w;
      Pow2Add(Sum(p), w);
      Regroup(a, q, r, d, f, s, pk);
      assert Pow2(Sum(ws)) == s * d;
    }
  }

  /** The levels `map_addr` writes, in the order it writes them. */
  function Positions(m: DramAddrMap): (ps: seq<nat>)
    requires WellFormed(m)
    ensures |ps| == m.rowBitsIdx + 2
    ensures forall k :: 0 <= k < |ps| ==> ps[k] < m.numLevels
  {
    [0, m.numLevels - 1] + seq(m.rowBitsIdx, k requires 0 <= k < m.rowBitsIdx => k + 1)
  }

  /** The widths of the fields `map_addr` slices, in the order it slices them. */
  function Widths(m: DramAddrMap): (ws: seq<nat>)
    requires WellFormed(m)
    ensures |ws| == m.rowBitsIdx + 2
  {
    [m.addrBits[0], m.addrBits[m.numLevels - 1]] + m.addrBits[1..m.rowBitsIdx + 1]
  }

  /** `v` after `v[ps[k]] := xs[k]` for each `k` in turn. */
  function Written(v: seq<int>, ps: seq<nat>, xs: seq<int>): (r: seq<int>)
    requires |ps| == |xs|
    requires forall k :: 0 <= k < |ps| ==> ps[k] < |v|
    ensures |r| == |v|
  {
    if ps == [] then v
    else Written(v, ps[..|ps| - 1], xs[..|xs| - 1])[ps[|ps| - 1] := xs[|xs| - 1]]
  }

  lemma {:induction false} WrittenAt(v: seq<int>, ps: seq<nat>, xs: seq<int>, k: nat)
    requires |ps| == |xs| && k < |ps|
    requires forall j :: 0 <= j < |ps| ==> ps[j] < |v|
    requires forall j :: k < j < |ps| ==> ps[j] != ps[k]
    ensures Written(v, ps, xs)[ps[k]] == xs[k]
    decreases |ps|
  {
    var n := |ps| - 1;
    if k < n {
      WrittenAt(v, ps[..n], xs[..n], k);
    }
  }

  lemma {:induction false} WrittenElsewhere(v: seq<int>, ps: seq<nat>, xs: seq<int>, i: nat)
    requires |ps| == |xs| && i < |v|
    requires forall j :: 0 <= j < |ps| ==> ps[j] < |v| && ps[j] != i
    ensures Written(v, ps, xs)[i] == v[i]
    decreases |ps|
  {
    if ps != [] {
      var n := |ps| - 1;
      WrittenElsewhere(v, ps[..n], xs[..n], i);
    }
  }

  /** The level vector `map_addr` returns. */
  function MapAddrSpec(m: DramAddrMap, addr: Addr): (vec: seq<int>)
    requires WellFormed(m)
    ensures |vec| == m.numLevels
  {
    Written(seq(m.numLevels, _ => -1), Positions(m), Fields(Shr(addr, m.txOffset), Widths(m)))
  }

  /** One slice of `map_addr`: the next field comes off what is left, and the rest moves on. */
  lemma SliceStep(a0: nat, ws: seq<nat>, k: nat, a: nat, f: int, rest: nat)
    requires k < |ws| && a == Rest(a0, ws[..k])
    requires a == rest * Pow2(ws[k]) + f && 0 <= f < Pow2(ws[k])
    ensures rest == Rest(a0, ws[..k + 1]) && f == Fields(a0, ws)[k]
  {
    DivModUnique(a, Pow2(ws[k]), rest, f);
    assert ws[..k + 1][..k] == ws[..k];
  }

  /** Writing the next field extends the writes done so far. */
  lemma WrittenStep(init: seq<int>, ps: seq<nat>, fs: seq<int>, k: nat)
    requires |ps| == |fs| && k < |ps|
    requires forall j :: 0 <= j < |ps| ==> ps[j] < |init|
    ensures Written(init, ps[..k], fs[..k])[ps[k] := fs[k]] == Written(init, ps[..k + 1], fs[..k + 1])
  {
    assert ps[..k + 1][..k] == ps[..k] && fs[..k + 1][..k] == fs[..k];
  }

  /** `map_addr`: one field per DRAM level, -1 for the levels it does not slice. */
  method MapAddr(m: DramAddrMap, addr: Addr) returns (vec: seq<int>)
    requires WellFormed(m)
    ensures vec == MapAddrSpec(m, addr)
  {
    ghost var ws, ps := Widths(m), Positions(m);
    ghost var init := seq(m.numLevels, _ => -1);
    var a: Addr := Shr(addr, m.txOffset);
    ghost var a0 := a;
    ghost var fs := Fields(a0, ws);
    vec := seq(m.numLevels, _ => -1);
    assert ws[..0] == [] && ps[..0] == [] && fs[..0] == [];
    var f, rest;
    f, rest := SliceLowerBits(a, m.addrBits[0]);
    SliceStep(a0, ws, 0, a, f, rest);
    WrittenStep(init, ps, fs, 0);
    a, vec := rest, vec[0 := f];
    f, rest := SliceLowerBits(a, m.addrBits[m.numLevels - 1]);
    SliceStep(a0, ws, 1, a, f, rest);
    WrittenStep(init, ps, fs, 1);
    a, vec := rest, vec[m.numLevels - 1 := f];
    for i := 1 to m.rowBitsIdx + 1
      invariant a == Rest(a0, ws[..i + 1])
      invariant vec == Written(init, ps[..i + 1], fs[..i + 1])
    {
      f, rest := SliceLowerBits(a, m.addrBits[i]);
      SliceStep(a0, ws, i + 1, a, f, rest);
      WrittenStep(init, ps, fs, i + 1);
      a, vec := rest, vec[i := f];
    }
    assert ps[..|ps|] == ps && fs[..|fs|] == fs;
  }

  /** No level is written twice when the column is not one of the looped levels. */
  lemma PositionsDistinct(m: DramAddrMap)
    requires WellFormed(m) && m.numLevels >= 2 && m.rowBitsIdx <= m.numLevels - 2
    ensures forall j, k :: 0 <= j < k < |Positions(m)| ==> Positions(m)[j] != Positions(m)[k]
  {
  }

  /** Field `k` of the shifted address is a bit field of the address itself. */
  lemma ShiftedField(addr: nat, tx: nat, ws: seq<nat>, k: nat)
    requires k < |ws|
    ensures Fields(Shr(addr, tx), ws)[k] == BitField(addr, tx + Sum(ws[..k]), ws[k])
  {
    var lo := Sum(ws[..k]);
    FieldIsBitField(Shr(addr, tx), ws, k);
    ShiftTwice(addr, tx, lo);
  }

  /** The `k`-th slice lands on its level and holds the bits above the slices before it. */
  lemma MapAddrSlice(m: DramAddrMap, addr: Addr, k: nat)
    requires WellFormed(m) && m.numLevels >= 2 && m.rowBitsIdx <= m.numLevels - 2
    requires k < m.rowBitsIdx + 2
    ensures MapAddrSpec(m, addr)[Positions(m)[k]]
         == BitField(addr, m.txOffset + Sum(Widths(m)[..k]), Widths(m)[k])
  {
    PositionsDistinct(m);
    WrittenAt(seq(m.numLevels, _ => -1), Positions(m), Fields(Shr(addr, m.txOffset), Widths(m)), k);
    ShiftedField(addr, m.txOffset, Widths(m), k);
  }

  /** The levels between the row and the column are never sliced. */
  lemma MapAddrUnsliced(m: DramAddrMap, addr: Addr, i: nat)
    requires WellFormed(m) && m.rowBitsIdx < i < m.numLevels - 1
    ensures MapAddrSpec(m, addr)[i] == -1
  {
    var ps := Positions(m);
    assert forall j :: 0 <= j < |ps| ==> ps[j] != i;
    WrittenElsewhere(seq(m.numLevels, _ => -1), ps, Fields(Shr(addr, m.txOffset), Widths(m)), i);
  }

  /** The width below looped level `i`: the channel, the column and levels 1 .. i - 1. */
  lemma WidthsBelow(m: DramAddrMap, i: nat)
    requires WellFormed(m) && 1 <= i <= m.rowBitsIdx
    ensures Sum(Widths(m)[..i + 1])
         == m.addrBits[0] + m.addrBits[m.numLevels - 1] + Sum(m.addrBits[1..i])
  {
    var b0, top := m.addrBits[0], m.addrBits[m.numLevels - 1];
    var low := m.addrBits[1..m.rowBitsIdx + 1];
    assert Widths(m) == [b0, top] + low;
    assert low[..i - 1] == m.addrBits[1..i];
    assert Widths(m)[..i + 1] == [b0, top] + low[..i - 1];
    SumAppend([b0, top], m.addrBits[1..i]);
    assert [b0, top][..1] == [b0] && [b0][..0] == [];
    assert Sum([b0]) == b0;
    assert Sum([b0, top]) == b0 + top;
  }

  /*
   * The RoBaRaCoCh layout, for every organisation whose column is not one of
   * the looped levels (in Ramulator2 the row sits just below the column):
   * above the transaction offset come the channel, then the column, then
   * levels 1 .. rowBitsIdx in turn, each field as wide as its level says;
   * the levels between the row and the column keep -1 (MapAddrUnsliced).
   */

  /** Level 0 holds the channel: the lowest bits above the transaction offset. */
  lemma MapAddrChannel(m: DramAddrMap, addr: Addr)
    requires WellFormed(m) && m.numLevels >= 2 && m.rowBitsIdx <= m.numLevels - 2
    ensures MapAddrSpec(m, addr)[0] == BitField(addr, m.txOffset, m.addrBits[0])
  {
    MapAddrSlice(m, addr, 0);
    assert Widths(m)[..0] == [];
  }

  /** The last level holds the column, just above the channel. */
  lemma MapAddrColumn(m: DramAddrMap, addr: Addr)
    requires WellFormed(m) && m.numLevels >= 2 && m.rowBitsIdx <= m.numLevels - 2
    ensures MapAddrSpec(m, addr)[m.numLevels - 1]
         == BitField(addr, m.txOffset + m.addrBits[0], m.addrBits[m.numLevels - 1])
  {
    MapAddrSlice(m, addr, 1);
    assert Widths(m)[..1] == [m.addrBits[0]] && [m.addrBits[0]][..0] == [];
  }

  /** Level `i` of the loop holds the bits above the channel, the column and levels 1 .. i - 1. */
  lemma MapAddrLooped(m: DramAddrMap, addr: Addr, i: nat)
    requires WellFormed(m) && m.numLevels >= 2 && m.rowBitsIdx <= m.numLevels - 2
    requires 1 <= i <= m.rowBitsIdx
    ensures MapAddrSpec(m, addr)[i]
         == BitField(addr, m.txOffset + m.addrBits[0] + m.addrBits[m.numLevels - 1] + Sum(m.addrBits[1..i]),
                     m.addrBits[i])
  {
    MapAddrSlice(m, addr, i + 1);
    WidthsBelow(m, i);
  }

  /** The address is rebuilt from the fields `map_addr` extracts. */
  lemma MapAddrRoundTrip(m: DramAddrMap, addr: Addr)
    requires WellFormed(m)
    ensures var a, ws := Shr(addr, m.txOffset), Widths(m);
      && a == Rest(a, ws) * Pow2(Sum(ws)) + Pack(Fields(a, ws), ws)
      && forall k :: 0 <= k < |ws| ==> 0 <= Fields(a, ws)[k] < Pow2(ws[k])
  {
    SliceRoundTrip(Shr(addr, m.txOffset), Widths(m));
    FieldsFit(Shr(addr, m.txOffset), Widths(m));
  }

  /** `channel_addr`: the channel field alone. */
  function ChannelAddr(m: DramAddrMap, addr: Addr): (c: int)
    requires WellFormed(m)
    ensures 0 <= c < Pow2(m.addrBits[0])
  {
    (Shr(addr, m.txOffset)) % Pow2(m.addrBits[0])
  }

  /**
   * `channel_addr` agrees with level 0 of `map_addr` whenever the second
   * slice does not land on level 0 again (more than one level).
   */
  lemma ChannelAddrAgrees(m: DramAddrMap, addr: Addr)
    requires WellFormed(m) && m.numLevels >= 2
    ensures ChannelAddr(m, addr) == MapAddrSpec(m, addr)[0]
  {
    var ps, fs := Positions(m), Fields(Shr(addr, m.txOffset), Widths(m));
    WrittenAt(seq(m.numLevels, _ => -1), ps, fs, 0);
    assert Widths(m)[..0] == [];
  }

  // ---------------------------------------------------------------------
  // Tile status as the dispatcher sees it
  // ---------------------------------------------------------------------

  /**
   * The scratchpad's own status of a tile.  Only the three values the
   * controller tells apart are named; SPD.hh is not part of this model, so
   * any other value it may hold is `SpdOther`.
   */
  datatype SpdTileStatus = SpdIdle | SpdService | SpdFinished | SpdOther(code: nat)

  /** `Instruction::TileStatus`: what an operand tile means for the instruction that names it. */
  datatype TileStatus = WaitForInvalidation | WaitForService | Service | Finished

  /** The two ways `getTileStatus` stops the simulation. */
  datatype TileStatusError =
    | PairStatusMismatch  // the two halves of an 8-byte tile have different statuses (a panic)
    | UnknownStatus       // a source tile in none of the three known statuses (a failed assertion)

  /** The scratchpad as `getTileStatus` reads it: the dirty bit and the status of every tile. */
  datatype SpdView = SpdView(dirty: seq<bool>, status: seq<SpdTileStatus>)
  {
    predicate Valid()
    {
      |dirty| == |status|
    }

    /** The tiles `getTileStatus` reads for `tile` exist: the tile, and its pair for 8-byte words. */
    predicate Holds(tile: int, wordSize: int)
    {
      0 <= tile && tile + (if wordSize == 8 then 1 else 0) < |dirty| && Valid()
    }
  }

  /** An 8-byte tile spans the tile and the next one; their statuses must agree. */
  predicate PairAgrees(spd: SpdView, tile: int, wordSize: int)
    requires spd.Holds(tile, wordSize)
  {
    wordSize == 8 ==> spd.status[tile + 1] == spd.status[tile]
  }

  /** The tile, or its pair for 8-byte words, still holds data that must be invalidated first. */
  predicate AnyDirty(spd: SpdView, tile: int, wordSize: int)
    requires spd.Holds(tile, wordSize)
  {
    spd.dirty[tile] || (wordSize == 8 && spd.dirty[tile + 1])
  }

  /**
   * `getTileStatus`: tile -1 (no operand) is Finished; otherwise a status
   * mismatch between the halves of an 8-byte tile stops the simulation,
   * a dirty tile waits for invalidation, a destination waits for service,
   * and a source follows the scratchpad: Idle waits for service, Service
   * and Finished carry over, and anything else stops the simulation.
   */
  function GetTileStatus(spd: SpdView, tile: int, isDst: bool, wordSize: int)
    : (r: Result<TileStatus, TileStatusError>)
    requires tile == -1 || spd.Holds(tile, wordSize)
    ensures tile == -1 ==> r == Ok(Finished)
    ensures tile != -1 ==>
      && (r == Err(PairStatusMismatch) <==> !PairAgrees(spd, tile, wordSize))
      && (r == Ok(WaitForInvalidation) <==> PairAgrees(spd, tile, wordSize) && AnyDirty(spd, tile, wordSize))
      && (r == Ok(WaitForService) <==>
            PairAgrees(spd, tile, wordSize) && !AnyDirty(spd, tile, wordSize)
            && (isDst || spd.status[tile] == SpdIdle))
      && (r == Ok(Service) <==>
            PairAgrees(spd, tile, wordSize) && !AnyDirty(spd, tile, wordSize)
            && !isDst && spd.status[tile] == SpdService)
      && (r == Ok(Finished) <==>
            PairAgrees(spd, tile, wordSize) && !AnyDirty(spd, tile, wordSize)
            && !isDst && spd.status[tile] == SpdFinished)
      && (r == Err(UnknownStatus) <==>
            PairAgrees(spd, tile, wordSize) && !AnyDirty(spd, tile, wordSize)
            && !isDst && spd.status[tile].SpdOther?)
  {
    if tile == -1 then Ok(Finished)
    else
      var isDirty := spd.dirty[tile] || (wordSize == 8 && spd.dirty[tile + 1]);
      if wordSize == 8 && spd.status[tile + 1] != spd.status[tile] then Err(PairStatusMismatch)
      else if isDirty then Ok(WaitForInvalidation)
      else if isDst then Ok(WaitForService)
      else match spd.status[tile]
        case SpdIdle => Ok(WaitForService)
        case SpdService => Ok(Service)
        case SpdFinished => Ok(Finished)
        case SpdOther(_) => Err(UnknownStatus)
  }

  /**
   * A destination tile never reports Service, and never stops the
   * simulation for an unknown status: it only ever waits, either for
   * invalidation or for service.
   */
  lemma DestinationOnlyWaits(spd: SpdView, tile: int, wordSize: int)
    requires spd.Holds(tile, wordSize) && PairAgrees(spd, tile, wordSize)
    ensures GetTileStatus(spd, tile, true, wordSize) in {Ok(WaitForInvalidation), Ok(WaitForService)}
  {
  }

  /**
   * The status check of an 8-byte pair comes before the dirty check: a
   * mismatched pair stops the simulation even when one half is dirty.
   */
  lemma MismatchBeforeDirty(spd: SpdView, tile: int, isDst: bool)
    requires spd.Holds(tile, 8) && spd.status[tile + 1] != spd.status[tile]
    ensures GetTileStatus(spd, tile, isDst, 8) == Err(PairStatusMismatch)
  {
  }

  // ---------------------------------------------------------------------
  // Functional units and their idle flags
  // ---------------------------------------------------------------------

  /** `FuncUnitType`: the invalidator and the four kinds of functional unit. */
  datatype FuncUnitType = Invalidator | Stream | Indirect | Alu | Range

  /** One value per kind of unit. */
  datatype PerKind<T> = PerKind(invalidator: T, stream: T, indirect: T, alu: T, range: T)
  {
    function Get(t: FuncUnitType): T
    {
      match t
      case Invalidator => invalidator
      case Stream => stream
      case Indirect => indirect
      case Alu => alu
      case Range => range
    }

    function Set(t: FuncUnitType, v: T): (p: PerKind<T>)
      ensures p.Get(t) == v
      ensures forall u :: u != t ==> p.Get(u) == Get(u)
    {
      match t
      case Invalidator => this.(invalidator := v)
      case Stream => this.(stream := v)
      case Indirect => this.(indirect := v)
      case Alu => this.(alu := v)
      case Range => this.(range := v)
    }
  }

  /**
   * Whether each unit reports `Idle`, by kind and index; the invalidator is
   * the single unit of its kind.
   */
  type UnitStates = PerKind<seq<bool>>

  /** Every unit of every kind reports `Idle`. */
  predicate AllIdle(u: UnitStates)
  {
    forall t, i :: 0 <= i < |u.Get(t)| ==> u.Get(t)[i]
  }

  /** One scan of `allFuncUnitsIdle`: true iff no unit in `idle` is busy. */
  method NoneBusy(idle: seq<bool>) returns (b: bool)
    ensures b <==> forall i :: 0 <= i < |idle| ==> idle[i]
  {
    for i := 0 to |idle|
      invariant forall j :: 0 <= j < i ==> idle[j]
    {
      if !idle[i] {
        return false;
      }
    }
    return true;
  }

  /**
   * `allFuncUnitsIdle`: checks the invalidator, then the stream, indirect,
   * ALU and range units, and answers false at the first busy one.
   */
  method AllFuncUnitsIdle(u: UnitStates) returns (idle: bool)
    ensures idle <==> AllIdle(u)
  {
    var kinds := [Invalidator, Stream, Indirect, Alu, Range];
    for k := 0 to 5
      invariant forall j, i :: 0 <= j < k && 0 <= i < |u.Get(kinds[j])| ==> u.Get(kinds[j])[i]
    {
      idle := NoneBusy(u.Get(kinds[k]));
      if !idle {
        assert !AllIdle(u) by {
          var i :| 0 <= i < |u.Get(kinds[k])| && !u.Get(kinds[k])[i];
        }
        return;
      }
    }
    idle := true;
    forall t, i | 0 <= i < |u.Get(t)|
      ensures u.Get(t)[i]
    {
      assert t == kinds[0] || t == kinds[1] || t == kinds[2] || t == kinds[3] || t == kinds[4];
    }
  }

  /** An instruction, identified by its slot in the instruction file. */
  type InstId = nat

  /**
   * One instruction handed to a unit: the unit's kind and index, and the
   * delay given to its execute event (`num_issued` at the time).
   */
  datatype Issue = Issue(inst: InstId, unit: FuncUnitType, index: nat, delay: nat)

  /** `funcUniID` as `issueInstruction` records it: -1 for the invalidator, else the unit index. */
  function FuncUniId(i: Issue): (id: int)
    ensures id == -1 <==> i.unit == Invalidator
    ensures id >= 0 ==> id == i.index
  {
    if i.unit == Invalidator then -1 else i.index
  }

  /** The instructions handed to units of kind `t`, in order. */
  function Issued(issued: seq<Issue>, t: FuncUnitType): (r: seq<InstId>)
    ensures |r| <= |issued|
    ensures forall x :: x in r ==> exists k :: 0 <= k < |issued| && issued[k].unit == t && issued[k].inst == x
  {
    if issued == [] then []
    else
      var last := issued[|issued| - 1];
      Issued(issued[..|issued| - 1], t) + (if last.unit == t then [last.inst] else [])
  }

  /** The instructions of `issued`, in order. */
  function Insts(issued: seq<Issue>): (r: seq<InstId>)
    ensures |r| == |issued|
    ensures forall k :: 0 <= k < |issued| ==> r[k] == issued[k].inst
  {
    seq(|issued|, k requires 0 <= k < |issued| => issued[k].inst)
  }

  /** Unit `i` of kind `t` received nothing in `issued`. */
  predicate Unassigned(issued: seq<Issue>, t: FuncUnitType, i: nat)
  {
    forall k :: 0 <= k < |issued| ==> !(issued[k].unit == t && issued[k].index == i)
  }

  /** No unit of the kind is idle. */
  predicate NoneIdle(flags: seq<bool>)
  {
    forall i :: 0 <= i < |flags| ==> !flags[i]
  }

  /** Nothing more can be issued to kind `t`: it has no ready instruction or no idle unit. */
  predicate Saturated(flags: PerKind<seq<bool>>, ready: PerKind<seq<InstId>>, t: FuncUnitType)
  {
    ready.Get(t) == [] || NoneIdle(flags.Get(t))
  }

  /** How many ready instructions wait, over all kinds. */
  function TotalReady(ready: PerKind<seq<InstId>>): nat
  {
    |ready.invalidator| + |ready.stream| + |ready.indirect| + |ready.alu| + |ready.range|
  }

  /** Changing the ready instructions of one kind changes the total by the difference. */
  lemma TotalReadyElsewhere(r1: PerKind<seq<InstId>>, r2: PerKind<seq<InstId>>, t: FuncUnitType)
    requires forall u :: u != t ==> r2.Get(u) == r1.Get(u)
    ensures TotalReady(r2) + |r1.Get(t)| == TotalReady(r1) + |r2.Get(t)|
  {
    assert t != Invalidator ==> r2.Get(Invalidator) == r1.Get(Invalidator);
    assert t != Stream ==> r2.Get(Stream) == r1.Get(Stream);
    assert t != Indirect ==> r2.Get(Indirect) == r1.Get(Indirect);
    assert t != Alu ==> r2.Get(Alu) == r1.Get(Alu);
    assert t != Range ==> r2.Get(Range) == r1.Get(Range);
  }

  /**
   * What `issueInstruction` keeps true, from the flags `flags0` and ready
   * instructions `ready0` it started with to the current `flags`, `ready`
   * and the instructions `issued` so far:
   *  - each kind's ready instructions went out in order, and the rest wait;
   *  - the k-th instruction issued has execute delay k;
   *  - an instruction only goes to a unit whose idle flag was set;
   *  - a flag is now set iff it was set and its unit received nothing;
   *  - no unit receives two instructions;
   *  - every unit below one that received an instruction is now busy.
   */
  ghost predicate Bookkeeping(flags0: PerKind<seq<bool>>, ready0: PerKind<seq<InstId>>, issued: seq<Issue>,
                              flags: PerKind<seq<bool>>, ready: PerKind<seq<InstId>>)
  {
    && (forall t :: ready0.Get(t) == Issued(issued, t) + ready.Get(t))
    && (forall k :: 0 <= k < |issued| ==> issued[k].delay == k)
    && (forall k :: 0 <= k < |issued| ==>
          issued[k].index < |flags0.Get(issued[k].unit)| && flags0.Get(issued[k].unit)[issued[k].index])
    && (forall t :: |flags.Get(t)| == |flags0.Get(t)|)
    && (forall t, i :: 0 <= i < |flags.Get(t)| ==>
          (flags.Get(t)[i] <==> flags0.Get(t)[i] && Unassigned(issued, t, i)))
    && (forall j, k :: 0 <= j < k < |issued| && issued[j].unit == issued[k].unit ==>
          issued[j].index != issued[k].index)
    && (forall k, i :: 0 <= k < |issued| && 0 <= i < issued[k].index && i < |flags.Get(issued[k].unit)| ==>
          !flags.Get(issued[k].unit)[i])
  }

  /**
   * The effect of one scan over the units of kind `t`, from `flags1` and
   * `ready1` with `base` issued to `flags2`, `ready2` and `issued`: the new
   * issues go, lowest index first, to units of kind `t` whose flag was set,
   * take the next ready instructions and the next delays, and clear exactly
   * those flags; the scan ends with the kind saturated; nothing of any other
   * kind changes.
   */
  ghost predicate ScanResult(t: FuncUnitType, flags1: PerKind<seq<bool>>, ready1: PerKind<seq<InstId>>, base: seq<Issue>,
                             flags2: PerKind<seq<bool>>, ready2: PerKind<seq<InstId>>, issued: seq<Issue>)
  {
    && |base| <= |issued| && issued[..|base|] == base
    && (forall u :: u != t ==> flags2.Get(u) == flags1.Get(u) && ready2.Get(u) == ready1.Get(u))
    && ready1.Get(t) == Insts(issued[|base|..]) + ready2.Get(t)
    && (forall k :: |base| <= k < |issued| ==>
          && issued[k].unit == t && issued[k].delay == k
          && issued[k].index < |flags1.Get(t)| && flags1.Get(t)[issued[k].index])
    && (forall j, k :: |base| <= j < k < |issued| ==> issued[j].index < issued[k].index)
    && |flags2.Get(t)| == |flags1.Get(t)|
    && (forall i :: 0 <= i < |flags2.Get(t)| ==>
          (flags2.Get(t)[i] <==> flags1.Get(t)[i] && Unassigned(issued[|base|..], t, i)))
    && Saturated(flags2, ready2, t)
    && (forall k, i :: |base| <= k < |issued| && 0 <= i < issued[k].index ==> !flags2.Get(t)[i])
  }

  lemma {:induction false} IssuedAppend(a: seq<Issue>, b: seq<Issue>, t: FuncUnitType)
    ensures Issued(a + b, t) == Issued(a, t) + Issued(b, t)
    decreases |b|
  {
    if b == [] {
      assert a + b == a;
    } else {
      var n := |b| - 1;
      assert (a + b)[..|a + b| - 1] == a + b[..n];
      assert (a + b)[|a + b| - 1] == b[n];
      IssuedAppend(a, b[..n], t);
    }
  }

  /** Issues all of kind `t` hand out their instructions to `t` and nothing to any other kind. */
  lemma {:induction false} IssuedOneKind(s: seq<Issue>, t: FuncUnitType, u: FuncUnitType)
    requires forall k :: 0 <= k < |s| ==> s[k].unit == t
    ensures Issued(s, u) == if u == t then Insts(s) else []
    decreases |s|
  {
    if s != [] {
      var n := |s| - 1;
      IssuedOneKind(s[..n], t, u);
      assert Insts(s) == Insts(s[..n]) + [s[n].inst];
    }
  }

  lemma UnassignedAppend(a: seq<Issue>, b: seq<Issue>, t: FuncUnitType, i: nat)
    ensures Unassigned(a + b, t, i) <==> Unassigned(a, t, i) && Unassigned(b, t, i)
  {
    if Unassigned(a, t, i) && Unassigned(b, t, i) {
      forall k | 0 <= k < |a + b|
        ensures !((a + b)[k].unit == t && (a + b)[k].index == i)
      {
        if k >= |a| {
          assert (a + b)[k] == b[k - |a|];
        }
      }
    }
    if Unassigned(a + b, t, i) {
      forall k | 0 <= k < |a|
        ensures !(a[k].unit == t && a[k].index == i)
      {
        assert (a + b)[k] == a[k];
      }
      forall k | 0 <= k < |b|
        ensures !(b[k].unit == t && b[k].index == i)
      {
        assert (a + b)[|a| + k] == b[k];
      }
    }
  }

  lemma ConcatRegroup(r0: seq<InstId>, a: seq<InstId>, b: seq<InstId>, r1: seq<InstId>, r2: seq<InstId>)
    requires r0 == a + r1 && r1 == b + r2
    ensures r0 == (a + b) + r2
  {
  }

  lemma ReadyOfKind(r0: seq<InstId>, base: seq<Issue>, r1: seq<InstId>, t: FuncUnitType, r2: seq<InstId>,
                    added: seq<Issue>, u: FuncUnitType)
    requires r0 == Issued(base, u) + r1
    requires r1 == (if u == t then Insts(added) else []) + r2
    requires forall k :: 0 <= k < |added| ==> added[k].unit == t
    ensures r0 == Issued(base + added, u) + r2
  {
    IssuedAppend(base, added, u);
    IssuedOneKind(added, t, u);
    ConcatRegroup(r0, Issued(base, u), Issued(added, u), r1, r2);
  }

  /** A scan keeps the ready instructions accounted for, and the total falls by what it issued. */
  lemma ScanKeepsReady(ready0: PerKind<seq<InstId>>, base: seq<Issue>, ready1: PerKind<seq<InstId>>,
                       t: FuncUnitType, ready2: PerKind<seq<InstId>>, added: seq<Issue>)
    requires forall u :: ready0.Get(u) == Issued(base, u) + ready1.Get(u)
    requires forall u :: u != t ==> ready2.Get(u) == ready1.Get(u)
    requires ready1.Get(t) == Insts(added) + ready2.Get(t)
    requires forall k :: 0 <= k < |added| ==> added[k].unit == t
    ensures forall u :: ready0.Get(u) == Issued(base + added, u) + ready2.Get(u)
    ensures TotalReady(ready2) + |added| == TotalReady(ready1)
  {
    forall u
      ensures ready0.Get(u) == Issued(base + added, u) + ready2.Get(u)
    {
      assert u != t ==> ready1.Get(u) == [] + ready2.Get(u);
      ReadyOfKind(ready0.Get(u), base, ready1.Get(u), t, ready2.Get(u), added, u);
    }
    TotalReadyElsewhere(ready1, ready2, t);
  }

  /** A scan keeps every issue going to a distinct, previously idle unit with its own delay. */
  lemma ScanKeepsIssues(flags0: PerKind<seq<bool>>, ready0: PerKind<seq<InstId>>, base: seq<Issue>,
                        flags1: PerKind<seq<bool>>, ready1: PerKind<seq<InstId>>, t: FuncUnitType,
                        flags2: PerKind<seq<bool>>, ready2: PerKind<seq<InstId>>, issued: seq<Issue>)
    requires Bookkeeping(flags0, ready0, base, flags1, ready1)
    requires ScanResult(t, flags1, ready1, base, flags2, ready2, issued)
    ensures forall k :: 0 <= k < |issued| ==> issued[k].delay == k
    ensures forall k :: 0 <= k < |issued| ==>
      issued[k].index < |flags0.Get(issued[k].unit)| && flags0.Get(issued[k].unit)[issued[k].index]
    ensures forall j, k :: 0 <= j < k < |issued| && issued[j].unit == issued[k].unit ==>
      issued[j].index != issued[k].index
  {
    assert forall k :: 0 <= k < |base| ==> issued[k] == base[k];
    forall j, k | 0 <= j < k < |issued| && issued[j].unit == issued[k].unit
      ensures issued[j].index != issued[k].index
    {
      if j < |base| <= k {
        var b := issued[j];
        assert !Unassigned(base, t, b.index);
      }
    }
  }

  /** A scan keeps each flag set exactly when it started set and its unit received nothing. */
  lemma ScanKeepsFlags(flags0: PerKind<seq<bool>>, ready0: PerKind<seq<InstId>>, base: seq<Issue>,
                       flags1: PerKind<seq<bool>>, ready1: PerKind<seq<InstId>>, t: FuncUnitType,
                       flags2: PerKind<seq<bool>>, ready2: PerKind<seq<InstId>>, issued: seq<Issue>)
    requires Bookkeeping(flags0, ready0, base, flags1, ready1)
    requires ScanResult(t, flags1, ready1, base, flags2, ready2, issued)
    ensures forall u :: |flags2.Get(u)| == |flags0.Get(u)|
    ensures forall u, i :: 0 <= i < |flags2.Get(u)| ==>
      (flags2.Get(u)[i] <==> flags0.Get(u)[i] && Unassigned(issued, u, i))
  {
    var added := issued[|base|..];
    assert issued == base + added;
    forall u, i | 0 <= i < |flags2.Get(u)|
      ensures flags2.Get(u)[i] <==> flags0.Get(u)[i] && Unassigned(issued, u, i)
    {
      UnassignedAppend(base, added, u, i);
      if u != t {
        assert Unassigned(added, u, i);
      }
    }
  }

  /** A scan keeps every unit below one that received an instruction busy. */
  lemma ScanKeepsBusyBelow(flags0: PerKind<seq<bool>>, ready0: PerKind<seq<InstId>>, base: seq<Issue>,
                           flags1: PerKind<seq<bool>>, ready1: PerKind<seq<InstId>>, t: FuncUnitType,
                           flags2: PerKind<seq<bool>>, ready2: PerKind<seq<InstId>>, issued: seq<Issue>)
    requires Bookkeeping(flags0, ready0, base, flags1, ready1)
    requires ScanResult(t, flags1, ready1, base, flags2, ready2, issued)
    ensures forall k, i :: 0 <= k < |issued| && 0 <= i < issued[k].index && i < |flags2.Get(issued[k].unit)| ==>
      !flags2.Get(issued[k].unit)[i]
  {
    forall k, i | 0 <= k < |issued| && 0 <= i < issued[k].index && i < |flags2.Get(issued[k].unit)|
      ensures !flags2.Get(issued[k].unit)[i]
    {
      if k < |base| {
        assert issued[k] == base[k];
        var u := issued[k].unit;
        assert !flags1.Get(u)[i];
      }
    }
  }

  /**
   * One scan keeps the bookkeeping of `issueInstruction`, lowers the ready
   * total by what it issued, and leaves every other kind as saturated as it
   * was, while saturating its own.
   */
  lemma ScanKeeps(flags0: PerKind<seq<bool>>, ready0: PerKind<seq<InstId>>, base: seq<Issue>,
                  flags1: PerKind<seq<bool>>, ready1: PerKind<seq<InstId>>, t: FuncUnitType,
                  flags2: PerKind<seq<bool>>, ready2: PerKind<seq<InstId>>, issued: seq<Issue>)
    requires Bookkeeping(flags0, ready0, base, flags1, ready1)
    requires ScanResult(t, flags1, ready1, base, flags2, ready2, issued)
    ensures Bookkeeping(flags0, ready0, issued, flags2, ready2)
    ensures TotalReady(ready2) + |issued| == TotalReady(ready1) + |base|
    ensures Saturated(flags2, ready2, t)
    ensures forall u :: u != t && Saturated(flags1, ready1, u) ==> Saturated(flags2, ready2, u)
  {
    assert issued == base + issued[|base|..];
    ScanKeepsReady(ready0, base, ready1, t, ready2, issued[|base|..]);
    ScanKeepsIssues(flags0, ready0, base, flags1, ready1, t, flags2, ready2, issued);
    ScanKeepsFlags(flags0, ready0, base, flags1, ready1, t, flags2, ready2, issued);
    ScanKeepsBusyBelow(flags0, ready0, base, flags1, ready1, t, flags2, ready2, issued);
  }

  /** Before anything is issued the bookkeeping holds trivially. */
  lemma BookkeepingStart(flags0: PerKind<seq<bool>>, ready0: PerKind<seq<InstId>>)
    ensures Bookkeeping(flags0, ready0, [], flags0, ready0)
  {
  }

  /** The state of one scan over the units of kind `t` after looking at units `0 .. i - 1`. */
  ghost predicate ScanSoFar(t: FuncUnitType, flags0: seq<bool>, ready0: seq<InstId>, base: seq<Issue>,
                            flags: seq<bool>, ready: seq<InstId>, issued: seq<Issue>, i: nat)
  {
    && i <= |flags| == |flags0|
    && |base| <= |issued| && issued[..|base|] == base
    && ready0 == Insts(issued[|base|..]) + ready
    && (forall k :: |base| <= k < |issued| ==>
          && issued[k].unit == t && issued[k].delay == k
          && issued[k].index < i && flags0[issued[k].index])
    && (forall j, k :: |base| <= j < k < |issued| ==> issued[j].index < issued[k].index)
    && (forall j :: 0 <= j < |flags| ==> (flags[j] <==> flags0[j] && Unassigned(issued[|base|..], t, j)))
    && (forall j :: 0 <= j < i ==> !flags[j])
  }

  lemma ScanStart(t: FuncUnitType, flags0: seq<bool>, ready0: seq<InstId>, base: seq<Issue>)
    ensures ScanSoFar(t, flags0, ready0, base, flags0, ready0, base, 0)
  {
    assert base[|base|..] == [];
  }

  /** Scan step for an idle unit that receives the next ready instruction. */
  lemma ScanAssign(t: FuncUnitType, flags0: seq<bool>, ready0: seq<InstId>, base: seq<Issue>,
                   flags: seq<bool>, ready: seq<InstId>, issued: seq<Issue>, i: nat)
    requires ScanSoFar(t, flags0, ready0, base, flags, ready, issued, i)
    requires i < |flags| && flags[i] && ready != []
    ensures ScanSoFar(t, flags0, ready0, base, flags[i := false], ready[1..],
                      issued + [Issue(ready[0], t, i, |issued|)], i + 1)
  {
    var issue := Issue(ready[0], t, i, |issued|);
    var issued' := issued + [issue];
    var added, added' := issued[|base|..], issued'[|base|..];
    assert added' == added + [issue];
    assert issued'[..|base|] == base;
    assert Insts(added') == Insts(added) + [ready[0]];
    assert ready0 == Insts(added) + ([ready[0]] + ready[1..]);
    AssignFlags(t, flags0, flags, added, issue, i);
  }

  /** The flags after a scan step that assigns unit `i`. */
  lemma AssignFlags(t: FuncUnitType, flags0: seq<bool>, flags: seq<bool>, added: seq<Issue>, issue: Issue, i: nat)
    requires |flags| == |flags0| && i < |flags| && flags[i]
    requires issue.unit == t && issue.index == i
    requires forall j :: 0 <= j < |flags| ==> (flags[j] <==> flags0[j] && Unassigned(added, t, j))
    ensures forall j :: 0 <= j < |flags| ==> (flags[i := false][j] <==> flags0[j] && Unassigned(added + [issue], t, j))
  {
    forall j | 0 <= j < |flags|
      ensures flags[i := false][j] <==> flags0[j] && Unassigned(added + [issue], t, j)
    {
      UnassignedAppend(added, [issue], t, j);
      assert [issue][0] == issue;
      assert Unassigned([issue], t, j) <==> j != i;
    }
  }

  /** Scan step past a busy unit. */
  lemma ScanSkip(t: FuncUnitType, flags0: seq<bool>, ready0: seq<InstId>, base: seq<Issue>,
                 flags: seq<bool>, ready: seq<InstId>, issued: seq<Issue>, i: nat)
    requires ScanSoFar(t, flags0, ready0, base, flags, ready, issued, i)
    requires i < |flags| && !flags[i]
    ensures ScanSoFar(t, flags0, ready0, base, flags, ready, issued, i + 1)
  {
  }

  /**
   * A scan that stops, at the end of the units or at an idle unit for which
   * no instruction is ready, has the effect `ScanResult` describes.
   */
  lemma ScanEnd(t: FuncUnitType, flags1: PerKind<seq<bool>>, ready1: PerKind<seq<InstId>>, base: seq<Issue>,
                flags2: PerKind<seq<bool>>, ready2: PerKind<seq<InstId>>, issued: seq<Issue>, i: nat)
    requires ScanSoFar(t, flags1.Get(t), ready1.Get(t), base, flags2.Get(t), ready2.Get(t), issued, i)
    requires i == |flags2.Get(t)| || ready2.Get(t) == []
    requires forall u :: u != t ==> flags2.Get(u) == flags1.Get(u) && ready2.Get(u) == ready1.Get(u)
    ensures ScanResult(t, flags1, ready1, base, flags2, ready2, issued)
  {
  }

  /** Scans of the invalidator and then of each kind of unit in turn keep the bookkeeping and saturate every kind. */
  lemma PassKeeps(flags0: PerKind<seq<bool>>, ready0: PerKind<seq<InstId>>, i0: seq<Issue>,
                  f0: PerKind<seq<bool>>, q0: PerKind<seq<InstId>>, i1: seq<Issue>,
                  f1: PerKind<seq<bool>>, q1: PerKind<seq<InstId>>, i2: seq<Issue>,
                  f2: PerKind<seq<bool>>, q2: PerKind<seq<InstId>>, i3: seq<Issue>,
                  f3: PerKind<seq<bool>>, q3: PerKind<seq<InstId>>, i4: seq<Issue>,
                  f4: PerKind<seq<bool>>, q4: PerKind<seq<InstId>>, i5: seq<Issue>,
                  f5: PerKind<seq<bool>>, q5: PerKind<seq<InstId>>)
    requires Bookkeeping(flags0, ready0, i0, f0, q0)
    requires ScanResult(Invalidator, f0, q0, i0, f1, q1, i1)
    requires ScanResult(Stream, f1, q1, i1, f2, q2, i2)
    requires ScanResult(Indirect, f2, q2, i2, f3, q3, i3)
    requires ScanResult(Alu, f3, q3, i3, f4, q4, i4)
    requires ScanResult(Range, f4, q4, i4, f5, q5, i5)
    ensures Bookkeeping(flags0, ready0, i5, f5, q5)
    ensures forall t :: Saturated(f5, q5, t)
    ensures TotalReady(q5) + |i5| == TotalReady(q0) + |i0|
    ensures |i0| <= |i5|
  {
    ScanKeeps(flags0, ready0, i0, f0, q0, Invalidator, f1, q1, i1);
    ScanKeeps(flags0, ready0, i1, f1, q1, Stream, f2, q2, i2);
    ScanKeeps(flags0, ready0, i2, f2, q2, Indirect, f3, q3, i3);
    ScanKeeps(flags0, ready0, i3, f3, q3, Alu, f4, q4, i4);
    ScanKeeps(flags0, ready0, i4, f4, q4, Range, f5, q5, i5);
    forall t ensures Saturated(f5, q5, t) {
      if t == Invalidator {
        assert Saturated(f1, q1, t) && Saturated(f2, q2, t) && Saturated(f3, q3, t) && Saturated(f4, q4, t);
      } else if t == Stream {
        assert Saturated(f2, q2, t) && Saturated(f3, q3, t) && Saturated(f4, q4, t);
      } else if t == Indirect {
        assert Saturated(f3, q3, t) && Saturated(f4, q4, t);
      } else if t == Alu {
        assert Saturated(f4, q4, t);
      }
    }
  }

  /** The position of a kind in a pass of `issueInstruction`: the invalidator, then stream, indirect, ALU and range units. */
  function Rank(t: FuncUnitType): (r: nat)
    ensures r < 5
  {
    match t
    case Invalidator => 0
    case Stream => 1
    case Indirect => 2
    case Alu => 3
    case Range => 4
  }

  /** Issue `a` is handed out before issue `b` in a pass: an earlier kind, or a lower unit of the same kind. */
  predicate IssuedBefore(a: Issue, b: Issue)
  {
    Rank(a.unit) < Rank(b.unit) || (a.unit == b.unit && a.index < b.index)
  }

  /** The issues come in pass order: kind by kind, and lowest unit first within a kind. */
  predicate IssueOrder(issued: seq<Issue>)
  {
    forall j, k :: 0 <= j < k < |issued| ==> IssuedBefore(issued[j], issued[k])
  }

  /**
   * A scan of kind `t` that follows only issues to earlier kinds keeps the
   * pass order, and afterwards every issue is to kind `t` or an earlier one.
   */
  lemma ScanKeepsOrder(t: FuncUnitType, flags1: PerKind<seq<bool>>, ready1: PerKind<seq<InstId>>, base: seq<Issue>,
                       flags2: PerKind<seq<bool>>, ready2: PerKind<seq<InstId>>, issued: seq<Issue>)
    requires ScanResult(t, flags1, ready1, base, flags2, ready2, issued)
    requires IssueOrder(base)
    requires forall k :: 0 <= k < |base| ==> Rank(base[k].unit) < Rank(t)
    ensures IssueOrder(issued)
    ensures forall k :: 0 <= k < |issued| ==> Rank(issued[k].unit) <= Rank(t)
  {
    assert forall k :: 0 <= k < |base| ==> issued[k] == base[k];
    forall j, k | 0 <= j < k < |issued|
      ensures IssuedBefore(issued[j], issued[k])
    {
      if k < |base| {
        assert IssuedBefore(base[j], base[k]);
      }
    }
  }

  /** A scan that issues anything finds an idle unit of its kind. */
  lemma ScanIssuesToIdle(t: FuncUnitType, flags1: PerKind<seq<bool>>, ready1: PerKind<seq<InstId>>, base: seq<Issue>,
                         flags2: PerKind<seq<bool>>, ready2: PerKind<seq<InstId>>, issued: seq<Issue>)
    requires ScanResult(t, flags1, ready1, base, flags2, ready2, issued)
    ensures |issued| > |base| ==> !NoneIdle(flags1.Get(t))
  {
    if |issued| > |base| {
      assert flags1.Get(t)[issued[|base|].index];
    }
  }

  /** A scan that starts with every kind saturated issues nothing and leaves every kind saturated. */
  lemma ScanSaturatedIssuesNothing(t: FuncUnitType, flags1: PerKind<seq<bool>>, ready1: PerKind<seq<InstId>>, base: seq<Issue>,
                                   flags2: PerKind<seq<bool>>, ready2: PerKind<seq<InstId>>, issued: seq<Issue>)
    requires ScanResult(t, flags1, ready1, base, flags2, ready2, issued)
    requires forall u :: Saturated(flags1, ready1, u)
    ensures issued == base
    ensures forall u :: Saturated(flags2, ready2, u)
  {
    assert Saturated(flags1, ready1, t);
    assert |issued| == |base| by {
      if ready1.Get(t) == [] {
        assert |Insts(issued[|base|..])| == |issued| - |base|;
      } else {
        ScanIssuesToIdle(t, flags1, ready1, base, flags2, ready2, issued);
      }
    }
    assert issued == issued[..|base|];
    forall u
      ensures Saturated(flags2, ready2, u)
    {
      if u != t {
        assert Saturated(flags1, ready1, u);
      }
    }
  }

  /**
   * A pass keeps the pass order when it starts from nothing issued, and
   * issues nothing when it starts with every kind saturated, so the second
   * pass of `issueInstruction` cannot disturb the order of the first.
   */
  lemma {:induction false} PassOrder(i0: seq<Issue>,
                  f0: PerKind<seq<bool>>, q0: PerKind<seq<InstId>>, i1: seq<Issue>,
                  f1: PerKind<seq<bool>>, q1: PerKind<seq<InstId>>, i2: seq<Issue>,
                  f2: PerKind<seq<bool>>, q2: PerKind<seq<InstId>>, i3: seq<Issue>,
                  f3: PerKind<seq<bool>>, q3: PerKind<seq<InstId>>, i4: seq<Issue>,
                  f4: PerKind<seq<bool>>, q4: PerKind<seq<InstId>>, i5: seq<Issue>,
                  f5: PerKind<seq<bool>>, q5: PerKind<seq<InstId>>)
    requires ScanResult(Invalidator, f0, q0, i0, f1, q1, i1)
    requires ScanResult(Stream, f1, q1, i1, f2, q2, i2)
    requires ScanResult(Indirect, f2, q2, i2, f3, q3, i3)
    requires ScanResult(Alu, f3, q3, i3, f4, q4, i4)
    requires ScanResult(Range, f4, q4, i4, f5, q5, i5)
    requires IssueOrder(i0)
    requires i0 == [] || forall t :: Saturated(f0, q0, t)
    ensures IssueOrder(i5)
    ensures (forall t :: Saturated(f0, q0, t)) ==> i5 == i0
  {
    if forall t :: Saturated(f0, q0, t) {
      ScanSaturatedIssuesNothing(Invalidator, f0, q0, i0, f1, q1, i1);
      ScanSaturatedIssuesNothing(Stream, f1, q1, i1, f2, q2, i2);
      ScanSaturatedIssuesNothing(Indirect, f2, q2, i2, f3, q3, i3);
      ScanSaturatedIssuesNothing(Alu, f3, q3, i3, f4, q4, i4);
      ScanSaturatedIssuesNothing(Range, f4, q4, i4, f5, q5, i5);
    } else {
      ScanKeepsOrder(Invalidator, f0, q0, i0, f1, q1, i1);
      ScanKeepsOrder(Stream, f1, q1, i1, f2, q2, i2);
      ScanKeepsOrder(Indirect, f2, q2, i2, f3, q3, i3);
      ScanKeepsOrder(Alu, f3, q3, i3, f4, q4, i4);
      ScanKeepsOrder(Range, f4, q4, i4, f5, q5, i5);
    }
  }

  /** Ticks, gem5's `Tick` (`uint64_t`). */
  type Tick = Addr

  /** `curTick() + latency` as a `Tick`: the `int` latency converts to `uint64_t` and the sum wraps. */
  function When(now: Tick, latency: int): (w: Tick)
    ensures 0 <= latency && now + latency < TwoTo64 ==> w == now + latency
  {
    (now + latency) % TwoTo64
  }

  /**
   * The event after `schedule`/`reschedule` with the new time `when`: an
   * unscheduled event is scheduled at `when`; a scheduled one moves only
   * if `when` is earlier.  So it ends up at the earlier of the two times.
   */
  function Rescheduled(ev: Option<Tick>, when: Tick): (r: Option<Tick>)
    ensures r.Some? && r.value <= when
    ensures ev.Some? ==> r.value <= ev.value
    ensures r.value == when || r == ev
  {
    if ev.None? then Some(when)
    else if when < ev.value then Some(when)
    else ev
  }

  /** Several schedule requests in turn. */
  function RescheduledAll(ev: Option<Tick>, whens: seq<Tick>): (r: Option<Tick>)
    ensures ev.Some? ==> r.Some? && r.value <= ev.value
    ensures whens != [] ==> r.Some? && r.value <= whens[|whens| - 1]
  {
    if whens == [] then ev else Rescheduled(RescheduledAll(ev, whens[..|whens| - 1]), whens[|whens| - 1])
  }

  /**
   * However many requests arrive and in whatever order, the event ends at
   * the earliest time asked for (or where it already was, if earlier):
   * never later than any request, and always at one of them.
   */
  lemma {:induction false} RescheduledAllEarliest(ev: Option<Tick>, whens: seq<Tick>)
    requires ev.Some? || whens != []
    ensures var r := RescheduledAll(ev, whens);
      && r.Some?
      && (ev.Some? ==> r.value <= ev.value)
      && (forall k :: 0 <= k < |whens| ==> r.value <= whens[k])
      && (r == ev || exists k :: 0 <= k < |whens| && r.value == whens[k])
    decreases |whens|
  {
    if whens != [] {
      var n := |whens| - 1;
      var prev := RescheduledAll(ev, whens[..n]);
      if ev.Some? || n > 0 {
        RescheduledAllEarliest(ev, whens[..n]);
        assert forall k :: 0 <= k < n ==> whens[..n][k] == whens[k];
      }
      var r := Rescheduled(prev, whens[n]);
      if r.value == whens[n] {
        assert 0 <= n < |whens| && r.value == whens[n];
      }
    }
  }

  /** The order of two schedule requests does not matter. */
  lemma RescheduledCommutes(ev: Option<Tick>, a: Tick, b: Tick)
    ensures Rescheduled(Rescheduled(ev, a), b) == Rescheduled(Rescheduled(ev, b), a)
  {
  }

  /** Why `finishInstructionCompute` stops the simulation: its `default` case. */
  datatype FinishError = NotAComputeUnit

  /**
   * The controller's bookkeeping of its functional units: an idle flag per
   * unit (the invalidator's a plain flag, the others one array per kind),
   * the instruction file's ready instructions per kind, and the issue and
   * dispatch events with the times they are scheduled for.
   */
  class Maa {
    var invalidatorIdle: bool
    const streamAccessIdle: array<bool>
    const indirectAccessIdle: array<bool>
    const aluUnitsIdle: array<bool>
    const rangeUnitsIdle: array<bool>
    /** The instruction file's ready instructions of each kind; `getReady` hands out the first. */
    var ready: PerKind<seq<InstId>>
    var issueEvent: Option<Tick>
    var dispatchEvent: Option<Tick>
    var myLastIdleTick: Tick

    ghost predicate Valid()
      reads this
    {
      && streamAccessIdle != indirectAccessIdle && streamAccessIdle != aluUnitsIdle
      && streamAccessIdle != rangeUnitsIdle && indirectAccessIdle != aluUnitsIdle
      && indirectAccessIdle != rangeUnitsIdle && aluUnitsIdle != rangeUnitsIdle
    }

    /** The flag array of a kind of functional unit. */
    function Flags(t: FuncUnitType): array<bool>
      requires t != Invalidator
      reads this
    {
      match t
      case Stream => streamAccessIdle
      case Indirect => indirectAccessIdle
      case Alu => aluUnitsIdle
      case Range => rangeUnitsIdle
    }

    /** All idle flags as values, the invalidator's as a one-element sequence. */
    ghost function IdleFlags(): PerKind<seq<bool>>
      reads this, streamAccessIdle, indirectAccessIdle, aluUnitsIdle, rangeUnitsIdle
    {
      PerKind([invalidatorIdle], streamAccessIdle[..], indirectAccessIdle[..], aluUnitsIdle[..], rangeUnitsIdle[..])
    }

    /** A controller whose units are all idle and whose events are not scheduled. */
    constructor (numStream: nat, numIndirect: nat, numAlu: nat, numRange: nat, ready: PerKind<seq<InstId>>)
      ensures Valid()
      ensures IdleFlags() == PerKind([true], seq(numStream, _ => true), seq(numIndirect, _ => true),
                                     seq(numAlu, _ => true), seq(numRange, _ => true))
      ensures this.ready == ready && issueEvent == None && dispatchEvent == None && myLastIdleTick == 0
    {
      invalidatorIdle := true;
      streamAccessIdle := new bool[numStream](_ => true);
      indirectAccessIdle := new bool[numIndirect](_ => true);
      aluUnitsIdle := new bool[numAlu](_ => true);
      rangeUnitsIdle := new bool[numRange](_ => true);
      this.ready := ready;
      issueEvent := None;
      dispatchEvent := None;
      myLastIdleTick := 0;
      new;
      assert streamAccessIdle[..] == seq(numStream, _ => true);
      assert indirectAccessIdle[..] == seq(numIndirect, _ => true);
      assert aluUnitsIdle[..] == seq(numAlu, _ => true);
      assert rangeUnitsIdle[..] == seq(numRange, _ => true);
    }

    /** `ifile->getReady(t)`: the next ready instruction of kind `t`, taken off the list, if any. */
    method GetReady(t: FuncUnitType) returns (inst: Option<InstId>)
      modifies this`ready
      ensures old(ready.Get(t)) == [] <==> inst.None?
      ensures inst.Some? ==> [inst.value] + ready.Get(t) == old(ready.Get(t))
      ensures inst.None? ==> ready.Get(t) == old(ready.Get(t))
      ensures forall u :: u != t ==> ready.Get(u) == old(ready.Get(u))
    {
      var waiting := ready.Get(t);
      if waiting == [] {
        inst := None;
      } else {
        inst := Some(waiting[0]);
        ready := ready.Set(t, waiting[1..]);
      }
    }

    /** The invalidator part of one pass of `issueInstruction`. */
    method IssueToInvalidator(issued0: seq<Issue>) returns (issued: seq<Issue>)
      modifies this`invalidatorIdle, this`ready
      ensures ScanResult(Invalidator, old(IdleFlags()), old(ready), issued0, IdleFlags(), ready, issued)
    {
      ghost var flags1, ready1 := IdleFlags(), ready;
      ghost var q := ready.Get(Invalidator);
      issued := issued0;
      ScanStart(Invalidator, [invalidatorIdle], q, issued0);
      if invalidatorIdle {
        var inst := GetReady(Invalidator);
        if inst.Some? {
          ScanAssign(Invalidator, [true], q, issued0, [true], q, issued, 0);
          assert [true][0 := false] == [false];
          issued := issued + [Issue(inst.value, Invalidator, 0, |issued|)];
          invalidatorIdle := false;
          ScanEnd(Invalidator, flags1, ready1, issued0, IdleFlags(), ready, issued, 1);
        } else {
          ScanEnd(Invalidator, flags1, ready1, issued0, IdleFlags(), ready, issued, 0);
        }
      } else {
        ScanSkip(Invalidator, [false], q, issued0, [false], q, issued, 0);
        ScanEnd(Invalidator, flags1, ready1, issued0, IdleFlags(), ready, issued, 1);
      }
    }

    /**
     * One `for` loop of `issueInstruction` over the units of kind `t`:
     * every unit whose idle flag is set asks for the next ready
     * instruction; it takes it, its flag is cleared and the instruction
     * gets the next execute delay; the loop stops at the first unit for
     * which no instruction is ready.
     */
    method ScanUnits(t: FuncUnitType, issued0: seq<Issue>) returns (issued: seq<Issue>)
      requires Valid() && t != Invalidator
      modifies this`ready, Flags(t)
      ensures ScanResult(t, old(IdleFlags()), old(ready), issued0, IdleFlags(), ready, issued)
    {
      ghost var flags1, ready1 := IdleFlags(), ready;
      var flags := Flags(t);
      ghost var f0, q0 := flags[..], ready.Get(t);
      issued := issued0;
      ScanStart(t, f0, q0, issued0);
      var i := 0;
      while i < flags.Length
        invariant ScanSoFar(t, f0, q0, issued0, flags[..], ready.Get(t), issued, i)
        invariant forall u :: u != t ==> ready.Get(u) == ready1.Get(u)
      {
        if flags[i] {
          ghost var q := ready.Get(t);
          var inst := GetReady(t);
          if inst.None? {
            break;
          }
          ScanAssign(t, f0, q0, issued0, flags[..], q, issued, i);
          ClearFlag(flags, i);
          issued := issued + [Issue(inst.value, t, i, |issued|)];
        } else {
          ScanSkip(t, f0, q0, issued0, flags[..], ready.Get(t), issued, i);
        }
        i := i + 1;
      }
      ScanEnd(t, flags1, ready1, issued0, IdleFlags(), ready, issued, i);
    }
  
    /** Marks a unit busy. */
    static method ClearFlag(flags: array<bool>, i: nat)
      requires i < flags.Length
      modifies flags
      ensures flags[..] == old(flags[..])[i := false]
    {
      flags[i] := false;
    }

    /** One pass of the `while (issued)` loop of `issueInstruction`: the invalidator, then each kind's units in turn. */
    method IssuePass(ghost flags0: PerKind<seq<bool>>, ghost ready0: PerKind<seq<InstId>>, issued0: seq<Issue>)
      returns (issued: seq<Issue>)
      requires Valid() && Bookkeeping(flags0, ready0, issued0, IdleFlags(), ready)
      requires IssueOrder(issued0)
      requires issued0 == [] || forall t :: Saturated(IdleFlags(), ready, t)
      modifies this`invalidatorIdle, this`ready, streamAccessIdle, indirectAccessIdle, aluUnitsIdle, rangeUnitsIdle
      ensures Bookkeeping(flags0, ready0, issued, IdleFlags(), ready)
      ensures forall t :: Saturated(IdleFlags(), ready, t)
      ensures IssueOrder(issued)
      ensures old(forall t :: Saturated(IdleFlags(), ready, t)) ==> issued == issued0
      ensures TotalReady(ready) + |issued| == old(TotalReady(ready)) + |issued0|
      ensures |issued0| <= |issued|
    {
      ghost var f0, q0 := IdleFlags(), ready;
      var i1 := IssueToInvalidator(issued0);
      ghost var f1, q1 := IdleFlags(), ready;
      var i2 := ScanUnits(Stream, i1);
      ghost var f2, q2 := IdleFlags(), ready;
      var i3 := ScanUnits(Indirect, i2);
      ghost var f3, q3 := IdleFlags(), ready;
      var i4 := ScanUnits(Alu, i3);
      ghost var f4, q4 := IdleFlags(), ready;
      issued := ScanUnits(Range, i4);
      PassKeeps(flags0, ready0, issued0, f0, q0, i1, f1, q1, i2, f2, q2, i3, f3, q3, i4, f4, q4,
                issued, IdleFlags(), ready);
      PassOrder(issued0, f0, q0, i1, f1, q1, i2, f2, q2, i3, f3, q3, i4, f4, q4, issued, IdleFlags(), ready);
    }

    /**
     * `issueInstruction`: passes over all units until a pass issues nothing.
     * Every instruction issued is one that was ready, of the unit's kind,
     * taken in the instruction file's order, to a unit that was idle, with
     * the execute delays 0, 1, 2, ... in issue order; exactly the units
     * issued to become busy; afterwards no kind has both an idle unit and
     * a ready instruction.  An idle period ends when all units were idle
     * and something was issued.  `units` are the units' own states; the
     * controller stops the simulation unless each unit it believes idle
     * reports itself idle.
     */
    method IssueInstruction(units: UnitStates) returns (issued: seq<Issue>, idleEnded: bool)
      requires Valid()
      requires forall t, i :: 0 <= i < |IdleFlags().Get(t)| && IdleFlags().Get(t)[i] ==> i < |units.Get(t)| && units.Get(t)[i]
      modifies this`invalidatorIdle, this`ready, streamAccessIdle, indirectAccessIdle, aluUnitsIdle, rangeUnitsIdle
      ensures Bookkeeping(old(IdleFlags()), old(ready), issued, IdleFlags(), ready)
      ensures forall t :: Saturated(IdleFlags(), ready, t)
      ensures IssueOrder(issued)
      ensures idleEnded <==> AllIdle(units) && issued != []
    {
      var wereAllIdle := AllFuncUnitsIdle(units);
      ghost var flags0, ready0 := IdleFlags(), ready;
      issued := [];
      BookkeepingStart(flags0, ready0);
      var progress := true;
      while progress
        invariant Bookkeeping(flags0, ready0, issued, IdleFlags(), ready)
        invariant !progress ==> forall t :: Saturated(IdleFlags(), ready, t)
        invariant issued != [] ==> forall t :: Saturated(IdleFlags(), ready, t)
        invariant IssueOrder(issued)
        decreases TotalReady(ready) + (if progress then 1 else 0)
      {
        var before := |issued|;
        issued := IssuePass(flags0, ready0, issued);
        progress := |issued| > before;
      }
      idleEnded := wereAllIdle && issued != [];
    }

    /** `scheduleIssueInstructionEvent(latency)` at time `now`. */
    method ScheduleIssueInstructionEvent(now: Tick, latency: int)
      modifies this`issueEvent
      ensures issueEvent == Rescheduled(old(issueEvent), When(now, latency))
    {
      var newWhen := When(now, latency);
      if issueEvent.None? {
        issueEvent := Some(newWhen);
      } else if newWhen < issueEvent.value {
        issueEvent := Some(newWhen);
      }
    }

    /** `scheduleDispatchInstructionEvent(latency)` at time `now`. */
    method ScheduleDispatchInstructionEvent(now: Tick, latency: int)
      modifies this`dispatchEvent
      ensures dispatchEvent == Rescheduled(old(dispatchEvent), When(now, latency))
    {
      var newWhen := When(now, latency);
      if dispatchEvent.None? {
        dispatchEvent := Some(newWhen);
      } else if newWhen < dispatchEvent.value {
        dispatchEvent := Some(newWhen);
      }
    }

    /** Marks unit `i` of kind `t` idle again. */
    method SetIdle(t: FuncUnitType, i: nat)
      requires Valid() && t != Invalidator && i < Flags(t).Length
      modifies Flags(t)
      ensures IdleFlags().Get(t) == old(IdleFlags().Get(t))[i := true]
      ensures forall u :: u != t ==> IdleFlags().Get(u) == old(IdleFlags().Get(u))
    {
      Flags(t)[i] := true;
    }

    /**
     * The controller's part of `finishInstructionCompute` for an instruction
     * that ran on unit `funcUniId` of kind `t`: the unit is idle again, the
     * issue and dispatch events are brought forward to `now` plus their
     * own default latency if later, and an idle period starts at `now` when all units (`units`,
     * their states after the finish) are idle.  Only compute units finish
     * this way: an invalidator instruction fails the `default` assertion
     * and changes nothing.
     */
    method FinishInstructionCompute(t: FuncUnitType, funcUniId: nat, units: UnitStates, now: Tick,
                                    issueLatency: int, dispatchLatency: int)
      returns (r: Result<bool, FinishError>)
      requires Valid()
      requires t != Invalidator ==> funcUniId < Flags(t).Length
      modifies this`issueEvent, this`dispatchEvent, this`myLastIdleTick,
               streamAccessIdle, indirectAccessIdle, aluUnitsIdle, rangeUnitsIdle
      ensures t == Invalidator <==> r.Err?
      ensures r.Err? ==>
        && IdleFlags() == old(IdleFlags()) && issueEvent == old(issueEvent)
        && dispatchEvent == old(dispatchEvent) && myLastIdleTick == old(myLastIdleTick)
      ensures r.Ok? ==>
        && IdleFlags().Get(t) == old(IdleFlags().Get(t))[funcUniId := true]
        && (forall u :: u != t ==> IdleFlags().Get(u) == old(IdleFlags().Get(u)))
        && issueEvent == Rescheduled(old(issueEvent), When(now, issueLatency))
        && dispatchEvent == Rescheduled(old(dispatchEvent), When(now, dispatchLatency))
        && (r.value <==> AllIdle(units))
        && myLastIdleTick == (if r.value then now else old(myLastIdleTick))
    {
      if t == Invalidator {
        return Err(NotAComputeUnit);
      }
      SetIdle(t, funcUniId);
      ScheduleIssueInstructionEvent(now, issueLatency);
      ScheduleDispatchInstructionEvent(now, dispatchLatency);
      var idle := AllFuncUnitsIdle(units);
      if idle {
        myLastIdleTick := now;
      }
      r := Ok(idle);
    }

    /**
     * The controller's part of `finishInstructionInvalidate`: the
     * invalidator is idle again, the issue event is brought forward to
     * `now + latency` if later, and an idle period starts at `now` when all
     * units are idle.
     */
    method FinishInstructionInvalidate(units: UnitStates, now: Tick, latency: int) returns (idleStarts: bool)
      modifies this`invalidatorIdle, this`issueEvent, this`myLastIdleTick
      ensures invalidatorIdle && ready == old(ready) && dispatchEvent == old(dispatchEvent)
      ensures issueEvent == Rescheduled(old(issueEvent), When(now, latency))
      ensures idleStarts <==> AllIdle(units)
      ensures myLastIdleTick == (if idleStarts then now else old(myLastIdleTick))
    {
      invalidatorIdle := true;
      ScheduleIssueInstructionEvent(now, latency);
      idleStarts := AllFuncUnitsIdle(units);
      if idleStarts {
        myLastIdleTick := now;
      }
    }
  }

  /** An address range without interleaving: the addresses `start <= a < end`. */
  datatype AddrRange = AddrRange(start: Addr, end: Addr)
  {
    predicate Contains(a: Addr)
    {
      start <= a < end
    }
  }

  /** What `inRange` is evidently meant to return: the index of the first range holding `addr`, or -1 if none does. */
  function FirstContaining(ranges: seq<AddrRange>, addr: Addr): (r: int)
    ensures -1 <= r < |ranges|
    ensures r == -1 <==> forall k :: 0 <= k < |ranges| ==> !ranges[k].Contains(addr)
    ensures r >= 0 ==> ranges[r].Contains(addr) && forall k :: 0 <= k < r ==> !ranges[k].Contains(addr)
  {
    if ranges == [] then -1
    else if ranges[0].Contains(addr) then 0
    else
      var r := FirstContaining(ranges[1..], addr);
      assert forall k :: 1 <= k < |ranges| ==> ranges[k] == ranges[1..][k - 1];
      if r == -1 then -1 else r + 1
  }

  /** `inRange` as written: the loop finds the range but never records its index. */
  method InRangeAsWritten(ranges: seq<AddrRange>, addr: Addr) returns (r: int)
    ensures r == -1
    ensures r != FirstContaining(ranges, addr) <==> exists k :: 0 <= k < |ranges| && ranges[k].Contains(addr)
  {
    r := -1;
    for i := 0 to |ranges| {
      if ranges[i].Contains(addr) {
        break;
      }
    }
  }

  /**
   * An address inside the only range: the intended answer is index 0, and
   * since some range holds the address, `inRange` as written answers -1
   * instead (the second `ensures` of InRangeAsWritten).
   */
  lemma InRangeAsWrittenMisses()
    ensures var ranges := [AddrRange(0, 64)];
      && FirstContaining(ranges, 0) == 0
      && (exists k :: 0 <= k < |ranges| && ranges[k].Contains(0))
  {
    var ranges := [AddrRange(0, 64)];
    assert ranges[0].Contains(0);
  }

  /** `inRange` with the index recorded before the `break`. */
  method InRange(ranges: seq<AddrRange>, addr: Addr) returns (r: int)
    ensures r == FirstContaining(ranges, addr)
  {
    r := -1;
    for i := 0 to |ranges|
      invariant r == -1 && forall k :: 0 <= k < i ==> !ranges[k].Contains(addr)
    {
      if ranges[i].Contains(addr) {
        r := i;
        break;
      }
    }
  }
}
