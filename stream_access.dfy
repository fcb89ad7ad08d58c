/**
 * The stream access unit of the memory access accelerator: it walks the
 * elements `min, min+stride, ...` of a strided stream, records in its
 * request table which 4-byte word of which 64-byte block each element
 * needs, and queues one read packet per block.
 */
module StreamAccess {
  import opened Wrappers
  import opened MachineTypes
  import opened StreamRequestTable

  const BlockSize: nat := 64
  const WordSize: nat := 4
  const WordsPerBlock: nat := 16

  /** A block holds as many words as a table slot has entries, and as many as a response carries. */
  lemma WordsPerBlockMatchesTable()
    ensures WordsPerBlock == BlockSize / WordSize == NumEntriesPerAddress
  {
  }

  // ---------------------------------------------------------------------
  // Unit status
  // ---------------------------------------------------------------------

  datatype Status = Idle | Decode | Request | Response | Max

  /** The `uint8_t` code of each status. */
  function StatusCode(s: Status): (c: nat)
    ensures c < 5
  {
    match s
    case Idle => 0
    case Decode => 1
    case Request => 2
    case Response => 3
    case Max => 4
  }

  function StatusOfCode(c: nat): (s: Option<Status>)
    ensures c < 5 <==> s.Some?
  {
    if c == 0 then Some(Idle)
    else if c == 1 then Some(Decode)
    else if c == 2 then Some(Request)
    else if c == 3 then Some(Response)
    else if c == 4 then Some(Max)
    else None
  }

  lemma StatusCodeRoundTrip(s: Status, c: nat)
    ensures StatusOfCode(StatusCode(s)) == Some(s)
    ensures StatusOfCode(c).Some? ==> StatusCode(StatusOfCode(c).value) == c
  {
  }

  /** `status_names`, indexed by status code. */
  const StatusNames: seq<string> := ["Idle", "Decode", "Request", "Response", "max"]

  /** Every status has its own entry in the name table. */
  lemma StatusNamesDistinct(s: Status, t: Status)
    ensures StatusCode(s) < |StatusNames|
    ensures s != t ==> StatusNames[StatusCode(s)] != StatusNames[StatusCode(t)]
  {
  }

  // ---------------------------------------------------------------------
  // Word, block and word-id arithmetic
  // ---------------------------------------------------------------------

  /**
   * The virtual address of stream value `i`: `base + word_size * i` in
   * unsigned 64-bit arithmetic, so a negative `i` wraps around.
   */
  function WordVaddr(base: Addr, i: int): (v: Addr)
    ensures (v - (base + WordSize * i)) % TwoTo64 == 0
  {
    (base + WordSize * i) % TwoTo64
  }

  /** An address aligned down to its 64-byte block. */
  function BlockAlign(v: Addr): (b: Addr)
    ensures b % BlockSize == 0
    ensures b <= v < b + BlockSize
  {
    v - v % BlockSize
  }

  /** The position of the word holding `v` inside its block. */
  function WordId(v: Addr): (w: U16)
    ensures w < WordsPerBlock
    ensures BlockAlign(v) + WordSize * w <= v < BlockAlign(v) + WordSize * (w + 1)
  {
    (v - BlockAlign(v)) / WordSize
  }

  /** The block alignment is the only 64-aligned address at or below `v` within one block. */
  lemma BlockAlignUnique(v: Addr, b: Addr)
    requires b % BlockSize == 0 && b <= v < b + BlockSize
    ensures BlockAlign(v) == b
  {
  }

  /** A word-aligned address is recovered from its block and its word id. */
  lemma {:induction false} WordIdRoundTrip(v: Addr)
    requires v % WordSize == 0
    ensures BlockAlign(v) + WordSize * WordId(v) == v
  {
    var q, r := v / BlockSize, v % BlockSize;
    assert v == BlockSize * q + r;
    assert v == WordSize * (v / WordSize);
    assert r == WordSize * (v / WordSize - 16 * q);
    assert BlockAlign(v) == v - r;
    assert WordId(v) == r / WordSize == v / WordSize - 16 * q;
  }

  /** Consecutive words of one block have consecutive word ids. */
  lemma NextWordSameBlock(v: Addr)
    requires v % WordSize == 0 && WordId(v) + 1 < WordsPerBlock && v + WordSize < TwoTo64
    ensures BlockAlign(v + WordSize) == BlockAlign(v)
    ensures WordId(v + WordSize) == WordId(v) + 1
  {
    WordIdRoundTrip(v);
    BlockAlignUnique(v + WordSize, BlockAlign(v));
  }

  // ---------------------------------------------------------------------
  // Outstanding read packets, ordered by tick
  // ---------------------------------------------------------------------

  /** A queued read: the physical block address to read and the tick it may be sent at. */
  datatype StreamPacket = StreamPacket(addr: Addr, tick: nat)

  /** `CompareByTick`: the order of the outstanding-packet multiset. */
  predicate TickBefore(a: StreamPacket, b: StreamPacket)
  {
    a.tick < b.tick
  }

  /** The comparator is a strict weak order whose equivalence is "same tick". */
  lemma TickBeforeIsStrictWeakOrder(a: StreamPacket, b: StreamPacket, c: StreamPacket)
    ensures !TickBefore(a, a)
    ensures TickBefore(a, b) && TickBefore(b, c) ==> TickBefore(a, c)
    ensures TickBefore(a, b) ==> !TickBefore(b, a)
    ensures !TickBefore(a, b) && !TickBefore(b, a) <==> a.tick == b.tick
  {
  }

  predicate SortedByTick(s: seq<StreamPacket>)
  {
    forall i, j :: 0 <= i < j < |s| ==> s[i].tick <= s[j].tick
  }

  /** The queue stays ordered when its earliest packet is removed. */
  lemma SortedTail(s: seq<StreamPacket>)
    requires SortedByTick(s) && s != []
    ensures SortedByTick(s[1..])
  {
    forall i, j | 0 <= i < j < |s| - 1
      ensures s[1..][i].tick <= s[1..][j].tick
    {
      assert s[1..][i] == s[i + 1] && s[1..][j] == s[j + 1];
    }
  }

  /** The number of leading packets whose tick is not later than `t`. */
  function UpperBound(s: seq<StreamPacket>, t: nat): (k: nat)
    ensures k <= |s|
    ensures forall i :: 0 <= i < k ==> s[i].tick <= t
    ensures SortedByTick(s) && k < |s| ==> forall i :: k <= i < |s| ==> s[i].tick > t
  {
    UpperBoundFrom(s, t, 0)
  }

  /** The first position at or after `i` whose packet is due after `t`, if the packets from `i` on are sorted. */
  function UpperBoundFrom(s: seq<StreamPacket>, t: nat, i: nat): (k: nat)
    requires i <= |s|
    requires forall j :: 0 <= j < i ==> s[j].tick <= t
    ensures i <= k <= |s|
    ensures forall j :: 0 <= j < k ==> s[j].tick <= t
    ensures k < |s| ==> s[k].tick > t
    decreases |s| - i
  {
    if i == |s| || s[i].tick > t then i else UpperBoundFrom(s, t, i + 1)
  }

  /**
   * Insertion into the multiset: a new packet goes after every packet with
   * the same or an earlier tick and before every later one.
   */
  function InsertByTick(s: seq<StreamPacket>, p: StreamPacket): (r: seq<StreamPacket>)
    ensures |r| == |s| + 1
  {
    var k := UpperBound(s, p.tick);
    s[..k] + [p] + s[k..]
  }

  /** Putting `p` at any position `k` adds exactly `p` to the contents. */
  lemma SpliceContents(s: seq<StreamPacket>, k: nat, p: StreamPacket)
    requires k <= |s|
    ensures multiset(s[..k] + [p] + s[k..]) == multiset(s) + multiset{p}
  {
    var a, b := s[..k], s[k..];
    assert s == a + b;
    calc {
      multiset(a + [p] + b);
      multiset(a + [p]) + multiset(b);
      multiset(a) + multiset{p} + multiset(b);
      multiset(a + b) + multiset{p};
    }
  }

  /** Insertion adds exactly the new packet to the queue's contents. */
  lemma InsertByTickContents(s: seq<StreamPacket>, p: StreamPacket)
    ensures multiset(InsertByTick(s, p)) == multiset(s) + multiset{p}
  {
    SpliceContents(s, UpperBound(s, p.tick), p);
  }

  /**
   * Inserting into a tick-ordered queue keeps it ordered, and the new packet
   * lands after every packet due no later than it and before every later one.
   */
  lemma InsertByTickPlacement(s: seq<StreamPacket>, p: StreamPacket)
    requires SortedByTick(s)
    ensures SortedByTick(InsertByTick(s, p))
    ensures var k := UpperBound(s, p.tick);
      && InsertByTick(s, p)[k] == p
      && (forall i :: 0 <= i < k ==> InsertByTick(s, p)[i] == s[i] && s[i].tick <= p.tick)
      && (forall i :: k <= i < |s| ==> InsertByTick(s, p)[i + 1] == s[i] && s[i].tick > p.tick)
  {
    var k := UpperBound(s, p.tick);
    var r := InsertByTick(s, p);
    assert forall i :: 0 <= i < k ==> r[i] == s[i];
    assert forall i :: k < i < |r| ==> r[i] == s[i - 1];
  }

  // ---------------------------------------------------------------------
  // The per-element meaning of the Request loop
  // ---------------------------------------------------------------------

  /** The decoded operands of a stream instruction. */
  datatype Stream = Stream(base: Addr, min: int, max: int, stride: int, condTile: int, tileElements: nat)

  /** The condition tile holds a word for every element when there is one. */
  predicate CondFits(st: Stream, cond: seq<int>)
  {
    st.condTile != -1 ==> |cond| >= st.tileElements
  }

  /** The loop variable `i` at element `k`: `min`, stepped `k` times by `stride`. */
  function ElementI(st: Stream, k: nat): int
  {
    if k == 0 then st.min else ElementI(st, k - 1) + st.stride
  }

  lemma {:induction false} ElementIClosedForm(st: Stream, k: nat)
    ensures ElementI(st, k) == st.min + k * st.stride
  {
    if k > 0 {
      ElementIClosedForm(st, k - 1);
      assert k * st.stride == (k - 1) * st.stride + st.stride;
    }
  }

  /** The loop test `i < max && idx < num_tile_elements` at element `k`. */
  predicate InLoop(st: Stream, k: nat)
  {
    ElementI(st, k) < st.max && k < st.tileElements
  }

  /** Every element `lo <= k < hi` passes the loop test. */
  predicate InLoopThrough(st: Stream, lo: nat, hi: nat)
    decreases hi
  {
    hi <= lo || (InLoopThrough(st, lo, hi - 1) && InLoop(st, hi - 1))
  }

  lemma {:induction false} InLoopThroughMeans(st: Stream, lo: nat, hi: nat)
    ensures InLoopThrough(st, lo, hi) <==> forall k: nat :: lo <= k < hi ==> InLoop(st, k)
    decreases hi
  {
    if hi > lo {
      InLoopThroughMeans(st, lo, hi - 1);
    }
  }

  /** Element `k` is selected when there is no condition tile or its condition word is non-zero. */
  predicate Selected(st: Stream, cond: seq<int>, k: nat)
    requires CondFits(st, cond) && k < st.tileElements
  {
    st.condTile == -1 || cond[k] != 0
  }

  /** The word address of element `k`: `base + 4*i` at that element's `i`. */
  function ElementVaddr(st: Stream, k: nat): Addr
  {
    WordVaddr(st.base, ElementI(st, k))
  }

  /** Element `k`'s word address is `base + 4*(min + k*stride)`, modulo 2^64. */
  lemma ElementVaddrClosedForm(st: Stream, k: nat)
    ensures (ElementVaddr(st, k) - (st.base + WordSize * (st.min + k * st.stride))) % TwoTo64 == 0
  {
    ElementIClosedForm(st, k);
  }

  /** One request-table entry the unit adds: element index, physical block, word id. */
  datatype TableRequest = TableRequest(itr: int, paddr: Addr, wid: U16)

  function ElementRequest(st: Stream, translate: Addr -> Addr, k: nat): (r: TableRequest)
    ensures r.itr == k && r.wid < WordsPerBlock
  {
    var v := ElementVaddr(st, k);
    TableRequest(k, translate(BlockAlign(v)), WordId(v))
  }

  /** The virtual blocks of the selected elements `lo <= k < hi`, in order. */
  function BlocksBetween(st: Stream, cond: seq<int>, lo: nat, hi: nat): (r: seq<Addr>)
    requires CondFits(st, cond) && lo <= hi <= st.tileElements
    ensures |r| <= hi - lo
    decreases hi - lo
  {
    if hi == lo then []
    else
      BlocksBetween(st, cond, lo, hi - 1)
      + (if Selected(st, cond, hi - 1) then [BlockAlign(ElementVaddr(st, hi - 1))] else [])
  }

  /** One more element extends the visited blocks and the requests by its own, when it is selected. */
  lemma BetweenStep(st: Stream, cond: seq<int>, translate: Addr -> Addr, lo: nat, k: nat)
    requires CondFits(st, cond) && lo <= k < st.tileElements
    ensures BlocksBetween(st, cond, lo, k + 1) ==
      BlocksBetween(st, cond, lo, k) + (if Selected(st, cond, k) then [BlockAlign(ElementVaddr(st, k))] else [])
    ensures RequestsBetween(st, cond, translate, lo, k + 1) ==
      RequestsBetween(st, cond, translate, lo, k) + (if Selected(st, cond, k) then [ElementRequest(st, translate, k)] else [])
  {
  }

  /** The entries after element `k`, following `req0` and the entries before `k`. */
  lemma RequestsStep(st: Stream, cond: seq<int>, translate: Addr -> Addr, req0: seq<TableRequest>, lo: nat, k: nat)
    requires CondFits(st, cond) && lo <= k < st.tileElements
    ensures Selected(st, cond, k) ==>
      req0 + RequestsBetween(st, cond, translate, lo, k + 1) ==
      req0 + RequestsBetween(st, cond, translate, lo, k) + [ElementRequest(st, translate, k)]
    ensures !Selected(st, cond, k) ==>
      req0 + RequestsBetween(st, cond, translate, lo, k + 1) == req0 + RequestsBetween(st, cond, translate, lo, k)
  {
    BetweenStep(st, cond, translate, lo, k);
  }

  /** The request-table entries for the selected elements `lo <= k < hi`, in order. */
  function RequestsBetween(st: Stream, cond: seq<int>, translate: Addr -> Addr, lo: nat, hi: nat): (r: seq<TableRequest>)
    requires CondFits(st, cond) && lo <= hi <= st.tileElements
    ensures |r| == |BlocksBetween(st, cond, lo, hi)|
    decreases hi - lo
  {
    if hi == lo then []
    else
      RequestsBetween(st, cond, translate, lo, hi - 1)
      + (if Selected(st, cond, hi - 1) then [ElementRequest(st, translate, hi - 1)] else [])
  }

  /** Request `j` is for the translation of the `j`-th visited block. */
  lemma {:induction false} RequestsBetweenBlocks(st: Stream, cond: seq<int>, translate: Addr -> Addr, lo: nat, hi: nat, j: nat)
    requires CondFits(st, cond) && lo <= hi <= st.tileElements
    requires j < |RequestsBetween(st, cond, translate, lo, hi)|
    ensures RequestsBetween(st, cond, translate, lo, hi)[j].paddr == translate(BlocksBetween(st, cond, lo, hi)[j])
    decreases hi - lo
  {
    if j < |RequestsBetween(st, cond, translate, lo, hi - 1)| {
      RequestsBetweenBlocks(st, cond, translate, lo, hi - 1, j);
    }
  }

  /** Every selected element in the range gets its request. */
  lemma {:induction false} RequestsBetweenComplete(st: Stream, cond: seq<int>, translate: Addr -> Addr, lo: nat, hi: nat, k: nat)
    requires CondFits(st, cond) && lo <= k < hi <= st.tileElements && Selected(st, cond, k)
    ensures ElementRequest(st, translate, k) in RequestsBetween(st, cond, translate, lo, hi)
    decreases hi - lo
  {
    var prefix := RequestsBetween(st, cond, translate, lo, hi - 1);
    if k < hi - 1 {
      RequestsBetweenComplete(st, cond, translate, lo, hi - 1, k);
      assert RequestsBetween(st, cond, translate, lo, hi)[..|prefix|] == prefix;
    } else {
      assert RequestsBetween(st, cond, translate, lo, hi) == prefix + [ElementRequest(st, translate, k)];
    }
  }

  /** `r` is the request of a selected element `lo <= k < hi`. */
  predicate RequestOf(st: Stream, cond: seq<int>, translate: Addr -> Addr, lo: nat, hi: nat, r: TableRequest)
    requires CondFits(st, cond) && hi <= st.tileElements
  {
    lo <= r.itr < hi && Selected(st, cond, r.itr) && r == ElementRequest(st, translate, r.itr)
  }

  /** Only selected elements in the range get a request, each with its own address arithmetic. */
  lemma {:induction false} RequestsBetweenSound(st: Stream, cond: seq<int>, translate: Addr -> Addr, lo: nat, hi: nat)
    requires CondFits(st, cond) && lo <= hi <= st.tileElements
    ensures forall r :: r in RequestsBetween(st, cond, translate, lo, hi) ==> RequestOf(st, cond, translate, lo, hi, r)
    decreases hi - lo
  {
    if hi > lo {
      RequestsBetweenSound(st, cond, translate, lo, hi - 1);
      var prefix := RequestsBetween(st, cond, translate, lo, hi - 1);
      if Selected(st, cond, hi - 1) {
        var e := ElementRequest(st, translate, hi - 1);
        assert RequestsBetween(st, cond, translate, lo, hi) == prefix + [e];
        assert RequestOf(st, cond, translate, lo, hi, e);
        forall r | r in prefix
          ensures RequestOf(st, cond, translate, lo, hi, r)
        {
          assert RequestOf(st, cond, translate, lo, hi - 1, r);
        }
      } else {
        assert RequestsBetween(st, cond, translate, lo, hi) == prefix;
        forall r | r in prefix
          ensures RequestOf(st, cond, translate, lo, hi, r)
        {
          assert RequestOf(st, cond, translate, lo, hi - 1, r);
        }
      }
    }
  }

  /** Requests come in increasing element order. */
  lemma {:induction false} RequestsBetweenOrdered(st: Stream, cond: seq<int>, translate: Addr -> Addr, lo: nat, hi: nat)
    requires CondFits(st, cond) && lo <= hi <= st.tileElements
    ensures forall i, j :: 0 <= i < j < |RequestsBetween(st, cond, translate, lo, hi)| ==>
      RequestsBetween(st, cond, translate, lo, hi)[i].itr < RequestsBetween(st, cond, translate, lo, hi)[j].itr
    decreases hi - lo
  {
    if hi > lo {
      RequestsBetweenOrdered(st, cond, translate, lo, hi - 1);
      RequestsBetweenSound(st, cond, translate, lo, hi - 1);
      var prefix := RequestsBetween(st, cond, translate, lo, hi - 1);
      var all := RequestsBetween(st, cond, translate, lo, hi);
      forall i, j | 0 <= i < j < |all|
        ensures all[i].itr < all[j].itr
      {
        if j < |prefix| {
          assert all[i] == prefix[i] && all[j] == prefix[j];
        } else {
          assert all[i] == prefix[i] && prefix[i] in prefix;
          assert all[j].itr == hi - 1;
        }
      }
    }
  }

  /**
   * The packet epochs of the Request loop, block by block: when the block
   * changes, the previous block's packet is created, unless the previous
   * block is 0, which the loop uses to mean "no block yet". A packet carries
   * its latency: the number of entries added before it in this call, that
   * is, the position of the block that closed its epoch.
   */
  function Emit(last: Addr, blocks: seq<Addr>): (r: (seq<(Addr, nat)>, Addr))
    decreases |blocks|
  {
    if |blocks| == 0 then ([], last)
    else
      var n: nat := |blocks| - 1;
      var e := Emit(last, blocks[..n]);
      var b := blocks[n];
      if b == e.1 then e
      else if e.1 != 0 then (e.0 + [(e.1, n)], b)
      else (e.0, b)
  }

  /** Emit followed by the packet for the block still open when the loop ends. */
  function Flush(last: Addr, blocks: seq<Addr>): seq<(Addr, nat)>
  {
    var e := Emit(last, blocks);
    if e.1 != 0 then e.0 + [(e.1, |blocks|)] else e.0
  }

  /** One selected element extends the epochs by at most the packet of the block it closes. */
  lemma EmitStep(last: Addr, blocks: seq<Addr>, b: Addr, pairs: seq<(Addr, nat)>, packet: seq<(Addr, nat)>)
    requires Emit(last, blocks).0 == pairs
    requires packet == (if b != Emit(last, blocks).1 && Emit(last, blocks).1 != 0 then [(Emit(last, blocks).1, |blocks|)] else [])
    ensures Emit(last, blocks + [b]) == (pairs + packet, b)
  {
    var bs := blocks + [b];
    assert bs[..|bs| - 1] == blocks && bs[|bs| - 1] == b;
    var e := Emit(last, blocks);
    var n: nat := |blocks|;
    assert Emit(last, bs) == if b == e.1 then e else if e.1 != 0 then (e.0 + [(e.1, n)], b) else (e.0, b);
    if b == e.1 {
      assert packet == [] && pairs + packet == pairs;
    } else if e.1 != 0 {
      assert packet == [(e.1, n)];
    } else {
      assert packet == [] && pairs + packet == pairs;
    }
  }

  /** The loop's open block is the last visited one, and no packet is for block 0. */
  lemma {:induction false} EmitShape(last: Addr, blocks: seq<Addr>)
    ensures Emit(last, blocks).1 == if |blocks| == 0 then last else blocks[|blocks| - 1]
    ensures forall p :: p in Emit(last, blocks).0 ==> p.0 != 0
    ensures forall p :: p in Emit(last, blocks).0 ==> p.0 == last || p.0 in blocks
    decreases |blocks|
  {
    if |blocks| > 0 {
      var n := |blocks| - 1;
      EmitShape(last, blocks[..n]);
      assert forall x :: x in blocks[..n] ==> x in blocks;
    }
  }

  /** Every visited block other than 0 gets a packet once the loop is flushed. */
  lemma {:induction false} FlushCoversBlocks(last: Addr, blocks: seq<Addr>)
    ensures forall b :: b in blocks && b != 0 ==> exists p :: p in Flush(last, blocks) && p.0 == b
    decreases |blocks|
  {
    if |blocks| > 0 {
      var n := |blocks| - 1;
      FlushCoversBlocks(last, blocks[..n]);
      EmitShape(last, blocks[..n]);
      EmitShape(last, blocks);
      forall b | b in blocks && b != 0
        ensures exists p :: p in Flush(last, blocks) && p.0 == b
      {
        var e := Emit(last, blocks[..n]);
        if b == blocks[n] {
          assert (b, |blocks|) in Flush(last, blocks);
        } else {
          assert b in blocks[..n];
          var p :| p in Flush(last, blocks[..n]) && p.0 == b;
          if p in e.0 {
            assert p in Emit(last, blocks).0;
          } else {
            assert p == (e.1, n);
            assert e.1 != blocks[n];
            assert (e.1, n) in Emit(last, blocks).0;
          }
        }
      }
    }
  }

  /** The block 0 never gets a packet: entries for it are never answered. */
  lemma ZeroBlockNeverSent(blocks: seq<Addr>)
    ensures forall p :: p in Flush(0, blocks) ==> p.0 != 0
  {
    EmitShape(0, blocks);
  }

  /** The packets created for `ps`: translated block address, sent at `now` plus the latency. */
  function Packets(ps: seq<(Addr, nat)>, translate: Addr -> Addr, now: nat): (r: seq<StreamPacket>)
    ensures |r| == |ps|
    decreases |ps|
  {
    if |ps| == 0 then []
    else Packets(ps[..|ps| - 1], translate, now) + [StreamPacket(translate(ps[|ps| - 1].0), now + ps[|ps| - 1].1)]
  }

  /** Packet `i` reads the translation of block `i` and is due its latency after `now`. */
  lemma {:induction false} PacketsIndex(ps: seq<(Addr, nat)>, translate: Addr -> Addr, now: nat, i: nat)
    requires i < |ps|
    ensures Packets(ps, translate, now)[i] == StreamPacket(translate(ps[i].0), now + ps[i].1)
    decreases |ps|
  {
    if i < |ps| - 1 {
      PacketsIndex(ps[..|ps| - 1], translate, now, i);
    }
  }

  lemma {:induction false} PacketsAppend(ps: seq<(Addr, nat)>, qs: seq<(Addr, nat)>, translate: Addr -> Addr, now: nat)
    ensures Packets(ps + qs, translate, now) == Packets(ps, translate, now) + Packets(qs, translate, now)
    decreases |qs|
  {
    if |qs| == 0 {
      assert ps + qs == ps;
    } else {
      var n := |qs| - 1;
      assert (ps + qs)[..|ps + qs| - 1] == ps + qs[..n];
      PacketsAppend(ps, qs[..n], translate, now);
    }
  }

  /** A queue holding `q0` plus the packets `a` holds `q0` plus `a + b` once `b` is added too. */
  lemma QueueGrows(q: seq<StreamPacket>, q0: seq<StreamPacket>, a: seq<StreamPacket>, b: seq<StreamPacket>, q': seq<StreamPacket>)
    requires multiset(q) == multiset(q0) + multiset(a)
    requires multiset(q') == multiset(q) + multiset(b)
    ensures multiset(q') == multiset(q0) + multiset(a + b)
  {
    assert multiset(a + b) == multiset(a) + multiset(b);
  }

  // ---------------------------------------------------------------------
  // The unit
  // ---------------------------------------------------------------------

  /** The instruction status values the unit writes. */
  datatype InstructionStatus = Waiting | Service | Finish

  /** The fields of a stream instruction the unit reads, and the status it advances. */
  class Instruction {
    const dst1SpdID: int
    const condSpdID: int
    const src1RegID: int
    const src2RegID: int
    const src3RegID: int
    const baseAddr: Addr
    var state: InstructionStatus

    constructor (dst1SpdID: int, condSpdID: int, src1RegID: int, src2RegID: int, src3RegID: int, baseAddr: Addr)
      ensures this.dst1SpdID == dst1SpdID && this.condSpdID == condSpdID
      ensures this.src1RegID == src1RegID && this.src2RegID == src2RegID && this.src3RegID == src3RegID
      ensures this.baseAddr == baseAddr && state == Waiting
    {
      this.dst1SpdID := dst1SpdID;
      this.condSpdID := condSpdID;
      this.src1RegID := src1RegID;
      this.src2RegID := src2RegID;
      this.src3RegID := src3RegID;
      this.baseAddr := baseAddr;
      state := Waiting;
    }
  }

  /** What one `executeInstruction` call ends with. */
  datatype ExecOutcome =
    | Stalled                 // an earlier access is still in flight, or the table is full
    | TableFull               // `add_entry` found no slot; the element is retried later
    | AwaitingResponses       // every element is requested; responses are outstanding
    | Finished(dstTile: int, size: int, tableClear: bool)  // `tableClear` false: `check_reset` panics
    | EntryAssertionFailed    // `add_entry`'s assertion that the slot has a free entry fails
    | ExecutionNotCompleted   // the Response state's first `panic_if`: an access of this call is in flight
    | SendingNotCompleted     // the Response state's second `panic_if`: a read packet is still queued

  /** The condition-tile reads of the elements `lo <= k < hi`: one each when there is a condition tile. */
  function SpdReads(st: Stream, lo: int, hi: int): (n: nat)
    ensures n <= (if lo <= hi then hi - lo else 0)
    ensures st.condTile == -1 ==> n == 0
  {
    if st.condTile != -1 && lo <= hi then hi - lo else 0
  }

  /**
   * The first check of the Response state, `scheduleNextExecution()`: a
   * finish tick set by this call lies after the current tick. The call's
   * `accesses` request-table accesses finish that many cycles on, and its
   * `spdReads` condition-tile reads after the scratchpad's latency for them.
   */
  predicate InFlight(accesses: nat, spdReads: nat, spdReadLatency: nat -> nat)
  {
    accesses > 0 || spdReadLatency(spdReads) > 0
  }

  /** What the Request loop ends with. */
  datatype FillResult = Filled | FillTableFull | FillEntryAssertionFailed

  /** How the element loop ended in a call that ran it. */
  function FillOf(outcome: ExecOutcome): FillResult
  {
    match outcome
    case TableFull => FillTableFull
    case EntryAssertionFailed => FillEntryAssertionFailed
    case _ => Filled
  }

  class StreamAccessUnit {
    const table: RequestTable
    const numTileElements: nat
    var state: Status
    var instruction: Instruction?
    var myDstTile: int
    var myCondTile: int
    var myMin: int
    var myMax: int
    var myStride: int
    var myI: int
    var myIdx: int
    var myBaseAddr: Addr
    var myLastBlockVaddr: Addr
    var receivedResponses: int
    var sentRequests: int
    var outstanding: seq<StreamPacket>
    /** The table entries added for the current instruction, in order. */
    ghost var requested: seq<TableRequest>

    /** The decoded operands. */
    function Decoded(): Stream
      reads this
    {
      Stream(myBaseAddr, myMin, myMax, myStride, myCondTile, numTileElements)
    }

    ghost predicate Valid()
      reads this, instruction, table.entries, table.entriesValid, table.addresses, table.addressesValid
    {
      && table.Valid()
      && table.WordIdsBelow(WordsPerBlock)
      && numTileElements < 0x8000_0000
      && (state == Idle || state == Request)
      && (state == Request ==>
            && instruction != null && instruction.state == Service
            && 0 <= myIdx <= numTileElements
            && myI == ElementI(Decoded(), myIdx))
      && SortedByTick(outstanding)
    }

    /** `allocate`: an idle unit with an empty table. */
    constructor (numTileElements: nat)
      requires numTileElements < 0x8000_0000
      ensures Valid() && state == Idle && instruction == null && outstanding == []
      ensures this.numTileElements == numTileElements && myDstTile == -1
      ensures table.Clear()
      ensures fresh(table) && fresh(table.entries) && fresh(table.entriesValid)
      ensures fresh(table.addresses) && fresh(table.addressesValid)
    {
      this.numTileElements := numTileElements;
      state := Idle;
      myDstTile := -1;
      table := new RequestTable();
      instruction := null;
      outstanding := [];
      requested := [];
    }

    /** `setInstruction`: the unit must not hold an instruction already. */
    method SetInstruction(inst: Instruction)
      requires instruction == null
      modifies this
      ensures instruction == inst
      ensures state == old(state) && outstanding == old(outstanding) && Decoded() == old(Decoded())
    {
      instruction := inst;
    }

    /**
     * `executeInstruction`. `rf` gives the register file contents,
     * `cond` the words of the condition tile, `translate` the MMU;
     * `executionPending` says whether an SPD or request-table access of an
     * earlier call is still in flight, `spdReadLatency` is the scratchpad's
     * latency in cycles for a number of reads, and `now` is the current
     * tick, taken to be a clock edge. An idle unit decodes first, which
     * sets every finish tick to `now`, so it never stalls; the Request
     * state then runs the element loop, and the unit finishes once every
     * sent request has been answered and nothing of this call is pending.
     */
    method ExecuteInstruction(rf: int -> int, cond: seq<int>, translate: Addr -> Addr, executionPending: bool,
                              spdReadLatency: nat -> nat, now: nat)
      returns (outcome: ExecOutcome)
      requires Valid()
      requires instruction != null
      requires state == Idle ==>
        IsInt32(rf(instruction.src1RegID)) && IsInt32(rf(instruction.src2RegID)) && IsInt32(rf(instruction.src3RegID))
      requires (if state == Idle then instruction.condSpdID else myCondTile) != -1 ==> |cond| >= numTileElements
      modifies this, instruction, table.entries, table.entriesValid, table.addresses, table.addressesValid
      ensures Valid()
      // decoding happens only for a unit that was idle
      ensures old(state) == Idle ==>
        && Decoded() == Stream(old(instruction.baseAddr), rf(old(instruction.src1RegID)), rf(old(instruction.src2RegID)),
                               rf(old(instruction.src3RegID)), old(instruction.condSpdID), numTileElements)
        && myDstTile == old(instruction.dst1SpdID)
      ensures old(state) == Request ==> Decoded() == old(Decoded()) && myDstTile == old(myDstTile)
      // the Request loop, resumed where the previous call left it or started afresh
      ensures
        var lo := if old(state) == Idle then 0 else old(myIdx);
        var last0 := if old(state) == Idle then 0 else old(myLastBlockVaddr);
        var sent0 := if old(state) == Idle then 0 else old(sentRequests);
        var req0 := if old(state) == Idle then [] else old(requested);
        && receivedResponses == (if old(state) == Idle then 0 else old(receivedResponses))
        && (outcome == Stalled <==> old(state) != Idle && (executionPending || old(table.Full())))
        && (outcome == Stalled ==>
              myIdx == lo && requested == req0 && sentRequests == sent0
              && myLastBlockVaddr == last0 && outstanding == old(outstanding))
        && (outcome != Stalled ==>
              FillEffect(lo, last0, sent0, req0, old(outstanding), cond, translate, now, FillOf(outcome)))
        // the checks of the Response state
        && (outcome == ExecutionNotCompleted ==>
              receivedResponses == sentRequests && InFlight(|requested| - |req0|, SpdReads(Decoded(), lo, myIdx), spdReadLatency))
        && (outcome == SendingNotCompleted ==>
              receivedResponses == sentRequests && !InFlight(|requested| - |req0|, SpdReads(Decoded(), lo, myIdx), spdReadLatency) && outstanding != [])
        && (outcome.Finished? ==> !InFlight(|requested| - |req0|, SpdReads(Decoded(), lo, myIdx), spdReadLatency) && outstanding == [])
      // the state order
      ensures outcome.Finished? <==> state == Idle
      ensures outcome.Finished? ==>
        && receivedResponses == sentRequests
        && instruction == null && old(instruction).state == Finish
        && outcome.dstTile == myDstTile && outcome.size == myIdx
        && (outcome.tableClear <==> table.Clear())
      ensures outcome == AwaitingResponses ==> receivedResponses != sentRequests
      ensures !outcome.Finished? ==> state == Request && instruction == old(instruction)
    {
      var resumed := state != Idle;
      if !resumed {
        DecodeInstruction(rf(instruction.src1RegID), rf(instruction.src2RegID), rf(instruction.src3RegID));
        ClearTableNotFull(table);
      }
      outcome := RunRequest(cond, translate, resumed && executionPending, spdReadLatency, now);
    }

    /**
     * The Request state, then the Response state once every request has
     * been answered. Its checks stop the simulation when an access of this
     * call has not completed by `now` or a read packet is still queued.
     */
    method RunRequest(cond: seq<int>, translate: Addr -> Addr, executionPending: bool, spdReadLatency: nat -> nat, now: nat)
      returns (outcome: ExecOutcome)
      requires Valid() && state == Request && CondFits(Decoded(), cond)
      modifies this, instruction, table.entries, table.entriesValid, table.addresses, table.addressesValid
      ensures Valid()
      ensures Decoded() == old(Decoded()) && myDstTile == old(myDstTile) && receivedResponses == old(receivedResponses)
      ensures outcome == Stalled <==> executionPending || old(table.Full())
      ensures outcome == Stalled ==>
        && myIdx == old(myIdx) && requested == old(requested) && sentRequests == old(sentRequests)
        && myLastBlockVaddr == old(myLastBlockVaddr) && outstanding == old(outstanding)
      ensures outcome != Stalled ==>
        FillEffect(old(myIdx), old(myLastBlockVaddr), old(sentRequests), old(requested), old(outstanding),
                   cond, translate, now, FillOf(outcome))
      ensures outcome.Finished? <==> state == Idle
      ensures outcome.Finished? ==>
        && receivedResponses == sentRequests
        && instruction == null && old(instruction).state == Finish
        && outcome.dstTile == myDstTile && outcome.size == myIdx
        && (outcome.tableClear <==> table.Clear())
      ensures outcome == AwaitingResponses ==> receivedResponses != sentRequests
      ensures outcome == ExecutionNotCompleted ==>
        receivedResponses == sentRequests && InFlight(|requested| - |old(requested)|, SpdReads(Decoded(), old(myIdx), myIdx), spdReadLatency)
      ensures outcome == SendingNotCompleted ==>
        receivedResponses == sentRequests && !InFlight(|requested| - |old(requested)|, SpdReads(Decoded(), old(myIdx), myIdx), spdReadLatency) && outstanding != []
      ensures outcome.Finished? ==> !InFlight(|requested| - |old(requested)|, SpdReads(Decoded(), old(myIdx), myIdx), spdReadLatency) && outstanding == []
      ensures !outcome.Finished? ==> state == Request && instruction == old(instruction)
    {
      if executionPending {
        return Stalled;
      }
      var full := table.IsFull();
      if full {
        return Stalled;
      }
      outcome := FillAndRespond(cond, translate, spdReadLatency, now);
    }

    /** The Request state past its stall test, then the Response state. */
    method FillAndRespond(cond: seq<int>, translate: Addr -> Addr, spdReadLatency: nat -> nat, now: nat)
      returns (outcome: ExecOutcome)
      requires Valid() && state == Request && CondFits(Decoded(), cond)
      modifies this, instruction, table.entries, table.entriesValid, table.addresses, table.addressesValid
      ensures Valid() && outcome != Stalled
      ensures Decoded() == old(Decoded()) && myDstTile == old(myDstTile) && receivedResponses == old(receivedResponses)
      ensures FillEffect(old(myIdx), old(myLastBlockVaddr), old(sentRequests), old(requested), old(outstanding),
                         cond, translate, now, FillOf(outcome))
      ensures outcome.Finished? <==> state == Idle
      ensures outcome.Finished? ==>
        && receivedResponses == sentRequests
        && instruction == null && old(instruction).state == Finish
        && outcome.dstTile == myDstTile && outcome.size == myIdx
        && (outcome.tableClear <==> table.Clear())
      ensures outcome == AwaitingResponses ==> receivedResponses != sentRequests
      ensures outcome == ExecutionNotCompleted ==>
        receivedResponses == sentRequests && InFlight(|requested| - |old(requested)|, SpdReads(Decoded(), old(myIdx), myIdx), spdReadLatency)
      ensures outcome == SendingNotCompleted ==>
        receivedResponses == sentRequests && !InFlight(|requested| - |old(requested)|, SpdReads(Decoded(), old(myIdx), myIdx), spdReadLatency) && outstanding != []
      ensures outcome.Finished? ==> !InFlight(|requested| - |old(requested)|, SpdReads(Decoded(), old(myIdx), myIdx), spdReadLatency) && outstanding == []
      ensures !outcome.Finished? ==> state == Request && instruction == old(instruction)
    {
      var idx0 := myIdx;
      var fill, accesses := FillRequests(cond, translate, now);
      if fill == FillTableFull {
        outcome := TableFull;
      } else if fill == FillEntryAssertionFailed {
        outcome := EntryAssertionFailed;
      } else if receivedResponses != sentRequests {
        outcome := AwaitingResponses;
      } else {
        outcome := Respond(accesses, idx0, spdReadLatency, old(myLastBlockVaddr), old(sentRequests), old(requested),
                           old(outstanding), cond, translate, now);
      }
    }

    /**
     * The Response state, reached in a call whose element loop started at
     * element `lo` and made `accesses` request-table accesses. Its checks
     * stop the simulation when an access of this call is still in flight
     * or a read packet still waits in the queue; otherwise the instruction
     * is finished.
     */
    method Respond(accesses: nat, lo: nat, spdReadLatency: nat -> nat,
                   ghost last0: Addr, ghost sent0: int, ghost req0: seq<TableRequest>,
                   ghost out0: seq<StreamPacket>, ghost cond: seq<int>, ghost translate: Addr -> Addr, ghost now: nat)
      returns (outcome: ExecOutcome)
      requires Valid() && state == Request && receivedResponses == sentRequests
      requires FillEffect(lo, last0, sent0, req0, out0, cond, translate, now, Filled)
      requires |requested| == |req0| + accesses
      modifies this, instruction
      ensures outcome == ExecutionNotCompleted <==> InFlight(accesses, SpdReads(Decoded(), lo, myIdx), spdReadLatency)
      ensures outcome == SendingNotCompleted <==> !InFlight(accesses, SpdReads(Decoded(), lo, myIdx), spdReadLatency) && outstanding != []
      ensures outcome.Finished? <==> !InFlight(accesses, SpdReads(Decoded(), lo, myIdx), spdReadLatency) && outstanding == []
      ensures Valid() && FillEffect(lo, last0, sent0, req0, out0, cond, translate, now, Filled)
      ensures !outcome.Finished? ==> unchanged(this) && instruction != null && unchanged(instruction)
      ensures outcome.Finished? ==>
        && Valid() && state == Idle && instruction == null && old(instruction).state == Finish
        && Decoded() == old(Decoded()) && myIdx == old(myIdx) && requested == old(requested)
        && myLastBlockVaddr == old(myLastBlockVaddr) && sentRequests == old(sentRequests)
        && outstanding == old(outstanding) && receivedResponses == old(receivedResponses)
        && myDstTile == old(myDstTile)
        && outcome == Finished(myDstTile, myIdx, table.Clear())
    {
      var inFlight, queued := ResponseChecks(accesses, lo, spdReadLatency);
      if inFlight {
        return ExecutionNotCompleted;
      }
      if queued {
        return SendingNotCompleted;
      }
      outcome := RespondInstruction(lo, last0, sent0, req0, out0, cond, translate, now);
    }

    /**
     * The Decode state: takes the operands (the values of the three source
     * registers), resets the table and starts the element loop at `min`.
     */
    method DecodeInstruction(min: int, max: int, stride: int)
      requires Valid() && state == Idle && instruction != null
      requires IsInt32(min) && IsInt32(max) && IsInt32(stride)
      modifies this, instruction`state, table.entriesValid, table.addressesValid
      ensures Valid() && state == Request && instruction == old(instruction)
      ensures Decoded() == Stream(instruction.baseAddr, min, max, stride, instruction.condSpdID, numTileElements)
      ensures myDstTile == instruction.dst1SpdID
      ensures myIdx == 0 && myLastBlockVaddr == 0 && sentRequests == 0 && receivedResponses == 0
      ensures requested == [] && outstanding == old(outstanding)
      ensures table.Clear()
    {
      state := Decode;
      LoadOperands(min, max, stride);
      table.Reset();
      ClearCounters();
      instruction.state := Service;
      state := Request;
    }

    /** Decoding the instruction's operands and starting the element loop at `min`. */
    method LoadOperands(min: int, max: int, stride: int)
      requires instruction != null
      modifies this
      ensures state == old(state) && instruction == old(instruction) && outstanding == old(outstanding)
      ensures myBaseAddr == instruction.baseAddr && myCondTile == instruction.condSpdID
      ensures myMin == min && myMax == max && myStride == stride
      ensures myDstTile == instruction.dst1SpdID && myI == min && myIdx == 0
    {
      myDstTile, myCondTile := instruction.dst1SpdID, instruction.condSpdID;
      myMin, myMax, myStride := min, max, stride;
      myI, myIdx, myBaseAddr := min, 0, instruction.baseAddr;
    }

    /** The response and request counters start at zero, with no block open and no entry requested. */
    method ClearCounters()
      modifies this
      ensures receivedResponses == 0 && sentRequests == 0 && myLastBlockVaddr == 0 && requested == []
      ensures state == old(state) && instruction == old(instruction) && outstanding == old(outstanding)
      ensures Decoded() == old(Decoded()) && myDstTile == old(myDstTile) && myI == old(myI) && myIdx == old(myIdx)
    {
      receivedResponses, sentRequests := 0, 0;
      myLastBlockVaddr := 0;
      requested := [];
    }

    /**
     * The checks of the Response state, for a call whose element loop
     * started at element `lo` and made `accesses` request-table accesses:
     * whether an access of this call is still in flight, and whether a
     * read packet still waits in the queue.
     */
    method ResponseChecks(accesses: nat, lo: nat, spdReadLatency: nat -> nat)
      returns (inFlight: bool, queued: bool)
      ensures inFlight <==> InFlight(accesses, SpdReads(Decoded(), lo, myIdx), spdReadLatency)
      ensures queued <==> outstanding != []
    {
      var spdReads: nat := if myCondTile != -1 && lo <= myIdx then myIdx - lo else 0;
      inFlight := accesses > 0 || spdReadLatency(spdReads) > 0;
      queued := outstanding != [];
    }

    /**
     * The Response state once its checks have passed: the instruction is
     * finished and the unit is idle again. The ghost parameters describe
     * what the element loop did, which answering keeps.
     */
    method RespondInstruction(ghost lo: nat, ghost last0: Addr, ghost sent0: int, ghost req0: seq<TableRequest>,
                              ghost out0: seq<StreamPacket>, ghost cond: seq<int>, ghost translate: Addr -> Addr, ghost now: nat)
      returns (outcome: ExecOutcome)
      requires Valid() && state == Request && receivedResponses == sentRequests
      requires FillEffect(lo, last0, sent0, req0, out0, cond, translate, now, Filled)
      modifies this, instruction
      ensures Valid() && state == Idle && instruction == null && old(instruction).state == Finish
      ensures Decoded() == old(Decoded()) && myIdx == old(myIdx) && requested == old(requested)
      ensures myLastBlockVaddr == old(myLastBlockVaddr) && sentRequests == old(sentRequests)
      ensures outstanding == old(outstanding) && receivedResponses == old(receivedResponses)
      ensures myDstTile == old(myDstTile)
      ensures outcome == Finished(myDstTile, myIdx, table.Clear())
      ensures FillEffect(lo, last0, sent0, req0, out0, cond, translate, now, Filled)
    {
      state := Response;
      instruction.state := Finish;
      state := Idle;
      var dst := myDstTile;
      var size := myIdx;
      instruction := null;
      var clear := table.CheckReset();
      return Finished(dst, size, clear);
    }

    /**
     * What the element loop has done since it started at element `lo` with
     * the open block `last0`, `sent0` sent requests, the entries `req0` and
     * the queue `out0`, given how it ended: the elements it passed all met
     * the loop test; the selected ones got their entries in order; every
     * block closed on the way got its packet. It stops either past the
     * stream, with the last open block flushed, or at a selected element
     * whose entry the table refused.
     */
    ghost predicate FillEffect(lo: nat, last0: Addr, sent0: int, req0: seq<TableRequest>, out0: seq<StreamPacket>,
                               cond: seq<int>, translate: Addr -> Addr, now: nat, r: FillResult)
      reads this, table.addresses, table.addressesValid
    {
      && CondFits(Decoded(), cond)
      && lo <= myIdx <= numTileElements
      && InLoopThrough(Decoded(), lo, myIdx)
      && requested == req0 + RequestsBetween(Decoded(), cond, translate, lo, myIdx)
      && (r == Filled ==>
            && !InLoop(Decoded(), myIdx) && myLastBlockVaddr == 0
            && var ps := Flush(last0, BlocksBetween(Decoded(), cond, lo, myIdx));
               sentRequests == sent0 + |ps|
               && multiset(outstanding) == multiset(out0) + multiset(Packets(ps, translate, now)))
      && (r != Filled ==>
            && myIdx < numTileElements && InLoop(Decoded(), myIdx) && Selected(Decoded(), cond, myIdx)
            && var e := Emit(last0, BlocksBetween(Decoded(), cond, lo, myIdx + 1));
               myLastBlockVaddr == e.1 && sentRequests == sent0 + |e.0|
               && multiset(outstanding) == multiset(out0) + multiset(Packets(e.0, translate, now)))
      && (r == FillTableFull ==> !table.Present(ElementRequest(Decoded(), translate, myIdx).paddr) && table.Full())
    }

    /**
     * The element loop of the Request state and the packet for the block
     * still open at its end.
     */
    method FillRequests(cond: seq<int>, translate: Addr -> Addr, now: nat) returns (r: FillResult, accesses: nat)
      requires Valid() && state == Request
      requires CondFits(Decoded(), cond)
      modifies this, table.entries, table.entriesValid, table.addresses, table.addressesValid
      ensures Valid() && state == Request && instruction == old(instruction)
      ensures r == Filled ==> |requested| == |old(requested)| + accesses
      ensures Decoded() == old(Decoded()) && myDstTile == old(myDstTile) && receivedResponses == old(receivedResponses)
      ensures FillEffect(old(myIdx), old(myLastBlockVaddr), old(sentRequests), old(requested), old(outstanding),
                         cond, translate, now, r)
    {
      ghost var st := Decoded();
      ghost var lo: nat := myIdx;
      ghost var last0 := myLastBlockVaddr;
      ghost var sent0 := sentRequests;
      ghost var req0 := requested;
      ghost var out0 := outstanding;
      assert requested == req0 + RequestsBetween(st, cond, translate, lo, myIdx);
      var latency;
      ghost var blocks, pairs;
      r, latency, blocks, pairs := ElementLoop(cond, translate, now, st, lo, last0, sent0, req0, out0);
      accesses := latency;
      if r != Filled {
        return;
      }
      ghost var q := outstanding;
      ghost var packet := CloseOpenBlock(translate, now, latency);
      PacketsAppend(pairs, packet, translate, now);
      QueueGrows(q, out0, Packets(pairs, translate, now), Packets(packet, translate, now), outstanding);
      assert Flush(last0, blocks) == pairs + packet;
    }

    /**
     * The loop `for (; i < max && idx < num_tile_elements; i += stride, idx++)`:
     * it ends past the stream, or at a selected element whose entry the
     * table refused. `latency` counts the entries added.
     */
    method ElementLoop(cond: seq<int>, translate: Addr -> Addr, now: nat,
                       ghost st: Stream, ghost lo: nat, ghost last0: Addr, ghost sent0: int,
                       ghost req0: seq<TableRequest>, ghost out0: seq<StreamPacket>)
      returns (r: FillResult, latency: nat, ghost blocks: seq<Addr>, ghost pairs: seq<(Addr, nat)>)
      requires FillState(st, cond, translate, now, lo, last0, sent0, req0, out0, [], [])
      modifies this, table.entries, table.entriesValid, table.addresses, table.addressesValid
      ensures Unmoved()
      ensures r == Filled ==>
        FillState(st, cond, translate, now, lo, last0, sent0, req0, out0, blocks, pairs)
        && !InLoop(st, myIdx) && latency == |blocks|
      ensures r != Filled ==>
        Valid() && state == Request && FillEffect(lo, last0, sent0, req0, out0, cond, translate, now, r)
    {
      blocks, pairs := [], [];
      latency := 0;
      while myI < myMax && myIdx < numTileElements
        invariant FillState(st, cond, translate, now, lo, last0, sent0, req0, out0, blocks, pairs)
        invariant Unmoved()
        invariant latency == |blocks|
        decreases numTileElements - myIdx
      {
        if myCondTile == -1 || cond[myIdx] != 0 {
          var added;
          added, blocks, pairs := VisitSelected(cond, translate, now, latency,
                                                st, lo, last0, sent0, req0, out0, blocks, pairs);
          match added {
            case Added =>
              StepPast(st, cond, translate, now, lo, last0, sent0, req0, out0, blocks, pairs);
              latency := latency + 1;
            case NoFreeAddress =>
              RefusedEffect(st, cond, translate, now, lo, last0, sent0, req0, out0, blocks, pairs, FillTableFull);
              return FillTableFull, latency, blocks, pairs;
            case NoFreeEntry =>
              RefusedEffect(st, cond, translate, now, lo, last0, sent0, req0, out0, blocks, pairs, FillEntryAssertionFailed);
              return FillEntryAssertionFailed, latency, blocks, pairs;
          }
        } else {
          SkipElement(cond, translate, now, st, lo, last0, sent0, req0, out0, blocks, pairs);
        }
      }
      return Filled, latency, blocks, pairs;
    }

    /** The loop state at an element the table refused is a `FillEffect` that ends there. */
    lemma RefusedEffect(st: Stream, cond: seq<int>, translate: Addr -> Addr, now: nat, lo: nat, last0: Addr,
                        sent0: int, req0: seq<TableRequest>, out0: seq<StreamPacket>,
                        blocks: seq<Addr>, pairs: seq<(Addr, nat)>, r: FillResult)
      requires Decoded() == st && CondFits(st, cond) && r != Filled
      requires lo <= myIdx < numTileElements && InLoopThrough(st, lo, myIdx + 1)
      requires blocks == BlocksBetween(st, cond, lo, myIdx + 1) && |blocks| > |BlocksBetween(st, cond, lo, myIdx)|
      requires Emit(last0, blocks) == (pairs, myLastBlockVaddr)
      requires requested == req0 + RequestsBetween(st, cond, translate, lo, myIdx)
      requires sentRequests == sent0 + |pairs|
      requires multiset(outstanding) == multiset(out0) + multiset(Packets(pairs, translate, now))
      requires r == FillTableFull ==> !table.Present(ElementRequest(st, translate, myIdx).paddr) && table.Full()
      ensures FillEffect(lo, last0, sent0, req0, out0, cond, translate, now, r)
    {
    }

    /**
     * The state of the element loop after the elements `lo <= k < myIdx`,
     * starting from the open block `last0`, `sent0` sent requests, the
     * entries `req0` and the queue `out0`: `blocks` are the blocks of the
     * selected elements and `pairs` the packets created so far.
     */
    ghost predicate FillState(st: Stream, cond: seq<int>, translate: Addr -> Addr, now: nat, lo: nat, last0: Addr,
                              sent0: int, req0: seq<TableRequest>, out0: seq<StreamPacket>,
                              blocks: seq<Addr>, pairs: seq<(Addr, nat)>)
      reads this, instruction, table.entries, table.entriesValid, table.addresses, table.addressesValid
    {
      && Valid() && state == Request && Decoded() == st && CondFits(st, cond)
      && lo <= myIdx <= numTileElements
      && InLoopThrough(st, lo, myIdx)
      && blocks == BlocksBetween(st, cond, lo, myIdx)
      && requested == req0 + RequestsBetween(st, cond, translate, lo, myIdx)
      && Emit(last0, blocks) == (pairs, myLastBlockVaddr)
      && sentRequests == sent0 + |pairs|
      && multiset(outstanding) == multiset(out0) + multiset(Packets(pairs, translate, now))
    }

    /**
     * The loop state once element `myIdx` has been handled and before `i`
     * and `idx` step past it: `FillState` with the element counted.
     */
    ghost predicate Visited(st: Stream, cond: seq<int>, translate: Addr -> Addr, now: nat, lo: nat, last0: Addr,
                            sent0: int, req0: seq<TableRequest>, out0: seq<StreamPacket>,
                            blocks: seq<Addr>, pairs: seq<(Addr, nat)>)
      reads this, instruction, table.entries, table.entriesValid, table.addresses, table.addressesValid
    {
      && Valid() && state == Request && Decoded() == st && CondFits(st, cond)
      && lo <= myIdx < numTileElements
      && InLoopThrough(st, lo, myIdx + 1)
      && blocks == BlocksBetween(st, cond, lo, myIdx + 1)
      && requested == req0 + RequestsBetween(st, cond, translate, lo, myIdx + 1)
      && Emit(last0, blocks) == (pairs, myLastBlockVaddr)
      && sentRequests == sent0 + |pairs|
      && multiset(outstanding) == multiset(out0) + multiset(Packets(pairs, translate, now))
    }

    /**
     * A selected element that passes the loop test is requested: its block
     * is entered and it gets its table entry, unless `add_entry` refuses it.
     */
    method VisitSelected(cond: seq<int>, translate: Addr -> Addr, now: nat, latency: nat,
                         ghost st: Stream, ghost lo: nat, ghost last0: Addr, ghost sent0: int,
                         ghost req0: seq<TableRequest>, ghost out0: seq<StreamPacket>,
                         ghost blocks: seq<Addr>, ghost pairs: seq<(Addr, nat)>)
      returns (added: AddResult, ghost blocks': seq<Addr>, ghost pairs': seq<(Addr, nat)>)
      requires FillState(st, cond, translate, now, lo, last0, sent0, req0, out0, blocks, pairs)
      requires latency == |blocks|
      requires myI < myMax && myIdx < numTileElements && Selected(st, cond, myIdx)
      modifies this, table.entries, table.entriesValid, table.addresses, table.addressesValid
      ensures Unmoved() && myIdx == old(myIdx)
      ensures blocks' == BlocksBetween(st, cond, lo, myIdx + 1) && |blocks'| == |blocks| + 1
      ensures added == Added ==> Visited(st, cond, translate, now, lo, last0, sent0, req0, out0, blocks', pairs')
      ensures added != Added ==>
        && Valid() && InLoopThrough(st, lo, myIdx + 1)
        && Emit(last0, blocks') == (pairs', myLastBlockVaddr)
        && requested == req0 + RequestsBetween(st, cond, translate, lo, myIdx)
        && sentRequests == sent0 + |pairs'|
        && multiset(outstanding) == multiset(out0) + multiset(Packets(pairs', translate, now))
      ensures added == NoFreeAddress ==> !table.Present(ElementRequest(st, translate, myIdx).paddr) && table.Full()
    {
      ghost var k: nat := myIdx;
      assert InLoopThrough(st, lo, k + 1);
      ghost var prevLast, sent, req, q := myLastBlockVaddr, sentRequests, requested, outstanding;
      ghost var packet;
      added, packet := RequestElement(translate, now, latency);
      blocks', pairs' := blocks + [BlockAlign(ElementVaddr(st, k))], pairs + packet;
      SelectedEffect(st, cond, translate, now, lo, last0, sent0, req0, out0, blocks, pairs,
                     prevLast, sent, req, q, packet, added);
    }

    /** The loop state after `RequestElement`, from the state before it. */
    lemma SelectedEffect(st: Stream, cond: seq<int>, translate: Addr -> Addr, now: nat, lo: nat, last0: Addr,
                         sent0: int, req0: seq<TableRequest>, out0: seq<StreamPacket>,
                         blocks: seq<Addr>, pairs: seq<(Addr, nat)>,
                         prevLast: Addr, sent: int, req: seq<TableRequest>, q: seq<StreamPacket>,
                         packet: seq<(Addr, nat)>, added: AddResult)
      requires Valid() && state == Request && Decoded() == st && CondFits(st, cond)
      requires lo <= myIdx < numTileElements && InLoopThrough(st, lo, myIdx + 1) && Selected(st, cond, myIdx)
      requires blocks == BlocksBetween(st, cond, lo, myIdx) && Emit(last0, blocks) == (pairs, prevLast)
      requires req == req0 + RequestsBetween(st, cond, translate, lo, myIdx)
      requires sent == sent0 + |pairs| && multiset(q) == multiset(out0) + multiset(Packets(pairs, translate, now))
      requires myLastBlockVaddr == BlockAlign(ElementVaddr(st, myIdx))
      requires packet == (if myLastBlockVaddr != prevLast && prevLast != 0 then [(prevLast, |blocks|)] else [])
      requires sentRequests == sent + |packet|
      requires multiset(outstanding) == multiset(q) + multiset(Packets(packet, translate, now))
      requires added == Added ==> requested == req + [ElementRequest(st, translate, myIdx)]
      requires added != Added ==> requested == req
      ensures BlocksBetween(st, cond, lo, myIdx + 1) == blocks + [myLastBlockVaddr]
      ensures Emit(last0, blocks + [myLastBlockVaddr]) == (pairs + packet, myLastBlockVaddr)
      ensures sentRequests == sent0 + |pairs + packet|
      ensures multiset(outstanding) == multiset(out0) + multiset(Packets(pairs + packet, translate, now))
      ensures added == Added ==> requested == req0 + RequestsBetween(st, cond, translate, lo, myIdx + 1)
    {
      BetweenStep(st, cond, translate, lo, myIdx);
      RequestsStep(st, cond, translate, req0, lo, myIdx);
      EmitStep(last0, blocks, myLastBlockVaddr, pairs, packet);
      PacketsAppend(pairs, packet, translate, now);
      QueueGrows(q, out0, Packets(pairs, translate, now), Packets(packet, translate, now), outstanding);
    }

    /** An element the condition tile skips adds no block, no entry and no packet. */
    method SkipElement(cond: seq<int>, translate: Addr -> Addr, now: nat,
                       ghost st: Stream, ghost lo: nat, ghost last0: Addr, ghost sent0: int,
                       ghost req0: seq<TableRequest>, ghost out0: seq<StreamPacket>,
                       ghost blocks: seq<Addr>, ghost pairs: seq<(Addr, nat)>)
      requires FillState(st, cond, translate, now, lo, last0, sent0, req0, out0, blocks, pairs)
      requires myI < myMax && myIdx < numTileElements && !Selected(st, cond, myIdx)
      modifies this
      ensures Unmoved() && myIdx == old(myIdx) + 1
      ensures FillState(st, cond, translate, now, lo, last0, sent0, req0, out0, blocks, pairs)
    {
      ghost var k: nat := myIdx;
      assert InLoopThrough(st, lo, k + 1);
      BetweenStep(st, cond, translate, lo, k);
      RequestsStep(st, cond, translate, req0, lo, k);
      StepPast(st, cond, translate, now, lo, last0, sent0, req0, out0, blocks, pairs);
    }

    /** `i += stride, idx++` after a handled element. */
    method StepPast(ghost st: Stream, cond: seq<int>, translate: Addr -> Addr, now: nat, ghost lo: nat, ghost last0: Addr,
                    ghost sent0: int, ghost req0: seq<TableRequest>, ghost out0: seq<StreamPacket>,
                    ghost blocks: seq<Addr>, ghost pairs: seq<(Addr, nat)>)
      requires Visited(st, cond, translate, now, lo, last0, sent0, req0, out0, blocks, pairs)
      modifies this
      ensures Unmoved() && myIdx == old(myIdx) + 1
      ensures FillState(st, cond, translate, now, lo, last0, sent0, req0, out0, blocks, pairs)
    {
      Advance();
    }

    /** The step of `i` by the stride and of `idx` by one at the end of a loop pass. */
    method Advance()
      requires Valid() && state == Request && myIdx < numTileElements
      modifies this
      ensures Valid() && Unmoved() && myIdx == old(myIdx) + 1 && myI == old(myI) + myStride
      ensures myLastBlockVaddr == old(myLastBlockVaddr) && sentRequests == old(sentRequests)
      ensures outstanding == old(outstanding) && requested == old(requested)
    {
      myI := myI + myStride;
      myIdx := myIdx + 1;
    }

    /** After the element loop: the packet for the block still open, if any. */
    method CloseOpenBlock(translate: Addr -> Addr, now: nat, latency: nat) returns (ghost packet: seq<(Addr, nat)>)
      requires SortedByTick(outstanding)
      modifies this
      ensures myLastBlockVaddr == 0
      ensures packet == (if old(myLastBlockVaddr) != 0 then [(old(myLastBlockVaddr), latency)] else [])
      ensures sentRequests == old(sentRequests) + |packet|
      ensures multiset(outstanding) == multiset(old(outstanding)) + multiset(Packets(packet, translate, now))
      ensures SortedByTick(outstanding)
      ensures Unmoved() && myIdx == old(myIdx) && myI == old(myI) && requested == old(requested)
    {
      packet := [];
      if myLastBlockVaddr != 0 {
        packet := RequestOpenBlock(translate, now, latency);
        myLastBlockVaddr := 0;
      }
    }

    /** The read request for the open block: one more sent request and its packet, due after `latency`. */
    method RequestOpenBlock(translate: Addr -> Addr, now: nat, latency: nat) returns (ghost packet: seq<(Addr, nat)>)
      requires SortedByTick(outstanding)
      modifies this
      ensures packet == [(myLastBlockVaddr, latency)]
      ensures sentRequests == old(sentRequests) + 1
      ensures multiset(outstanding) == multiset(old(outstanding)) + multiset(Packets(packet, translate, now))
      ensures SortedByTick(outstanding)
      ensures Unmoved() && myIdx == old(myIdx) && myI == old(myI) && requested == old(requested)
      ensures myLastBlockVaddr == old(myLastBlockVaddr)
    {
      sentRequests := sentRequests + 1;
      var paddr := translate(myLastBlockVaddr);
      CreateReadPacket(paddr, latency, now);
      packet := [(myLastBlockVaddr, latency)];
      assert Packets(packet, translate, now) == [StreamPacket(paddr, now + latency)];
    }

    /** The fields a step of the Request loop leaves alone. */
    twostate predicate Unmoved()
      reads this
    {
      && state == old(state) && instruction == old(instruction) && Decoded() == old(Decoded())
      && myDstTile == old(myDstTile) && receivedResponses == old(receivedResponses)
    }

    /**
     * One selected element of the Request loop: its word address, block and
     * word id; the packet for the previous block when the block changes; and
     * its request-table entry. `latency` is the number of entries added so
     * far in this call.
     */
    method RequestElement(translate: Addr -> Addr, now: nat, latency: nat) returns (added: AddResult, ghost packet: seq<(Addr, nat)>)
      requires Valid() && state == Request && myIdx < numTileElements
      modifies this, table.entries, table.entriesValid, table.addresses, table.addressesValid
      ensures Valid() && Unmoved() && myIdx == old(myIdx) && myI == old(myI)
      ensures var b := BlockAlign(ElementVaddr(Decoded(), myIdx));
        && myLastBlockVaddr == b
        && packet == (if b != old(myLastBlockVaddr) && old(myLastBlockVaddr) != 0 then [(old(myLastBlockVaddr), latency)] else [])
      ensures sentRequests == old(sentRequests) + |packet|
      ensures multiset(outstanding) == multiset(old(outstanding)) + multiset(Packets(packet, translate, now))
      ensures added == Added ==> requested == old(requested) + [ElementRequest(Decoded(), translate, myIdx)]
      ensures added != Added ==> requested == old(requested)
      ensures added == NoFreeAddress ==> !table.Present(ElementRequest(Decoded(), translate, myIdx).paddr) && table.Full()
    {
      var vaddr := WordVaddr(myBaseAddr, myI);
      assert vaddr == ElementVaddr(Decoded(), myIdx);
      var blockVaddr := BlockAlign(vaddr);
      packet := EnterBlock(blockVaddr, translate, now, latency);
      added := AddElementEntry(vaddr, translate);
    }

    /**
     * The block test of the Request loop: when the element's block differs
     * from the open one, the open block's packet is created (unless no block
     * is open yet) and the element's block becomes the open one.
     */
    method EnterBlock(blockVaddr: Addr, translate: Addr -> Addr, now: nat, latency: nat) returns (ghost packet: seq<(Addr, nat)>)
      requires SortedByTick(outstanding)
      modifies this
      ensures myLastBlockVaddr == blockVaddr
      ensures packet == (if blockVaddr != old(myLastBlockVaddr) && old(myLastBlockVaddr) != 0 then [(old(myLastBlockVaddr), latency)] else [])
      ensures sentRequests == old(sentRequests) + |packet|
      ensures multiset(outstanding) == multiset(old(outstanding)) + multiset(Packets(packet, translate, now))
      ensures SortedByTick(outstanding)
      ensures Unmoved() && myIdx == old(myIdx) && myI == old(myI) && requested == old(requested)
    {
      packet := [];
      if blockVaddr != myLastBlockVaddr {
        if myLastBlockVaddr != 0 {
          packet := RequestOpenBlock(translate, now, latency);
        }
        myLastBlockVaddr := blockVaddr;
      }
    }

    /** The `add_entry` call for the element at word address `vaddr`. */
    method AddElementEntry(vaddr: Addr, translate: Addr -> Addr) returns (added: AddResult)
      requires Valid() && state == Request && myIdx < numTileElements
      requires vaddr == ElementVaddr(Decoded(), myIdx)
      modifies this, table.entries, table.entriesValid, table.addresses, table.addressesValid
      ensures Valid() && Unmoved() && myIdx == old(myIdx) && myI == old(myI)
      ensures myLastBlockVaddr == old(myLastBlockVaddr) && sentRequests == old(sentRequests) && outstanding == old(outstanding)
      ensures added == Added ==> requested == old(requested) + [ElementRequest(Decoded(), translate, myIdx)]
      ensures added != Added ==> requested == old(requested)
      ensures added == NoFreeAddress ==> !table.Present(ElementRequest(Decoded(), translate, myIdx).paddr) && table.Full()
    {
      var paddr := translate(BlockAlign(vaddr));
      var wordId := WordId(vaddr);
      ghost var slot, pos;
      added, slot, pos := table.AddEntry(myIdx, paddr, wordId);
      if added == Added {
        requested := requested + [TableRequest(myIdx, paddr, wordId)];
      }
    }

    /** `createReadPacket`: a read of block `addr`, due `latency` cycles from now. */
    method CreateReadPacket(addr: Addr, latency: nat, now: nat)
      requires SortedByTick(outstanding)
      modifies this
      ensures outstanding == InsertByTick(old(outstanding), StreamPacket(addr, now + latency))
      ensures multiset(outstanding) == multiset(old(outstanding)) + multiset{StreamPacket(addr, now + latency)}
      ensures SortedByTick(outstanding)
      ensures Unmoved() && myIdx == old(myIdx) && myI == old(myI) && myLastBlockVaddr == old(myLastBlockVaddr)
      ensures sentRequests == old(sentRequests) && requested == old(requested)
    {
      InsertByTickPlacement(outstanding, StreamPacket(addr, now + latency));
      InsertByTickContents(outstanding, StreamPacket(addr, now + latency));
      outstanding := InsertByTick(outstanding, StreamPacket(addr, now + latency));
    }

    /**
     * `sendOutstandingReadPacket`: hands packets to the cache port
     * earliest tick first, stopping at the first packet that is not due yet
     * or when the port refuses; the port takes `portSlots` packets before
     * refusing.
     */
    method SendOutstandingReadPacket(now: nat, portSlots: nat) returns (allSent: bool, sent: seq<StreamPacket>)
      requires SortedByTick(outstanding)
      modifies this
      ensures old(outstanding) == sent + outstanding
      ensures SortedByTick(outstanding)
      ensures forall i :: 0 <= i < |sent| ==> sent[i].tick <= now
      ensures |sent| <= portSlots
      ensures allSent <==> outstanding == []
      ensures !allSent ==> outstanding[0].tick > now || |sent| == portSlots
      ensures state == old(state) && instruction == old(instruction) && Decoded() == old(Decoded())
      ensures myIdx == old(myIdx) && myI == old(myI) && myLastBlockVaddr == old(myLastBlockVaddr)
      ensures sentRequests == old(sentRequests) && receivedResponses == old(receivedResponses)
      ensures myDstTile == old(myDstTile) && requested == old(requested)
    {
      var queue := outstanding;
      sent := [];
      while queue != []
        invariant old(outstanding) == sent + queue
        invariant SortedByTick(queue)
        invariant forall i :: 0 <= i < |sent| ==> sent[i].tick <= now
        invariant |sent| <= portSlots
        modifies {}
        decreases |queue|
      {
        var readPkt := queue[0];
        if readPkt.tick > now || |sent| == portSlots {
          // not due yet, or the port refuses the packet
          break;
        }
        SortedTail(queue);
        assert queue == [readPkt] + queue[1..];
        assert sent + queue == (sent + [readPkt]) + queue[1..];
        sent := sent + [readPkt];
        queue := queue[1..];
      }
      outstanding := queue;
      allSent := queue == [];
    }

    /**
     * `recvData`: the response for block `addr` carries its 16 words; every
     * entry waiting on the block receives its word, in entry order, as
     * `(element, value)` writes to the destination tile.
     */
    method RecvData(addr: Addr, data: seq<U32>) returns (writes: seq<(U32, U32)>, wake: bool)
      requires Valid()
      requires table.Present(addr)
      requires |data| == BlockSize / WordSize
      modifies this, table.entriesValid, table.addressesValid
      ensures Valid()
      ensures var entries := old(Collect(table.ValidRow(table.SlotOf(addr)), table.EntryRow(table.SlotOf(addr))));
        && |writes| == |entries| > 0
        && forall k :: 0 <= k < |entries| ==> entries[k].wid < |data| && writes[k] == (entries[k].itr, data[entries[k].wid])
      ensures !table.Present(addr)
      ensures receivedResponses == old(receivedResponses) + 1
      ensures wake <==> old(table.Full()) || receivedResponses == sentRequests
      ensures state == old(state) && instruction == old(instruction) && Decoded() == old(Decoded())
      ensures myIdx == old(myIdx) && myI == old(myI) && myLastBlockVaddr == old(myLastBlockVaddr)
      ensures sentRequests == old(sentRequests) && outstanding == old(outstanding)
      ensures myDstTile == old(myDstTile) && requested == old(requested)
    {
      var wasFull := table.IsFull();
      ghost var s0 := table.SlotOf(addr);
      var entries, slot := table.GetEntries(addr);
      assert slot == s0;
      forall k | 0 <= k < |entries|
        ensures entries[k].wid < |data|
      {
        CollectMembers(old(table.ValidRow(slot)), old(table.EntryRow(slot)), entries[k]);
      }
      writes := [];
      for k := 0 to |entries|
        invariant |writes| == k
        invariant forall m :: 0 <= m < k ==> writes[m] == (entries[m].itr, data[entries[m].wid])
      {
        writes := writes + [(entries[k].itr, data[entries[k].wid])];
      }
      receivedResponses := receivedResponses + 1;
      wake := wasFull || receivedResponses == sentRequests;
    }
  }
}
