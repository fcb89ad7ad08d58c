/**
 * The request table of a stream access unit: 32 block-address slots, each
 * with 16 entries recording which tile element waits for which 4-byte word
 * of that block.
 */
module StreamRequestTable {
  import opened MachineTypes

  const NumAddresses: nat := 32
  const NumEntriesPerAddress: nat := 16

  /** One waiting element: its tile index and the word it wants inside the block. */
  datatype RequestTableEntry = RequestTableEntry(itr: U32, wid: U16)

  /** A default-constructed entry. */
  const DefaultEntry: RequestTableEntry := RequestTableEntry(0, 0)

  /**
   * The two-argument entry constructor: the `int` iteration number is stored in
   * a `uint32_t` field, so a negative value wraps around modulo 2^32.
   */
  function MakeEntry(itr: int, wid: U16): (e: RequestTableEntry)
    requires IsInt32(itr)
    ensures e.wid == wid
    ensures (e.itr - itr) % TwoTo32 == 0
    ensures 0 <= itr ==> e.itr == itr
    ensures itr < 0 ==> e.itr == itr + TwoTo32
  {
    RequestTableEntry(itr % TwoTo32, wid)
  }

  /** The entries whose valid bit is set, in position order. */
  function Collect(valid: seq<bool>, row: seq<RequestTableEntry>): (r: seq<RequestTableEntry>)
    requires |valid| == |row|
    ensures |r| <= |row|
    decreases |valid|
  {
    if |valid| == 0 then []
    else
      Collect(valid[..|valid| - 1], row[..|row| - 1])
      + (if valid[|valid| - 1] then [row[|row| - 1]] else [])
  }

  /** The collected list is empty exactly when no valid bit is set. */
  lemma {:induction false} CollectEmptyIff(valid: seq<bool>, row: seq<RequestTableEntry>)
    requires |valid| == |row|
    ensures |Collect(valid, row)| > 0 <==> exists j :: 0 <= j < |valid| && valid[j]
    decreases |valid|
  {
    if |valid| > 0 {
      var n := |valid| - 1;
      CollectEmptyIff(valid[..n], row[..n]);
      if exists j :: 0 <= j < n && valid[..n][j] {
        var j :| 0 <= j < n && valid[..n][j];
        assert valid[j];
      }
      if exists j :: 0 <= j < |valid| && valid[j] {
        var j :| 0 <= j < |valid| && valid[j];
        if j < n {
          assert valid[..n][j];
        }
      }
    }
  }

  /** An entry is collected exactly when it sits at some valid position. */
  lemma {:induction false} CollectMembers(valid: seq<bool>, row: seq<RequestTableEntry>, x: RequestTableEntry)
    requires |valid| == |row|
    ensures x in Collect(valid, row) <==> exists j :: 0 <= j < |valid| && valid[j] && row[j] == x
    decreases |valid|
  {
    if |valid| > 0 {
      var n := |valid| - 1;
      CollectMembers(valid[..n], row[..n], x);
      if exists j :: 0 <= j < n && valid[..n][j] && row[..n][j] == x {
        var j :| 0 <= j < n && valid[..n][j] && row[..n][j] == x;
        assert valid[j] && row[j] == x;
      }
      if exists j :: 0 <= j < |valid| && valid[j] && row[j] == x {
        var j :| 0 <= j < |valid| && valid[j] && row[j] == x;
        if j < n {
          assert valid[..n][j] && row[..n][j] == x;
        }
      }
    }
  }

  /** Collecting a fully valid row returns the row itself. */
  lemma {:induction false} CollectAllValid(valid: seq<bool>, row: seq<RequestTableEntry>)
    requires |valid| == |row|
    requires forall j :: 0 <= j < |valid| ==> valid[j]
    ensures Collect(valid, row) == row
    decreases |valid|
  {
    if |valid| > 0 {
      var n := |valid| - 1;
      CollectAllValid(valid[..n], row[..n]);
      assert row[..n] + [row[n]] == row;
    }
  }

  /** The outcomes of `add_entry`; the last one is the failure of its assertion that a free entry exists. */
  datatype AddResult = Added | NoFreeAddress | NoFreeEntry

  class RequestTable {
    const entries: array2<RequestTableEntry>
    const entriesValid: array2<bool>
    const addresses: array<Addr>
    const addressesValid: array<bool>

    /** The table's shape and its bookkeeping invariant. */
    ghost predicate Valid()
      reads entriesValid, addresses, addressesValid
    {
      && entries.Length0 == NumAddresses && entries.Length1 == NumEntriesPerAddress
      && entriesValid.Length0 == NumAddresses && entriesValid.Length1 == NumEntriesPerAddress
      && addresses.Length == NumAddresses && addressesValid.Length == NumAddresses
      // no block address is held by two valid slots
      && (forall i, k :: 0 <= i < k < NumAddresses && addressesValid[i] && addressesValid[k] ==> addresses[i] != addresses[k])
      // a valid entry lives in a valid slot
      && (forall i, j :: 0 <= i < NumAddresses && 0 <= j < NumEntriesPerAddress && entriesValid[i, j] ==> addressesValid[i])
      // a valid slot has at least one valid entry
      && (forall i :: 0 <= i < NumAddresses && addressesValid[i] ==> exists j :: 0 <= j < NumEntriesPerAddress && entriesValid[i, j])
    }

    /** Slot `i` is valid and holds block address `a`. */
    predicate Holds(i: int, a: Addr)
      reads addresses, addressesValid
    {
      0 <= i < addresses.Length && i < addressesValid.Length && addressesValid[i] && addresses[i] == a
    }

    /** Some valid slot holds `a`. */
    ghost predicate Present(a: Addr)
      reads addresses, addressesValid
    {
      exists i :: 0 <= i < NumAddresses && Holds(i, a)
    }

    /** The slot holding `a`: it is unique. */
    ghost function SlotOf(a: Addr): (i: int)
      requires Valid() && Present(a)
      reads addresses, addressesValid, entriesValid
      ensures 0 <= i < NumAddresses && Holds(i, a)
      ensures forall k :: 0 <= k < NumAddresses && Holds(k, a) ==> k == i
    {
      var i :| 0 <= i < NumAddresses && Holds(i, a);
      assert forall k :: 0 <= k < NumAddresses && Holds(k, a) ==> k == i;
      i
    }

    /** Every slot is valid. */
    ghost predicate Full()
      reads addressesValid
    {
      forall i :: 0 <= i < NumAddresses && i < addressesValid.Length ==> addressesValid[i]
    }

    /** No slot and no entry is valid. */
    ghost predicate Clear()
      reads entriesValid, addressesValid
    {
      && (forall i :: 0 <= i < addressesValid.Length ==> !addressesValid[i])
      && (forall i, j :: 0 <= i < entriesValid.Length0 && 0 <= j < entriesValid.Length1 ==> !entriesValid[i, j])
    }

    /** `f` is the lowest invalid slot. */
    ghost predicate FirstFreeSlot(f: int)
      reads addressesValid
    {
      0 <= f < addressesValid.Length && !addressesValid[f] && forall k :: 0 <= k < f ==> addressesValid[k]
    }

    /** `p` is the lowest invalid entry of slot `i`. */
    ghost predicate FirstFreeEntry(i: int, p: int)
      reads entriesValid
    {
      && 0 <= i < entriesValid.Length0 && 0 <= p < entriesValid.Length1
      && !entriesValid[i, p] && forall k :: 0 <= k < p ==> entriesValid[i, k]
    }

    /** Every entry of slot `i` is valid. */
    ghost predicate RowFull(i: int)
      reads entriesValid
    {
      0 <= i < entriesValid.Length0 && forall k :: 0 <= k < entriesValid.Length1 ==> entriesValid[i, k]
    }

    /** Every valid entry's word id is below `n`. */
    ghost predicate WordIdsBelow(n: nat)
      reads entries, entriesValid
    {
      forall i, j :: 0 <= i < entries.Length0 && 0 <= j < entries.Length1 && i < entriesValid.Length0 && j < entriesValid.Length1 && entriesValid[i, j] ==> entries[i, j].wid < n
    }

    ghost function ValidRow(i: int): seq<bool>
      requires 0 <= i < entriesValid.Length0
      reads entriesValid
    {
      seq(entriesValid.Length1, j requires 0 <= j < entriesValid.Length1 reads entriesValid => entriesValid[i, j])
    }

    ghost function EntryRow(i: int): seq<RequestTableEntry>
      requires 0 <= i < entries.Length0
      reads entries
    {
      seq(entries.Length1, j requires 0 <= j < entries.Length1 reads entries => entries[i, j])
    }

    /** A fresh table: nothing is valid. */
    constructor ()
      ensures Valid() && Clear()
      ensures WordIdsBelow(0)
      ensures fresh(entries) && fresh(entriesValid) && fresh(addresses) && fresh(addressesValid)
    {
      entries := new RequestTableEntry[NumAddresses, NumEntriesPerAddress]((_, _) => DefaultEntry);
      entriesValid := new bool[NumAddresses, NumEntriesPerAddress]((_, _) => false);
      addresses := new Addr[NumAddresses](_ => 0);
      addressesValid := new bool[NumAddresses](_ => false);
    }

    /**
     * Records that tile element `itr` waits for word `wid` of block `baseAddr`:
     * in the slot already holding the block, or else in the lowest free slot,
     * at the lowest free entry position.
     */
    method AddEntry(itr: int, baseAddr: Addr, wid: U16) returns (r: AddResult, ghost slot: int, ghost pos: int)
      requires Valid()
      requires IsInt32(itr)
      modifies entries, entriesValid, addresses, addressesValid
      ensures Valid()
      ensures r == NoFreeAddress <==> !old(Present(baseAddr)) && old(Full())
      ensures r != NoFreeAddress ==> 0 <= slot < NumAddresses
      ensures r != NoFreeAddress && old(Present(baseAddr)) ==> old(Holds(slot, baseAddr))
      ensures r != NoFreeAddress && !old(Present(baseAddr)) ==> old(FirstFreeSlot(slot))
      ensures r == NoFreeEntry <==> r != NoFreeAddress && old(RowFull(slot))
      ensures r != Added ==> unchanged(entries, entriesValid, addresses, addressesValid)
      ensures r == Added ==> old(FirstFreeEntry(slot, pos))
      ensures r == Added ==> Holds(slot, baseAddr) && entriesValid[slot, pos] && entries[slot, pos] == MakeEntry(itr, wid)
      ensures r == Added ==> forall i :: 0 <= i < NumAddresses && i != slot ==>
        addressesValid[i] == old(addressesValid[i]) && addresses[i] == old(addresses[i])
      ensures r == Added ==> forall i, j :: 0 <= i < NumAddresses && 0 <= j < NumEntriesPerAddress && (i != slot || j != pos) ==>
        entriesValid[i, j] == old(entriesValid[i, j]) && entries[i, j] == old(entries[i, j])
    {
      var addressItr := -1;
      var freeAddressItr := -1;
      for i := 0 to NumAddresses
        invariant addressItr == -1 ==> forall k :: 0 <= k < i ==> !(addressesValid[k] && addresses[k] == baseAddr)
        invariant addressItr != -1 ==> 0 <= addressItr < i && Holds(addressItr, baseAddr)
        invariant freeAddressItr == -1 ==> forall k :: 0 <= k < i ==> addressesValid[k]
        invariant freeAddressItr != -1 ==> freeAddressItr < i && FirstFreeSlot(freeAddressItr)
      {
        if addressesValid[i] {
          if addresses[i] == baseAddr {
            // a block address is never held twice
            assert addressItr == -1;
            addressItr := i;
          }
        } else if freeAddressItr == -1 {
          freeAddressItr := i;
        }
      }
      ghost var newSlot := addressItr == -1;
      if addressItr == -1 {
        if freeAddressItr == -1 {
          return NoFreeAddress, -1, -1;
        } else {
          assert forall k :: 0 <= k < NumAddresses ==> !(addressesValid[k] && addresses[k] == baseAddr);
          addresses[freeAddressItr] := baseAddr;
          addressesValid[freeAddressItr] := true;
          addressItr := freeAddressItr;
          assert forall k :: 0 <= k < NumAddresses && k != addressItr ==> !(addressesValid[k] && addresses[k] == baseAddr);
        }
      }
      slot := addressItr;
      var freeEntryItr := -1;
      for j := 0 to NumEntriesPerAddress
        invariant freeEntryItr == -1 ==> forall k :: 0 <= k < j ==> entriesValid[addressItr, k]
        invariant freeEntryItr != -1 ==> FirstFreeEntry(addressItr, freeEntryItr)
        invariant newSlot ==> j == 0 || freeEntryItr == 0
      {
        if !entriesValid[addressItr, j] {
          freeEntryItr := j;
          break;
        }
      }
      if freeEntryItr == -1 {
        return NoFreeEntry, slot, -1;
      }
      pos := freeEntryItr;
      assert newSlot ==> forall k :: 0 <= k < NumEntriesPerAddress ==> !entriesValid[addressItr, k];
      entries[addressItr, freeEntryItr] := MakeEntry(itr, wid);
      entriesValid[addressItr, freeEntryItr] := true;
      forall i | 0 <= i < NumAddresses && addressesValid[i]
        ensures exists j :: 0 <= j < NumEntriesPerAddress && entriesValid[i, j]
      {
        if i == addressItr {
          assert entriesValid[i, freeEntryItr];
        } else {
          assert old(addressesValid[i]);
          var j :| 0 <= j < NumEntriesPerAddress && old(entriesValid[i, j]);
          assert entriesValid[i, j];
        }
      }
      return Added, slot, pos;
    }

    /**
     * Hands back every entry waiting on block `baseAddr`, in position order,
     * and frees them and their slot.
     */
    method GetEntries(baseAddr: Addr) returns (result: seq<RequestTableEntry>, ghost slot: int)
      requires Valid()
      requires Present(baseAddr)
      modifies entriesValid, addressesValid
      ensures Valid()
      ensures 0 <= slot < NumAddresses && old(Holds(slot, baseAddr))
      ensures result == old(Collect(ValidRow(slot), EntryRow(slot)))
      ensures |result| > 0
      ensures !addressesValid[slot] && forall j :: 0 <= j < NumEntriesPerAddress ==> !entriesValid[slot, j]
      ensures forall i :: 0 <= i < NumAddresses && i != slot ==> addressesValid[i] == old(addressesValid[i])
      ensures forall i, j :: 0 <= i < NumAddresses && i != slot && 0 <= j < NumEntriesPerAddress ==>
        entriesValid[i, j] == old(entriesValid[i, j])
    {
      result := [];
      slot := -1;
      for i := 0 to NumAddresses
        invariant forall k :: 0 <= k < i ==> !Holds(k, baseAddr)
        invariant unchanged(entriesValid, addressesValid)
      {
        if addressesValid[i] && addresses[i] == baseAddr {
          slot := i;
          ghost var row := EntryRow(i);
          for j := 0 to NumEntriesPerAddress
            invariant result == Collect(old(ValidRow(i))[..j], row[..j])
            invariant forall k :: 0 <= k < j ==> !entriesValid[i, k]
            invariant forall k :: j <= k < NumEntriesPerAddress ==> entriesValid[i, k] == old(entriesValid[i, k])
            invariant forall r, k :: 0 <= r < NumAddresses && r != i && 0 <= k < NumEntriesPerAddress ==>
              entriesValid[r, k] == old(entriesValid[r, k])
            invariant unchanged(addressesValid)
          {
            assert old(ValidRow(i))[..j + 1][..j] == old(ValidRow(i))[..j];
            assert row[..j + 1][..j] == row[..j];
            if entriesValid[i, j] {
              result := result + [entries[i, j]];
              entriesValid[i, j] := false;
            }
          }
          addressesValid[i] := false;
          assert old(ValidRow(i))[..NumEntriesPerAddress] == old(ValidRow(i));
          assert row[..NumEntriesPerAddress] == row;
          CollectEmptyIff(old(ValidRow(i)), row);
          assert old(Holds(i, baseAddr));
          ghost var j0 :| 0 <= j0 < NumEntriesPerAddress && old(entriesValid[i, j0]);
          assert old(ValidRow(i))[j0];
          break;
        }
      }
    }

    /** `is_full`: every slot is in use. */
    method IsFull() returns (full: bool)
      requires Valid()
      ensures full <==> Full()
    {
      for i := 0 to NumAddresses
        invariant forall k :: 0 <= k < i ==> addressesValid[k]
      {
        if !addressesValid[i] {
          return false;
        }
      }
      return true;
    }

    /** `check_reset`: `false` is the panic raised when any slot or entry is still valid. */
    method CheckReset() returns (clear: bool)
      requires Valid()
      ensures clear <==> Clear()
    {
      for i := 0 to NumAddresses
        invariant forall k :: 0 <= k < i ==> !addressesValid[k]
        invariant forall k, j :: 0 <= k < i && 0 <= j < NumEntriesPerAddress ==> !entriesValid[k, j]
      {
        if addressesValid[i] {
          return false;
        }
        for j := 0 to NumEntriesPerAddress
          invariant forall m :: 0 <= m < j ==> !entriesValid[i, m]
        {
          if entriesValid[i, j] {
            return false;
          }
        }
      }
      return true;
    }

    /** `reset`: invalidates every slot and entry; the stored addresses and entries stay as they were. */
    method Reset()
      requires Valid()
      modifies entriesValid, addressesValid
      ensures Valid() && Clear()
    {
      for i := 0 to NumAddresses
        invariant forall k :: 0 <= k < i ==> !addressesValid[k]
        invariant forall k, j :: 0 <= k < i && 0 <= j < NumEntriesPerAddress ==> !entriesValid[k, j]
      {
        addressesValid[i] := false;
        for j := 0 to NumEntriesPerAddress
          invariant forall m :: 0 <= m < j ==> !entriesValid[i, m]
          invariant forall k, m :: 0 <= k < i && 0 <= m < NumEntriesPerAddress ==> !entriesValid[k, m]
          invariant forall k :: 0 <= k < i + 1 ==> !addressesValid[k]
        {
          entriesValid[i, j] := false;
        }
      }
    }
  }

  /** A table is never full and clear at once, so `reset` always leaves room for a new block. */
  lemma ClearTableNotFull(t: RequestTable)
    requires t.Valid() && t.Clear()
    ensures !t.Full()
  {
    assert !t.addressesValid[0];
  }
}
