/** The Load Value Predictor Unit of the Minor CPU: an object holding the
    Load Value Prediction Table (LVPT), the Load Classification Table (LCT)
    and the Constant Verification Table (CVT), and the operations that
    update them in place.  Each method is specified by the value-level
    function of module LvpuTables that computes its new table. */
module Lvpu {
  import opened Counters
  import opened LvpuTables

  class LVPU {
    /** The LVPT: the last value each registered load brought back. */
    var lvptTable: seq<LvptEntry>
    /** The LCT: each load's saturating counter. */
    var lcTable: seq<LctEntry>
    /** The CVT: (load pc, memory address) pairs of loads treated as constant. */
    var cvTable: seq<CvtEntry>

    const numLvptEntries: nat
    const numLctEntries: nat
    const bitsPerEntry: CounterWidth
    const numCvtEntries: nat
    const hacks: Hacks

    /** The unit's invariant: each pc has at most one LVPT and one LCT entry,
        every counter is within its width, and the LCT and CVT respect their
        capacities.  The LVPT is not bounded. */
    ghost predicate Valid()
      reads this
    {
      && Distinct(LvptPcs(lvptTable))
      && Distinct(LctPcs(lcTable))
      && CountersBounded(lcTable, bitsPerEntry)
      && |lcTable| <= numLctEntries
      && |cvTable| <= numCvtEntries
    }

    constructor (numLvptEntries: nat, numLctEntries: nat, numCvtEntries: nat,
                 bitsPerEntry: CounterWidth, hacks: Hacks)
      ensures Valid()
      ensures lvptTable == [] && lcTable == [] && cvTable == []
      ensures this.numLvptEntries == numLvptEntries && this.numLctEntries == numLctEntries
      ensures this.numCvtEntries == numCvtEntries && this.bitsPerEntry == bitsPerEntry
      ensures this.hacks == hacks
    {
      this.numLvptEntries := numLvptEntries;
      this.numLctEntries := numLctEntries;
      this.numCvtEntries := numCvtEntries;
      this.bitsPerEntry := bitsPerEntry;
      this.hacks := hacks;
      lvptTable, lcTable, cvTable := [], [], [];
    }

    // -------------------------------------------------------------------
    // LVPT

    /** find_entry: a linear scan that stops at the first entry with a
        matching pc and returns its index, or -1 when no entry matches. */
    method FindEntry(pc: Addr) returns (i: int)
      ensures -1 <= i < |lvptTable|
      ensures i == -1 <==> forall j :: 0 <= j < |lvptTable| ==> lvptTable[j].pc != pc
      ensures 0 <= i ==> lvptTable[i].pc == pc && forall j :: 0 <= j < i ==> lvptTable[j].pc != pc
      ensures i == LvptIndex(lvptTable, pc)
    {
      var k := 0;
      while k < |lvptTable|
        invariant 0 <= k <= |lvptTable|
        invariant forall j :: 0 <= j < k ==> lvptTable[j].pc != pc
      {
        if pc == lvptTable[k].pc {
          return k;
        }
        k := k + 1;
      }
      return -1;
    }

    /** add_entry: registers a load; an already registered pc is left alone. */
    method AddEntry(pc: Addr)
      requires Valid()
      modifies this`lvptTable
      ensures Valid()
      ensures lvptTable == AddLvpt(old(lvptTable), pc)
      ensures LvptPcs(lvptTable) ==
                LvptPcs(old(lvptTable)) + (if pc in LvptPcs(old(lvptTable)) then [] else [pc])
    {
      var i := FindEntry(pc);
      if i == -1 {
        assert LvptPcs(lvptTable + [LvptEntry(pc, false, 0)]) == LvptPcs(lvptTable) + [pc];
        lvptTable := lvptTable + [LvptEntry(pc, false, 0)];
      }
    }

    /** update_entry: stores the value returned from memory and marks the
        entry valid; an unregistered pc leaves the table unchanged. */
    method UpdateEntry(pc: Addr, value: RegVal)
      requires Valid()
      modifies this`lvptTable
      ensures Valid()
      ensures lvptTable == UpdateLvpt(old(lvptTable), pc, value)
      ensures LvptPcs(lvptTable) == LvptPcs(old(lvptTable))
    {
      var i := FindEntry(pc);
      if i != -1 {
        lvptTable := lvptTable[i := lvptTable[i].(value := value, valid := true)];
      }
    }

    /** valid_entry: false when pc is not registered, else the entry's valid bit. */
    method ValidEntry(pc: Addr) returns (valid: bool)
      ensures valid == LvptValid(lvptTable, pc)
      ensures valid ==> pc in LvptPcs(lvptTable)
    {
      valid := false;
      var i := FindEntry(pc);
      if i != -1 {
        valid := lvptTable[i].valid;
      }
    }

    /** read_entry: the value stored for a registered, valid pc. */
    method ReadEntry(pc: Addr) returns (value: RegVal)
      requires LvptValid(lvptTable, pc)
      ensures value == LvptValue(lvptTable, pc)
      ensures Valid() ==> LvptEntry(pc, true, value) in lvptTable
    {
      var i := FindEntry(pc);
      value := lvptTable[i].value;
    }

    /** prediction_results: compares the stored prediction with the value
        that came back from memory, moves pc's counter up on a match and down
        on a mismatch, and then stores the returned value.  Reports a
        misprediction exactly when a valid entry held a different value. */
    method PredictionResults(pc: Addr, value: RegVal) returns (misprediction: bool)
      requires Valid()
      modifies this`lvptTable, this`lcTable
      ensures Valid()
      ensures misprediction <==>
                LvptValid(old(lvptTable), pc) && LvptValue(old(lvptTable), pc) != value
      ensures lcTable == ResolvedLct(old(lvptTable), old(lcTable), bitsPerEntry, pc, value)
      ensures lvptTable == UpdateLvpt(old(lvptTable), pc, value)
      ensures pc in LvptPcs(lvptTable) ==>
                LvptValid(lvptTable, pc) && LvptValue(lvptTable, pc) == value
    {
      misprediction := false;
      var valid := ValidEntry(pc);
      if valid {
        var predicted := ReadEntry(pc);
        if predicted == value {
          IncrementCounter(pc);
        } else {
          DecrementCounter(pc);
          misprediction := true;
        }
      }
      UpdateEntry(pc, value);
      if pc in LvptPcs(old(lvptTable)) {
        UpdateThenRead(old(lvptTable), pc, value);
      }
    }

    // -------------------------------------------------------------------
    // LCT

    /** decrement_counter: one step down, saturating at 0; a pc without an
        LCT entry changes nothing. */
    method DecrementCounter(pc: Addr)
      requires Valid()
      modifies this`lcTable
      ensures Valid()
      ensures lcTable == DecCounter(old(lcTable), pc)
    {
      var i := LctIndex(lcTable, pc);
      if i != -1 && lcTable[i].counter > 0 {
        lcTable := lcTable[i := lcTable[i].(counter := lcTable[i].counter - 1)];
      }
    }

    /** increment_counter: one step up, saturating at 2^bitsPerEntry - 1; a
        pc without an LCT entry changes nothing. */
    method IncrementCounter(pc: Addr)
      requires Valid()
      modifies this`lcTable
      ensures Valid()
      ensures lcTable == IncCounter(old(lcTable), bitsPerEntry, pc)
    {
      var i := LctIndex(lcTable, pc);
      if i != -1 && lcTable[i].counter < MaxCounter(bitsPerEntry) {
        lcTable := lcTable[i := lcTable[i].(counter := lcTable[i].counter + 1)];
      }
    }

    /** add_lct_entry: a new pc enters as Unpredictable (counter 0) while the
        table holds fewer than numLctEntries entries. */
    method AddLctEntry(pc: Addr)
      requires Valid()
      modifies this`lcTable
      ensures Valid()
      ensures lcTable == AddLct(old(lcTable), numLctEntries, pc)
    {
      var i := LctIndex(lcTable, pc);
      if i == -1 && |lcTable| < numLctEntries {
        assert LctPcs(lcTable + [LctEntry(pc, 0)]) == LctPcs(lcTable) + [pc];
        lcTable := lcTable + [LctEntry(pc, 0)];
      }
    }

    // -------------------------------------------------------------------
    // CVT

    /** add_cvt_entry: records that the load at pc read memAddr, while the
        table holds fewer than numCvtEntries entries. */
    method AddCvtEntry(pc: Addr, memAddr: Addr)
      requires Valid()
      modifies this`cvTable
      ensures Valid()
      ensures cvTable == AddCvt(old(cvTable), numCvtEntries, pc, memAddr)
    {
      if |cvTable| < numCvtEntries {
        cvTable := cvTable + [CvtEntry(pc, memAddr)];
      }
    }

    /** update_store_addr: a store to address removes every CVT entry for
        that address, returns the pcs of the removed entries in table order,
        and downgrades the LCT entry of each such pc by one step, once per pc
        however many of its entries were removed. */
    method UpdateStoreAddr(address: Addr) returns (removed: seq<Addr>)
      requires Valid()
      modifies this`cvTable, this`lcTable
      ensures Valid()
      ensures cvTable == KeptAfterStore(old(cvTable), address)
      ensures removed == RemovedPcs(old(cvTable), address)
      ensures lcTable == Downgrade(old(lcTable), removed)
      ensures forall i :: 0 <= i < |cvTable| ==> cvTable[i].memAddr != address
    {
      var kept: seq<CvtEntry> := [];
      removed := [];
      var k := 0;
      while k < |cvTable|
        invariant 0 <= k <= |cvTable|
        invariant cvTable == old(cvTable)
        invariant Valid()
        invariant kept == KeptAfterStore(cvTable[..k], address)
        invariant removed == RemovedPcs(cvTable[..k], address)
        invariant lcTable == Downgrade(old(lcTable), removed)
      {
        var e := cvTable[k];
        StoreStep(cvTable, k, address);
        if e.memAddr == address {
          if e.pc in removed {
            DowngradeOncePerPc(old(lcTable), removed, e.pc);
          } else {
            DecrementCounter(e.pc);
            DowngradeStep(old(lcTable), removed, e.pc);
          }
          removed := removed + [e.pc];
        } else {
          kept := kept + [e];
        }
        k := k + 1;
      }
      assert cvTable[..k] == cvTable;
      cvTable := kept;
    }
  }
}
