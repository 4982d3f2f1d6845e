/** The three tables of the Load Value Predictor Unit as values: the entry
    records, the queries the unit answers from them, and the new table each
    update produces.  The class in module Lvpu keeps the tables as fields and
    its methods are specified by the functions here. */
module LvpuTables {
  import opened Counters

  /** Unsigned 64-bit quantities: addresses (Addr) and register values (RegVal). */
  type U64 = x: int | 0 <= x < 0x1_0000_0000_0000_0000
  type Addr = U64
  type RegVal = U64

  /** An LVPT entry: the load's pc, whether a value has come back from memory
      for it, and the last such value. */
  datatype LvptEntry = LvptEntry(pc: Addr, valid: bool, value: RegVal)

  /** An LCT entry: the load's pc and its saturating counter. */
  datatype LctEntry = LctEntry(pc: Addr, counter: nat)

  /** A CVT entry: a load's pc and the memory address it read. */
  datatype CvtEntry = CvtEntry(pc: Addr, memAddr: Addr)

  /** The override setting; only "never_predictable" is acted on. */
  datatype Hacks = NoHacks | NeverPredictable

  /** No pc occurs twice. */
  predicate Distinct(pcs: seq<Addr>)
  {
    forall i, j :: 0 <= i < j < |pcs| ==> pcs[i] != pcs[j]
  }

  /** The position of the first occurrence of pc, or -1 when there is none. */
  function FirstIndex(pcs: seq<Addr>, pc: Addr): (i: int)
    ensures -1 <= i < |pcs|
    ensures i == -1 <==> pc !in pcs
    ensures 0 <= i ==> pcs[i] == pc && forall j :: 0 <= j < i ==> pcs[j] != pc
  {
    if |pcs| == 0 then -1
    else if pcs[0] == pc then 0
    else
      var j := FirstIndex(pcs[1..], pc);
      assert pc in pcs <==> pc in pcs[1..] by {
        assert pcs == [pcs[0]] + pcs[1..];
      }
      if j == -1 then -1 else j + 1
  }

  /** In a table without repeated pcs, the first match is the only one. */
  lemma FirstIndexUnique(pcs: seq<Addr>)
    ensures Distinct(pcs) ==> forall k :: 0 <= k < |pcs| ==> FirstIndex(pcs, pcs[k]) == k
  {
  }

  // ---------------------------------------------------------------------
  // Load Value Prediction Table

  /** The pcs of the LVPT, in table order.  LctPcs below is the same
      projection for the LCT; the two entry types share no supertype, so
      each table gets its own. */
  function LvptPcs(t: seq<LvptEntry>): (pcs: seq<Addr>)
    ensures |pcs| == |t| && forall i :: 0 <= i < |t| ==> pcs[i] == t[i].pc
  {
    seq(|t|, i requires 0 <= i < |t| => t[i].pc)
  }

  /** find_entry: the least index whose pc matches, or -1. */
  function LvptIndex(t: seq<LvptEntry>, pc: Addr): (i: int)
    ensures -1 <= i < |t|
    ensures i == -1 <==> forall j :: 0 <= j < |t| ==> t[j].pc != pc
    ensures 0 <= i ==> t[i].pc == pc && forall j :: 0 <= j < i ==> t[j].pc != pc
  {
    FirstIndex(LvptPcs(t), pc)
  }

  /** valid_entry: the entry for pc exists and has been written. */
  function LvptValid(t: seq<LvptEntry>, pc: Addr): (b: bool)
    ensures b ==> pc in LvptPcs(t)
    ensures Distinct(LvptPcs(t)) ==>
              (b <==> exists i :: 0 <= i < |t| && t[i].pc == pc && t[i].valid)
  {
    FirstIndexUnique(LvptPcs(t));
    var i := LvptIndex(t, pc);
    0 <= i && t[i].valid
  }

  /** read_entry: the value stored for pc; only defined on a valid entry. */
  function LvptValue(t: seq<LvptEntry>, pc: Addr): (v: RegVal)
    requires LvptValid(t, pc)
    ensures Distinct(LvptPcs(t)) ==> LvptEntry(pc, true, v) in t
  {
    t[LvptIndex(t, pc)].value
  }

  /** add_entry: appends {pc, false, 0} when pc is absent, else no change. */
  function AddLvpt(t: seq<LvptEntry>, pc: Addr): (r: seq<LvptEntry>)
    ensures pc in LvptPcs(t) ==> r == t
    ensures pc !in LvptPcs(t) ==> r == t + [LvptEntry(pc, false, 0)]
    ensures pc in LvptPcs(r)
    ensures Distinct(LvptPcs(t)) ==> Distinct(LvptPcs(r))
  {
    if LvptIndex(t, pc) == -1 then
      assert LvptPcs(t + [LvptEntry(pc, false, 0)]) == LvptPcs(t) + [pc];
      t + [LvptEntry(pc, false, 0)]
    else t
  }

  /** update_entry: the entry for pc gets value v and becomes valid; every
      other entry, and the table when pc is absent, stays as it was. */
  function UpdateLvpt(t: seq<LvptEntry>, pc: Addr, v: RegVal): (r: seq<LvptEntry>)
    ensures |r| == |t| && LvptPcs(r) == LvptPcs(t)
    ensures pc !in LvptPcs(t) ==> r == t
    ensures pc in LvptPcs(t) ==> r[LvptIndex(t, pc)] == LvptEntry(pc, true, v)
    ensures forall i :: 0 <= i < |t| && i != LvptIndex(t, pc) ==> r[i] == t[i]
  {
    var i := LvptIndex(t, pc);
    if i == -1 then t else t[i := t[i].(valid := true, value := v)]
  }

  /** add_entry is idempotent. */
  lemma AddLvptIdempotent(t: seq<LvptEntry>, pc: Addr)
    ensures AddLvpt(AddLvpt(t, pc), pc) == AddLvpt(t, pc)
  {
  }

  /** Updating a present entry and then reading it gives back the value:
      the entry is valid and holds v. */
  lemma UpdateThenRead(t: seq<LvptEntry>, pc: Addr, v: RegVal)
    requires pc in LvptPcs(t)
    ensures LvptValid(UpdateLvpt(t, pc, v), pc)
    ensures LvptValue(UpdateLvpt(t, pc, v), pc) == v
  {
  }

  /** The round trip of a new load: add_entry then update_entry leaves a
      valid entry that reads back as v. */
  lemma AddUpdateRead(t: seq<LvptEntry>, pc: Addr, v: RegVal)
    ensures LvptValid(UpdateLvpt(AddLvpt(t, pc), pc, v), pc)
    ensures LvptValue(UpdateLvpt(AddLvpt(t, pc), pc, v), pc) == v
  {
  }

  /** Storing the value a valid entry already holds leaves the table as it was. */
  lemma RewriteSameValue(t: seq<LvptEntry>, pc: Addr, v: RegVal)
    requires LvptValid(t, pc) && LvptValue(t, pc) == v
    ensures UpdateLvpt(t, pc, v) == t
  {
    var i := LvptIndex(t, pc);
    assert t[i := t[i].(valid := true, value := v)] == t;
  }

  /** Updating one pc does not change what any other pc reads. */
  lemma UpdateLeavesOthers(t: seq<LvptEntry>, pc: Addr, q: Addr, v: RegVal)
    requires q != pc
    ensures LvptValid(UpdateLvpt(t, pc, v), q) == LvptValid(t, q)
    ensures LvptValid(t, q) ==> LvptValue(UpdateLvpt(t, pc, v), q) == LvptValue(t, q)
  {
  }

  /** Neither add_entry nor update_entry removes a pc from the table, and
      only add_entry of a new pc makes it longer, by exactly one. */
  lemma LvptNeverShrinks(t: seq<LvptEntry>, pc: Addr, v: RegVal, q: Addr)
    requires q in LvptPcs(t)
    ensures q in LvptPcs(AddLvpt(t, pc)) && q in LvptPcs(UpdateLvpt(t, pc, v))
    ensures |AddLvpt(t, pc)| == if pc in LvptPcs(t) then |t| else |t| + 1
    ensures |UpdateLvpt(t, pc, v)| == |t|
  {
    var k :| 0 <= k < |t| && t[k].pc == q;
    assert AddLvpt(t, pc)[k].pc == q;
  }

  // ---------------------------------------------------------------------
  // Load Classification Table

  /** The pcs of the LCT, in table order. */
  function LctPcs(lct: seq<LctEntry>): (pcs: seq<Addr>)
    ensures |pcs| == |lct| && forall i :: 0 <= i < |lct| ==> pcs[i] == lct[i].pc
  {
    seq(|lct|, i requires 0 <= i < |lct| => lct[i].pc)
  }

  /** Every counter lies in [0, 2^bits - 1]. */
  predicate CountersBounded(lct: seq<LctEntry>, bits: CounterWidth)
  {
    forall i :: 0 <= i < |lct| ==> lct[i].counter <= MaxCounter(bits)
  }

  /** find_lct_entry: the least index whose pc matches, or -1. */
  function LctIndex(lct: seq<LctEntry>, pc: Addr): (i: int)
    ensures -1 <= i < |lct|
    ensures i == -1 <==> forall j :: 0 <= j < |lct| ==> lct[j].pc != pc
    ensures 0 <= i ==> lct[i].pc == pc && forall j :: 0 <= j < i ==> lct[j].pc != pc
  {
    FirstIndex(LctPcs(lct), pc)
  }

  /** get_classification: a load without an LCT entry is Unpredictable;
      otherwise its counter decides. */
  function GetClassification(lct: seq<LctEntry>, bits: CounterWidth, pc: Addr): (c: Classification)
    requires CountersBounded(lct, bits)
    ensures pc !in LctPcs(lct) ==> c == Unpredictable
    ensures Distinct(LctPcs(lct)) ==>
              forall i :: 0 <= i < |lct| && lct[i].pc == pc ==> c == Classify(lct[i].counter, bits)
  {
    FirstIndexUnique(LctPcs(lct));
    var i := LctIndex(lct, pc);
    if i == -1 then Unpredictable else Classify(lct[i].counter, bits)
  }

  /** increment_counter: the counter of pc's entry steps up, saturating at
      2^bits - 1; every other entry, and the table when pc is absent, stays. */
  function IncCounter(lct: seq<LctEntry>, bits: CounterWidth, pc: Addr): (r: seq<LctEntry>)
    requires CountersBounded(lct, bits)
    ensures |r| == |lct| && LctPcs(r) == LctPcs(lct) && CountersBounded(r, bits)
    ensures pc !in LctPcs(lct) ==> r == lct
    ensures pc in LctPcs(lct) ==>
              r[LctIndex(lct, pc)].counter == Increment(lct[LctIndex(lct, pc)].counter, bits)
    ensures forall i :: 0 <= i < |lct| && i != LctIndex(lct, pc) ==> r[i] == lct[i]
  {
    var i := LctIndex(lct, pc);
    if i == -1 then lct
    else lct[i := lct[i].(counter := Increment(lct[i].counter, bits))]
  }

  /** decrement_counter: the counter of pc's entry steps down, saturating at
      0; every other entry, and the table when pc is absent, stays. */
  function DecCounter(lct: seq<LctEntry>, pc: Addr): (r: seq<LctEntry>)
    ensures |r| == |lct| && LctPcs(r) == LctPcs(lct)
    ensures forall i :: 0 <= i < |lct| ==> r[i].counter <= lct[i].counter
    ensures pc !in LctPcs(lct) ==> r == lct
    ensures pc in LctPcs(lct) ==>
              r[LctIndex(lct, pc)].counter == Decrement(lct[LctIndex(lct, pc)].counter)
    ensures forall i :: 0 <= i < |lct| && i != LctIndex(lct, pc) ==> r[i] == lct[i]
  {
    var i := LctIndex(lct, pc);
    if i == -1 then lct
    else lct[i := lct[i].(counter := Decrement(lct[i].counter))]
  }

  /** Decrementing can only keep counters in range. */
  lemma DecCounterBounded(lct: seq<LctEntry>, bits: CounterWidth, pc: Addr)
    requires CountersBounded(lct, bits)
    ensures CountersBounded(DecCounter(lct, pc), bits)
  {
  }

  /** add_lct_entry: a new pc is appended with counter 0 while the table holds
      fewer than cap entries; a pc already present, or a full table, leaves
      the table as it was. */
  function AddLct(lct: seq<LctEntry>, cap: nat, pc: Addr): (r: seq<LctEntry>)
    ensures pc in LctPcs(lct) || |lct| >= cap ==> r == lct
    ensures pc !in LctPcs(lct) && |lct| < cap ==> r == lct + [LctEntry(pc, 0)]
    ensures |lct| <= cap ==> |r| <= cap
    ensures Distinct(LctPcs(lct)) ==> Distinct(LctPcs(r))
    ensures forall bits: CounterWidth :: CountersBounded(lct, bits) ==> CountersBounded(r, bits)
  {
    if LctIndex(lct, pc) == -1 && |lct| < cap then
      assert LctPcs(lct + [LctEntry(pc, 0)]) == LctPcs(lct) + [pc];
      lct + [LctEntry(pc, 0)]
    else lct
  }

  /** A load entered in the LCT starts as Unpredictable, and a load that was
      already there keeps its classification. */
  lemma AddLctClassification(lct: seq<LctEntry>, cap: nat, bits: CounterWidth, pc: Addr)
    requires CountersBounded(lct, bits) && Distinct(LctPcs(lct))
    ensures GetClassification(AddLct(lct, cap, pc), bits, pc)
            == if pc in LctPcs(lct) then GetClassification(lct, bits, pc) else Unpredictable
  {
  }

  // ---------------------------------------------------------------------
  // Constant Verification Table

  /** verify_constant: some entry pairs pc with memAddr. */
  function VerifyConstant(cvt: seq<CvtEntry>, pc: Addr, memAddr: Addr): (b: bool)
    ensures b <==> exists i :: 0 <= i < |cvt| && cvt[i].pc == pc && cvt[i].memAddr == memAddr
  {
    if |cvt| == 0 then false
    else
      var last := cvt[|cvt| - 1];
      var front := cvt[..|cvt| - 1];
      assert forall i :: 0 <= i < |front| ==> front[i] == cvt[i];
      (last.pc == pc && last.memAddr == memAddr) || VerifyConstant(front, pc, memAddr)
  }

  /** add_cvt_entry: the pair is appended while the table holds fewer than
      cap entries; a full table stays as it was. */
  function AddCvt(cvt: seq<CvtEntry>, cap: nat, pc: Addr, memAddr: Addr): (r: seq<CvtEntry>)
    ensures |cvt| < cap ==> r == cvt + [CvtEntry(pc, memAddr)]
    ensures |cvt| >= cap ==> r == cvt
    ensures |cvt| <= cap ==> |r| <= cap
  {
    if |cvt| < cap then cvt + [CvtEntry(pc, memAddr)] else cvt
  }

  /** A pair that was admitted verifies afterwards, and every pair that
      verified still does. */
  lemma AddCvtThenVerify(cvt: seq<CvtEntry>, cap: nat, pc: Addr, memAddr: Addr, q: Addr, a: Addr)
    ensures |cvt| < cap ==> VerifyConstant(AddCvt(cvt, cap, pc, memAddr), pc, memAddr)
    ensures VerifyConstant(cvt, q, a) ==> VerifyConstant(AddCvt(cvt, cap, pc, memAddr), q, a)
  {
  }

  /** The entries update_store_addr keeps: those whose memory address is not
      the stored-to address, in their original order. */
  function KeptAfterStore(cvt: seq<CvtEntry>, address: Addr): (r: seq<CvtEntry>)
    ensures |r| <= |cvt|
    ensures forall i :: 0 <= i < |r| ==> r[i].memAddr != address
    ensures forall e :: e in r <==> e in cvt && e.memAddr != address
  {
    if |cvt| == 0 then []
    else
      var last := cvt[|cvt| - 1];
      assert cvt == cvt[..|cvt| - 1] + [last];
      KeptAfterStore(cvt[..|cvt| - 1], address) + (if last.memAddr == address then [] else [last])
  }

  /** The pcs update_store_addr returns: those of the entries whose memory
      address is the stored-to address, one per removed entry, in table order. */
  function RemovedPcs(cvt: seq<CvtEntry>, address: Addr): (r: seq<Addr>)
    ensures r == [] <==> forall i :: 0 <= i < |cvt| ==> cvt[i].memAddr != address
  {
    if |cvt| == 0 then []
    else
      var last := cvt[|cvt| - 1];
      RemovedPcs(cvt[..|cvt| - 1], address) + (if last.memAddr == address then [last.pc] else [])
  }

  /** A pc is reported exactly when some entry with that pc was at the
      stored-to address. */
  lemma {:induction false} RemovedPcsMembers(cvt: seq<CvtEntry>, address: Addr, p: Addr)
    ensures p in RemovedPcs(cvt, address) <==>
              exists i :: 0 <= i < |cvt| && cvt[i].memAddr == address && cvt[i].pc == p
    decreases |cvt|
  {
    if |cvt| > 0 {
      var front := cvt[..|cvt| - 1];
      RemovedPcsMembers(front, address, p);
      assert forall i :: 0 <= i < |front| ==> front[i] == cvt[i];
    }
  }

  /** One more entry scanned: it is either kept or reported. */
  lemma StoreStep(cvt: seq<CvtEntry>, k: nat, address: Addr)
    requires k < |cvt|
    ensures KeptAfterStore(cvt[..k + 1], address)
            == KeptAfterStore(cvt[..k], address) + (if cvt[k].memAddr == address then [] else [cvt[k]])
    ensures RemovedPcs(cvt[..k + 1], address)
            == RemovedPcs(cvt[..k], address) + (if cvt[k].memAddr == address then [cvt[k].pc] else [])
  {
    assert cvt[..k + 1][..k] == cvt[..k];
  }

  /** A store partitions the table: every entry is either kept or reported. */
  lemma {:induction false} StorePartitions(cvt: seq<CvtEntry>, address: Addr)
    ensures |RemovedPcs(cvt, address)| + |KeptAfterStore(cvt, address)| == |cvt|
    decreases |cvt|
  {
    if |cvt| > 0 {
      StorePartitions(cvt[..|cvt| - 1], address);
    }
  }

  /** A store splits over a concatenation of tables: what survives of a + b
      is what survives of a followed by what survives of b.  This is the sense
      in which the kept entries keep their table order. */
  lemma {:induction false} KeptSplits(a: seq<CvtEntry>, b: seq<CvtEntry>, address: Addr)
    ensures KeptAfterStore(a + b, address) == KeptAfterStore(a, address) + KeptAfterStore(b, address)
    decreases |b|
  {
    if |b| == 0 {
      assert a + b == a;
    } else {
      var b' := b[..|b| - 1];
      var last := b[|b| - 1];
      var tail: seq<CvtEntry> := if last.memAddr == address then [] else [last];
      assert (a + b)[..|a + b| - 1] == a + b';
      assert KeptAfterStore(a + b, address) == KeptAfterStore(a + b', address) + tail;
      assert KeptAfterStore(b, address) == KeptAfterStore(b', address) + tail;
      KeptSplits(a, b', address);
    }
  }

  /** The pcs reported for a + b are those reported for a followed by those
      reported for b: they come in table order. */
  lemma {:induction false} RemovedSplits(a: seq<CvtEntry>, b: seq<CvtEntry>, address: Addr)
    ensures RemovedPcs(a + b, address) == RemovedPcs(a, address) + RemovedPcs(b, address)
    decreases |b|
  {
    if |b| == 0 {
      assert a + b == a;
    } else {
      var b' := b[..|b| - 1];
      var last := b[|b| - 1];
      var tail: seq<Addr> := if last.memAddr == address then [last.pc] else [];
      assert (a + b)[..|a + b| - 1] == a + b';
      assert RemovedPcs(a + b, address) == RemovedPcs(a + b', address) + tail;
      assert RemovedPcs(b, address) == RemovedPcs(b', address) + tail;
      RemovedSplits(a, b', address);
    }
  }

  /** The LCT after a store has downgraded the loads in pcs: the counter of
      every entry whose pc occurs in pcs steps down once, however often the
      pc occurs, and every other entry stays as it was. */
  function Downgrade(lct: seq<LctEntry>, pcs: seq<Addr>): (r: seq<LctEntry>)
    ensures |r| == |lct| && LctPcs(r) == LctPcs(lct)
    ensures forall i :: 0 <= i < |lct| && lct[i].pc !in pcs ==> r[i] == lct[i]
    ensures forall i :: 0 <= i < |lct| && lct[i].pc in pcs ==> r[i].counter == Decrement(lct[i].counter)
  {
    seq(|lct|, i requires 0 <= i < |lct| =>
      if lct[i].pc in pcs then lct[i].(counter := Decrement(lct[i].counter)) else lct[i])
  }

  /** A downgrade never raises a counter, keeps counters within their width,
      and lowers the counter of every reported load that is not already 0. */
  lemma DowngradeLowers(lct: seq<LctEntry>, bits: CounterWidth, pcs: seq<Addr>)
    requires CountersBounded(lct, bits)
    ensures CountersBounded(Downgrade(lct, pcs), bits)
    ensures forall i :: 0 <= i < |lct| ==> Downgrade(lct, pcs)[i].counter <= lct[i].counter
    ensures forall i :: 0 <= i < |lct| && lct[i].pc in pcs && lct[i].counter > 0 ==>
              Downgrade(lct, pcs)[i].counter == lct[i].counter - 1
  {
  }

  /** Reporting a pc a second time changes nothing: each load is downgraded
      once per store, not once per CVT entry. */
  lemma DowngradeOncePerPc(lct: seq<LctEntry>, pcs: seq<Addr>, p: Addr)
    requires p in pcs
    ensures Downgrade(lct, pcs + [p]) == Downgrade(lct, pcs)
  {
    assert forall q :: q in pcs + [p] <==> q in pcs;
  }

  /** Reporting a new pc is one more decrement_counter of it. */
  lemma DowngradeStep(lct: seq<LctEntry>, pcs: seq<Addr>, p: Addr)
    requires Distinct(LctPcs(lct)) && p !in pcs
    ensures Downgrade(lct, pcs + [p]) == DecCounter(Downgrade(lct, pcs), p)
  {
    var m := Downgrade(lct, pcs);
    var r := Downgrade(lct, pcs + [p]);
    var d := DecCounter(m, p);
    assert forall q :: q in pcs + [p] <==> q in pcs || q == p;
    FirstIndexUnique(LctPcs(lct));
    forall i | 0 <= i < |lct|
      ensures r[i] == d[i]
    {
      if lct[i].pc == p {
        assert LctIndex(m, p) == i;
      }
    }
  }

  /** With unique LCT pcs, a downgrade demotes every reported Constant load:
      to Predictable with 2-bit counters, as the header comment says, and to
      Unpredictable with 1-bit counters.  Unreported loads keep their class. */
  lemma DowngradeClassification(lct: seq<LctEntry>, bits: CounterWidth, pcs: seq<Addr>, p: Addr)
    requires CountersBounded(lct, bits) && Distinct(LctPcs(lct))
    ensures p in pcs && GetClassification(lct, bits, p) == Constant ==>
              GetClassification(Downgrade(lct, pcs), bits, p)
              == (if bits == 2 then Predictable else Unpredictable)
    ensures p !in pcs ==> GetClassification(Downgrade(lct, pcs), bits, p) == GetClassification(lct, bits, p)
  {
    DowngradeLowers(lct, bits, pcs);
    var i := LctIndex(lct, p);
    if i != -1 {
      FirstIndexUnique(LctPcs(lct));
      assert LctIndex(Downgrade(lct, pcs), p) == i;
      if p in pcs && Classify(lct[i].counter, bits) == Constant {
        DowngradeFromConstant(lct[i].counter, bits);
      }
    }
  }

  // ---------------------------------------------------------------------
  // The predictor's queries and its reaction to a resolved load

  /** is_predictable: the override does not forbid prediction, the LVPT entry
      is valid and the load is classified Predictable or Constant. */
  function IsPredictable(lvpt: seq<LvptEntry>, lct: seq<LctEntry>, bits: CounterWidth,
                         hacks: Hacks, pc: Addr): (b: bool)
    requires CountersBounded(lct, bits)
    ensures b ==> hacks == NoHacks && pc in LvptPcs(lvpt) && pc in LctPcs(lct)
    ensures hacks == NeverPredictable || !LvptValid(lvpt, pc) ==> !b
  {
    hacks != NeverPredictable
    && LvptValid(lvpt, pc)
    && GetClassification(lct, bits, pc) in {Predictable, Constant}
  }

  /** is_constant: the LVPT entry is valid, the load is classified Constant
      and the CVT pairs pc with memAddr. */
  function IsConstant(lvpt: seq<LvptEntry>, lct: seq<LctEntry>, cvt: seq<CvtEntry>,
                      bits: CounterWidth, pc: Addr, memAddr: Addr): (b: bool)
    requires CountersBounded(lct, bits)
    ensures b ==> pc in LvptPcs(lvpt) && pc in LctPcs(lct)
    ensures b ==> exists k :: 0 <= k < |cvt| && cvt[k].pc == pc && cvt[k].memAddr == memAddr
  {
    LvptValid(lvpt, pc)
    && GetClassification(lct, bits, pc) == Constant
    && VerifyConstant(cvt, pc, memAddr)
  }

  /** With pcs unique in each table, is_predictable reads off the tables'
      contents: prediction is allowed, a valid LVPT entry exists and an LCT
      entry whose counter is in the upper half of its range exists. */
  lemma IsPredictableIff(lvpt: seq<LvptEntry>, lct: seq<LctEntry>, bits: CounterWidth,
                         hacks: Hacks, pc: Addr)
    requires CountersBounded(lct, bits)
    requires Distinct(LvptPcs(lvpt)) && Distinct(LctPcs(lct))
    ensures IsPredictable(lvpt, lct, bits, hacks, pc) <==>
              && hacks == NoHacks
              && (exists i :: 0 <= i < |lvpt| && lvpt[i].pc == pc && lvpt[i].valid)
              && (exists j :: 0 <= j < |lct| && lct[j].pc == pc && lct[j].counter >= PredictThreshold(bits))
  {
  }

  /** With pcs unique in each table, is_constant reads off the tables'
      contents: a valid LVPT entry, a saturated LCT counter and a CVT pair. */
  lemma IsConstantIff(lvpt: seq<LvptEntry>, lct: seq<LctEntry>, cvt: seq<CvtEntry>,
                      bits: CounterWidth, pc: Addr, memAddr: Addr)
    requires CountersBounded(lct, bits)
    requires Distinct(LvptPcs(lvpt)) && Distinct(LctPcs(lct))
    ensures IsConstant(lvpt, lct, cvt, bits, pc, memAddr) <==>
              && (exists i :: 0 <= i < |lvpt| && lvpt[i].pc == pc && lvpt[i].valid)
              && (exists j :: 0 <= j < |lct| && lct[j].pc == pc && lct[j].counter == MaxCounter(bits))
              && (exists k :: 0 <= k < |cvt| && cvt[k].pc == pc && cvt[k].memAddr == memAddr)
  {
  }

  /** Without the override, a Constant load is also predictable. */
  lemma ConstantIsPredictable(lvpt: seq<LvptEntry>, lct: seq<LctEntry>, cvt: seq<CvtEntry>,
                              bits: CounterWidth, pc: Addr, memAddr: Addr)
    requires CountersBounded(lct, bits)
    requires IsConstant(lvpt, lct, cvt, bits, pc, memAddr)
    ensures IsPredictable(lvpt, lct, bits, NoHacks, pc)
    ensures !IsPredictable(lvpt, lct, bits, NeverPredictable, pc)
  {
  }

  /** A load the LVPT has never seen is neither predictable nor constant. */
  lemma UnseenLoad(lvpt: seq<LvptEntry>, lct: seq<LctEntry>, cvt: seq<CvtEntry>,
                   bits: CounterWidth, hacks: Hacks, pc: Addr, memAddr: Addr)
    requires CountersBounded(lct, bits)
    requires pc !in LvptPcs(lvpt)
    ensures !IsPredictable(lvpt, lct, bits, hacks, pc)
    ensures !IsConstant(lvpt, lct, cvt, bits, pc, memAddr)
  {
  }

  /** After a store to address, no load is constant at that address any more,
      whatever the LVPT and LCT say. */
  lemma StoreInvalidatesConstant(lvpt: seq<LvptEntry>, lct: seq<LctEntry>, cvt: seq<CvtEntry>,
                                 bits: CounterWidth, address: Addr, pc: Addr)
    requires CountersBounded(lct, bits)
    ensures CountersBounded(Downgrade(lct, RemovedPcs(cvt, address)), bits)
    ensures !IsConstant(lvpt, Downgrade(lct, RemovedPcs(cvt, address)),
                        KeptAfterStore(cvt, address), bits, pc, address)
  {
    DowngradeLowers(lct, bits, RemovedPcs(cvt, address));
  }

  /** A store to address demotes every Constant load that had a CVT entry at
      address: to Predictable with 2-bit counters, to Unpredictable with 1-bit
      counters, once, however many of its entries were removed. */
  lemma StoreDemotesConstant(lct: seq<LctEntry>, cvt: seq<CvtEntry>, bits: CounterWidth,
                             address: Addr, pc: Addr)
    requires CountersBounded(lct, bits) && Distinct(LctPcs(lct))
    requires exists i :: 0 <= i < |cvt| && cvt[i].memAddr == address && cvt[i].pc == pc
    requires GetClassification(lct, bits, pc) == Constant
    ensures GetClassification(Downgrade(lct, RemovedPcs(cvt, address)), bits, pc)
            == (if bits == 2 then Predictable else Unpredictable)
  {
    RemovedPcsMembers(cvt, address, pc);
    DowngradeClassification(lct, bits, RemovedPcs(cvt, address), pc);
  }

  /** A store leaves the verification of every other address as it was. */
  lemma StoreKeepsOtherAddresses(cvt: seq<CvtEntry>, address: Addr, pc: Addr, memAddr: Addr)
    requires memAddr != address
    ensures VerifyConstant(KeptAfterStore(cvt, address), pc, memAddr) == VerifyConstant(cvt, pc, memAddr)
  {
  }

  /** prediction_results' effect on the LCT: a correct prediction (a valid
      entry holding the returned value) increments pc's counter, a wrong one
      decrements it, and without a valid entry the LCT is left alone. */
  function ResolvedLct(lvpt: seq<LvptEntry>, lct: seq<LctEntry>, bits: CounterWidth,
                       pc: Addr, value: RegVal): (r: seq<LctEntry>)
    requires CountersBounded(lct, bits)
    ensures |r| == |lct| && LctPcs(r) == LctPcs(lct) && CountersBounded(r, bits)
    ensures !LvptValid(lvpt, pc) ==> r == lct
  {
    if !LvptValid(lvpt, pc) then lct
    else if LvptValue(lvpt, pc) == value then IncCounter(lct, bits, pc)
    else DecCounter(lct, pc)
  }

  /** A correct prediction never lowers the load's classification and a
      misprediction never raises it. */
  lemma ResolveClassification(lvpt: seq<LvptEntry>, lct: seq<LctEntry>, bits: CounterWidth,
                              pc: Addr, value: RegVal)
    requires CountersBounded(lct, bits) && Distinct(LctPcs(lct))
    requires LvptValid(lvpt, pc)
    ensures LvptValue(lvpt, pc) == value ==>
              Rank(GetClassification(ResolvedLct(lvpt, lct, bits, pc, value), bits, pc))
              >= Rank(GetClassification(lct, bits, pc))
    ensures LvptValue(lvpt, pc) != value ==>
              Rank(GetClassification(ResolvedLct(lvpt, lct, bits, pc, value), bits, pc))
              <= Rank(GetClassification(lct, bits, pc))
  {
  }

  /** The LVPT and LCT after n resolutions of the load at pc, each returning
      value. */
  function ResolveTimes(lvpt: seq<LvptEntry>, lct: seq<LctEntry>, bits: CounterWidth,
                        pc: Addr, value: RegVal, n: nat): (r: (seq<LvptEntry>, seq<LctEntry>))
    requires CountersBounded(lct, bits)
    ensures CountersBounded(r.1, bits) && |r.1| == |lct| && LctPcs(r.1) == LctPcs(lct)
    decreases n
  {
    if n == 0 then (lvpt, lct)
    else ResolveTimes(UpdateLvpt(lvpt, pc, value), ResolvedLct(lvpt, lct, bits, pc, value),
                      bits, pc, value, n - 1)
  }

  /** After any number of loads of pc returning value, a registered pc's
      LVPT entry is valid and holds value. */
  lemma {:induction false} RepeatedValueKeepsEntry(lvpt: seq<LvptEntry>, lct: seq<LctEntry>,
                                                   bits: CounterWidth, pc: Addr, value: RegVal, n: nat)
    requires CountersBounded(lct, bits) && pc in LvptPcs(lvpt) && n > 0
    ensures LvptValid(ResolveTimes(lvpt, lct, bits, pc, value, n).0, pc)
    ensures LvptValue(ResolveTimes(lvpt, lct, bits, pc, value, n).0, pc) == value
    decreases n
  {
    var lvpt' := UpdateLvpt(lvpt, pc, value);
    var lct' := ResolvedLct(lvpt, lct, bits, pc, value);
    assert ResolveTimes(lvpt, lct, bits, pc, value, n) == ResolveTimes(lvpt', lct', bits, pc, value, n - 1);
    if n == 1 {
      UpdateThenRead(lvpt, pc, value);
    } else {
      RepeatedValueKeepsEntry(lvpt', lct', bits, pc, value, n - 1);
    }
  }

  /** The LCT after n increment_counter calls for pc. */
  function IncTimes(lct: seq<LctEntry>, bits: CounterWidth, pc: Addr, n: nat): (r: seq<LctEntry>)
    requires CountersBounded(lct, bits)
    ensures CountersBounded(r, bits) && |r| == |lct| && LctPcs(r) == LctPcs(lct)
    decreases n
  {
    if n == 0 then lct else IncTimes(IncCounter(lct, bits, pc), bits, pc, n - 1)
  }

  /** n increment_counter calls for pc raise its counter to
      min(counter + n, 2^bits - 1). */
  lemma {:induction false} IncTimesSaturates(lct: seq<LctEntry>, bits: CounterWidth, pc: Addr, n: nat)
    requires CountersBounded(lct, bits) && pc in LctPcs(lct)
    ensures IncTimes(lct, bits, pc, n)[LctIndex(lct, pc)].counter
            == Increments(lct[LctIndex(lct, pc)].counter, bits, n)
    decreases n
  {
    if n > 0 {
      var i := LctIndex(lct, pc);
      var lct' := IncCounter(lct, bits, pc);
      assert LctIndex(lct', pc) == i;
      IncTimesSaturates(lct', bits, pc, n - 1);
    }
  }

  /** A correct prediction leaves the LVPT as it was and increments pc's
      counter, so the remaining n - 1 loads start from there. */
  lemma CorrectPrediction(lvpt: seq<LvptEntry>, lct: seq<LctEntry>, bits: CounterWidth,
                          pc: Addr, value: RegVal, n: nat)
    requires CountersBounded(lct, bits)
    requires LvptValid(lvpt, pc) && LvptValue(lvpt, pc) == value && n > 0
    ensures ResolveTimes(lvpt, lct, bits, pc, value, n)
            == ResolveTimes(lvpt, IncCounter(lct, bits, pc), bits, pc, value, n - 1)
  {
    RewriteSameValue(lvpt, pc, value);
  }

  /** Once the LVPT holds value for pc, n more loads returning value are all
      correct predictions: the LVPT keeps value and the LCT goes through n
      increment_counter calls for pc. */
  lemma {:induction false} RepeatedValueIncrements(lvpt: seq<LvptEntry>, lct: seq<LctEntry>,
                                                   bits: CounterWidth, pc: Addr, value: RegVal, n: nat)
    requires CountersBounded(lct, bits)
    requires LvptValid(lvpt, pc) && LvptValue(lvpt, pc) == value
    ensures ResolveTimes(lvpt, lct, bits, pc, value, n).1 == IncTimes(lct, bits, pc, n)
    decreases n
  {
    if n > 0 {
      CorrectPrediction(lvpt, lct, bits, pc, value, n);
      RepeatedValueIncrements(lvpt, IncCounter(lct, bits, pc), bits, pc, value, n - 1);
    }
  }

  /** Once the LVPT holds value for pc, n more loads returning value raise
      pc's counter to min(counter + n, 2^bits - 1). */
  lemma RepeatedValueSaturates(lvpt: seq<LvptEntry>, lct: seq<LctEntry>,
                               bits: CounterWidth, pc: Addr, value: RegVal, n: nat)
    requires CountersBounded(lct, bits) && pc in LctPcs(lct)
    requires LvptValid(lvpt, pc) && LvptValue(lvpt, pc) == value
    ensures ResolveTimes(lvpt, lct, bits, pc, value, n).1[LctIndex(lct, pc)].counter
            == Increments(lct[LctIndex(lct, pc)].counter, bits, n)
  {
    RepeatedValueIncrements(lvpt, lct, bits, pc, value, n);
    IncTimesSaturates(lct, bits, pc, n);
  }

  /** A load newly entered in both tables (LVPT entry invalid, counter 0) that
      always returns the same value is Constant after 2^bits loads: the first
      one only fills the LVPT, each later one is a correct prediction.  It is
      not Constant after fewer. */
  lemma NewLoadBecomesConstant(lvpt: seq<LvptEntry>, lct: seq<LctEntry>, bits: CounterWidth,
                               pc: Addr, value: RegVal)
    requires CountersBounded(lct, bits) && Distinct(LctPcs(lct))
    requires pc in LvptPcs(lvpt) && !LvptValid(lvpt, pc)
    requires pc in LctPcs(lct) && lct[LctIndex(lct, pc)].counter == 0
    ensures GetClassification(ResolveTimes(lvpt, lct, bits, pc, value, MaxCounter(bits) + 1).1, bits, pc)
            == Constant
    ensures forall n :: 0 < n <= MaxCounter(bits) ==>
              GetClassification(ResolveTimes(lvpt, lct, bits, pc, value, n).1, bits, pc) != Constant
  {
    var i := LctIndex(lct, pc);
    var lvpt' := UpdateLvpt(lvpt, pc, value);
    UpdateThenRead(lvpt, pc, value);
    assert ResolvedLct(lvpt, lct, bits, pc, value) == lct;
    ConstantAfterMaxIncrements(bits);
    forall n | 0 < n <= MaxCounter(bits) + 1
      ensures GetClassification(ResolveTimes(lvpt, lct, bits, pc, value, n).1, bits, pc)
              == Classify(Increments(0, bits, n - 1), bits)
    {
      var r := ResolveTimes(lvpt, lct, bits, pc, value, n);
      assert r == ResolveTimes(lvpt', lct, bits, pc, value, n - 1);
      RepeatedValueSaturates(lvpt', lct, bits, pc, value, n - 1);
      assert r.1[i].pc == pc;
    }
  }
}
