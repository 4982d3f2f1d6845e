# Load Value Predictor Unit (Minor CPU) in Dafny

This project models the Load Value Predictor Unit (`LVPU`) of gem5's Minor CPU
(`src/cpu/minor/lvpu.hh`, `src/cpu/minor/lvpu.cc`).

The unit keeps three tables:

- **LVPT** (load value prediction table). One entry `{pc, valid, value}` per load
  instruction. It holds the last value that load brought back from memory.
- **LCT** (load classification table). One entry `{pc, counter}` per load. The
  counter is an n-bit saturating counter, and it classifies the load as
  Unpredictable, Predictable or Constant.
- **CVT** (constant verification table). It holds `{pc, mem_addr}` pairs. Each
  pair says that a Constant load read that memory address. A store to the
  address removes the pair and downgrades the load.

The project has three modules:

- `counters.dfy`, module `Counters`. The counter width (1 or 2 bits), the
  counter-to-classification mapping, and saturating increment and decrement,
  with lemmas about them.
- `tables.dfy`, module `LvpuTables`. The entry records as datatypes. The queries
  declared in the header (`get_classification`, `find_lct_entry`,
  `verify_constant`, `is_predictable`, `is_constant`) as pure functions over the
  tables. One pure function per table update, giving the new table. Lemmas that
  relate them.
- `lvpu.dfy`, module `Lvpu`. The class `LVPU`: the three tables as `seq`
  fields, the configuration as constants, and every member function of the
  source that changes state as a method with a `modifies` frame. The invariant
  `Valid()` says:
  - pcs are unique in the LVPT and in the LCT;
  - every counter is within its width;
  - the LCT and CVT stay within their capacities.

  Each method's `ensures` states the new tables as the matching function of the
  old ones. `FindEntry` is the source's linear scan with an early return, proved
  against its specification by loop invariants.

In the source, only the LVPT operations have real bodies. The LCT and CVT
bodies in `lvpu.cc` (`increment_counter`, `decrement_counter`, `add_lct_entry`,
`is_constant`, `add_cvt_entry`, `update_store_addr`) are `//TODO` stubs that
do nothing. `get_classification`, `find_lct_entry` and `verify_constant` are
declared in the header and never defined. So this model follows the header's
doc comments and the comments inside the stub bodies:

- `lvpu.cc:182`: new entries start at 0.
- `lvpu.cc:188-190` and `lvpu.cc:200-201`: the counter tables.

`is_predictable` (`lvpu.cc:186-196`) is also marked `//TODO`, but its body
does something. Unless the override is set, it returns `valid_entry(pc)`
and never consults the LCT. So as written, every load with a valid LVPT
entry is predictable, whatever its counter. The model follows the header
(`lvpu.hh:130`) and the comments in that body (`lvpu.cc:188-190`) instead.
It adds the classification test: the load must also be classified
Predictable or Constant.

Where the two source files disagree, the model picks as follows:

- `is_constant` takes `(pc, mem_addr)` in `lvpu.hh:134` but only `pc` in
  `lvpu.cc:198`. The model follows the header.
- `update_store_addr` returns the removed pcs in `lvpu.hh:147` but is `void`
  in `lvpu.cc:210`. The model follows the header.
- `prediction_results` returns just the misprediction flag in `lvpu.cc:146`,
  not the `PredictionResults` record of `lvpu.hh:115`. The model returns the
  flag, as the `.cc` does.

Modelling choices:

- `Addr` and `RegVal` are unsigned 64-bit values. There is no arithmetic on them.
- Capacities are `nat`. `bits_per_entry` is restricted to 1 or 2, the only
  widths the source's classification comments define.
- The `hacks` string becomes `Hacks = NoHacks | NeverPredictable`.
  `NeverPredictable` forces `is_predictable` to false, as in `lvpu.cc:192-194`.
- `read_entry` requires a present, valid entry. On a miss the source returns
  an uninitialised local (`lvpu.cc:118-126`).
- `update_entry`, and so `prediction_results`, on a pc that is not in the LVPT
  leaves the table unchanged (`lvpu.cc:85-96`). The load does not get a new entry.
- `add_lct_entry` appends only while the LCT holds fewer than `num_lct_entries`
  entries (`lvpu.hh:126`). It is also a no-op when the pc is already present,
  as `add_entry` is, so LCT pcs stay unique. A full table drops the insert.
- `add_cvt_entry` appends while the CVT holds fewer than `num_cvt_entries`
  entries. It does not enforce uniqueness.
- `update_store_addr` scans the CVT front to back. The returned pcs come in
  table order, one per removed entry. The CVT may hold the same pair twice,
  so a pc can be returned more than once. Each returned pc's LCT counter
  steps down once per store, however many of its entries were removed. With
  2-bit counters this takes a Constant load to Predictable, as the header
  comment (`lvpu.hh:145`) says; with 1-bit counters it takes it to
  Unpredictable, since there is no Predictable class.
- A pc with no LCT entry classifies as Unpredictable.

## Model

| member | source | states |
|---|---|---|
| Counters.Classify | src/cpu/minor/lvpu.cc:186-202 | The classification of a counter. With a 1-bit counter, 0 is Unpredictable and 1 is Constant. With a 2-bit counter, 0 and 1 are Unpredictable, 2 is Predictable and 3 is Constant. It depends on nothing but the counter and the width. |
| Counters.Increment | src/cpu/minor/lvpu.hh:123-124 | A saturating increment never goes past 2^bits - 1. |
| Counters.Decrement | src/cpu/minor/lvpu.hh:120-121 | A saturating decrement never raises the counter (and a nat never goes below 0). |
| Counters.StepsByOne | src/cpu/minor/lvpu.hh:120-124 | An increment adds exactly one iff the counter is below the maximum, and does nothing iff it is at the maximum. A decrement subtracts exactly one iff the counter is above 0, and does nothing iff it is 0. |
| Counters.IncrementDecrementInverse | src/cpu/minor/lvpu.hh:120-124 | Away from the saturation points, decrement undoes increment and increment undoes decrement. |
| Counters.ClassifyMonotone | src/cpu/minor/lvpu.cc:186-202 | A larger counter never classifies lower (Unpredictable < Predictable < Constant). |
| Counters.StepsAreMonotone | src/cpu/minor/lvpu.hh:111-124 | An increment never downgrades a load's classification. A decrement never upgrades it. |
| Counters.UpgradeToConstant | src/cpu/minor/lvpu.cc:198-202 | An increment turns a non-Constant load into a Constant one iff the counter was one below saturation (2 to 3 for 2 bits, 0 to 1 for 1 bit). |
| Counters.DowngradeFromConstant | src/cpu/minor/lvpu.hh:144-147 | One decrement of a Constant load makes it Predictable with 2-bit counters and Unpredictable with 1-bit counters. |
| Counters.Increments | src/cpu/minor/lvpu.hh:56 | Any number of increments keeps the counter within [0, 2^bits - 1]. |
| Counters.IncrementsSaturate | src/cpu/minor/lvpu.hh:56 | n increments in a row give exactly min(counter + n, 2^bits - 1). |
| Counters.ConstantAfterMaxIncrements | src/cpu/minor/lvpu.cc:198-202 | From 0, exactly 2^bits - 1 increments make a load Constant. No smaller number does. |
| LvpuTables.FirstIndex | src/cpu/minor/lvpu.cc:46-62 | Returns the least position holding pc, or -1 iff pc does not occur. |
| LvpuTables.FirstIndexUnique | src/cpu/minor/lvpu.cc:46-62 | When pcs are unique, the first match of an entry's pc is that entry's own position. |
| LvpuTables.LvptIndex | src/cpu/minor/lvpu.cc:46-62 | find_entry's result: the least index whose pc matches, or -1 iff no entry has that pc. |
| LvpuTables.LvptValid | src/cpu/minor/lvpu.cc:99-114 | valid_entry is false for an absent pc. With unique pcs, it is true iff some entry for pc has its valid bit set. |
| LvpuTables.LvptValue | src/cpu/minor/lvpu.cc:116-127 | read_entry is defined only on a present, valid entry. With unique pcs, the table contains `{pc, true, value}` for the value it returns. |
| LvpuTables.AddLvpt | src/cpu/minor/lvpu.cc:64-81 | add_entry on an absent pc appends exactly `{pc, false, 0}`. On a present pc the table is unchanged. pc is present afterwards, and unique pcs stay unique. |
| LvpuTables.UpdateLvpt | src/cpu/minor/lvpu.cc:83-97 | update_entry keeps the length and the pcs. On a present pc it makes that entry `{pc, true, v}` and leaves every other entry as it was. On an absent pc the table is unchanged. |
| LvpuTables.AddLvptIdempotent | src/cpu/minor/lvpu.cc:64-81 | Adding the same pc twice is the same as adding it once. |
| LvpuTables.UpdateThenRead | src/cpu/minor/lvpu.cc:83-127 | After update_entry(pc, v) on a present pc, valid_entry(pc) holds and read_entry(pc) is v. |
| LvpuTables.AddUpdateRead | src/cpu/minor/lvpu.cc:64-127 | Round trip: after add_entry(pc) and then update_entry(pc, v), valid_entry(pc) holds and read_entry(pc) is v. |
| LvpuTables.UpdateLeavesOthers | src/cpu/minor/lvpu.cc:83-97 | Updating pc changes neither the validity nor the value of any other pc. |
| LvpuTables.LvptNeverShrinks | src/cpu/minor/lvpu.cc:64-97 | No pc ever leaves the LVPT. update_entry keeps the length. add_entry grows the table by one exactly when the pc is new. |
| LvpuTables.LctIndex | src/cpu/minor/lvpu.hh:118 | find_lct_entry's result: the least index whose pc matches, or -1 iff none. |
| LvpuTables.GetClassification | src/cpu/minor/lvpu.hh:136 | A pc without an LCT entry is Unpredictable. With unique pcs, the classification is that of the pc's entry's counter. |
| LvpuTables.IncCounter | src/cpu/minor/lvpu.hh:123-124 | increment_counter keeps pcs and bounds, steps only pc's own counter (saturating), and changes nothing for an absent pc. |
| LvpuTables.DecCounter | src/cpu/minor/lvpu.hh:120-121 | decrement_counter keeps pcs, never raises a counter, steps only pc's own counter (saturating at 0), and changes nothing for an absent pc. |
| LvpuTables.DecCounterBounded | src/cpu/minor/lvpu.hh:120-121 | Decrementing keeps every counter within its width. |
| LvpuTables.AddLct | src/cpu/minor/lvpu.hh:126-128 | add_lct_entry appends `{pc, 0}` iff pc is absent and the table holds fewer than num_lct_entries entries; otherwise the table is unchanged. The capacity, unique pcs and counter bounds are preserved. |
| LvpuTables.AddLctClassification | src/cpu/minor/lvpu.cc:180-184 | A newly added load starts Unpredictable. A load already present keeps its classification. |
| LvpuTables.VerifyConstant | src/cpu/minor/lvpu.hh:141-142 | verify_constant holds iff some CVT entry has both that pc and that mem_addr. |
| LvpuTables.AddCvt | src/cpu/minor/lvpu.hh:139 | add_cvt_entry appends `{pc, mem_addr}` iff the table holds fewer than num_cvt_entries entries, and so never exceeds the capacity. |
| LvpuTables.AddCvtThenVerify | src/cpu/minor/lvpu.hh:139-142 | An admitted pair verifies afterwards, and every pair that verified before still verifies. |
| LvpuTables.KeptAfterStore | src/cpu/minor/lvpu.hh:144-147 | After a store to an address, no remaining CVT entry has that address. An entry remains iff it was there and has another address. |
| LvpuTables.RemovedPcsMembers | src/cpu/minor/lvpu.hh:144-147 | update_store_addr returns a pc iff some CVT entry with that pc had the stored-to address. |
| LvpuTables.StoreStep | src/cpu/minor/lvpu.hh:144-147 | Scanning one more entry either keeps it (other address) or reports its pc (same address). |
| LvpuTables.StorePartitions | src/cpu/minor/lvpu.hh:144-147 | Each CVT entry is either kept or reported, so the kept count plus the reported count is the old table size. |
| LvpuTables.KeptSplits | src/cpu/minor/lvpu.hh:144-147 | The kept entries of a + b are those of a followed by those of b. So the survivors keep their order. |
| LvpuTables.RemovedSplits | src/cpu/minor/lvpu.hh:144-147 | The reported pcs of a + b are those of a followed by those of b. So they come in table order. |
| LvpuTables.RemovedPcs | src/cpu/minor/lvpu.hh:144-147 | The pcs update_store_addr returns. The list is empty iff no CVT entry has the stored-to address. |
| LvpuTables.Downgrade | src/cpu/minor/lvpu.hh:144-147 | The LCT after a store keeps its pcs. Every entry whose pc was reported steps its counter down once (saturating at 0), however often the pc was reported. Every other entry is unchanged. |
| LvpuTables.DowngradeLowers | src/cpu/minor/lvpu.hh:144-147 | A downgrade keeps counters within their width and never raises a counter. Every reported non-zero counter drops by exactly one. |
| LvpuTables.DowngradeOncePerPc | src/cpu/minor/lvpu.hh:144-147 | Reporting a pc a second time changes nothing: several removed entries of one load downgrade it once. |
| LvpuTables.DowngradeStep | src/cpu/minor/lvpu.hh:144-147 | With unique LCT pcs, reporting a new pc is one more decrement_counter of it. |
| LvpuTables.DowngradeClassification | src/cpu/minor/lvpu.hh:144-147 | With unique LCT pcs, a reported Constant load becomes Predictable with 2-bit counters and Unpredictable with 1-bit counters. An unreported load keeps its classification. |
| LvpuTables.StoreDemotesConstant | src/cpu/minor/lvpu.hh:144-147 | A store to an address demotes every Constant load that had a CVT entry at that address: to Predictable with 2-bit counters, to Unpredictable with 1-bit counters. |
| LvpuTables.IsPredictable | src/cpu/minor/lvpu.hh:130-131 | is_predictable is false under the never_predictable override and false without a valid LVPT entry. When it holds, pc has both an LVPT and an LCT entry. |
| LvpuTables.IsConstant | src/cpu/minor/lvpu.hh:133-134 | When is_constant(pc, mem_addr) holds, pc has an LVPT and an LCT entry, and some CVT entry pairs pc with mem_addr. |
| LvpuTables.IsPredictableIff | src/cpu/minor/lvpu.hh:130-131 | is_predictable holds iff all three hold: the override allows prediction, a valid LVPT entry for pc exists, and pc's LCT counter is in the upper half of its range (Predictable or Constant). |
| LvpuTables.IsConstantIff | src/cpu/minor/lvpu.hh:133-134 | is_constant(pc, mem_addr) holds iff all three hold: a valid LVPT entry for pc exists, pc's LCT counter is saturated (Constant), and the CVT pairs pc with mem_addr. |
| LvpuTables.ConstantIsPredictable | src/cpu/minor/lvpu.hh:130-134 | A Constant load is predictable unless the never_predictable override is set. With the override, it is not predictable. |
| LvpuTables.UnseenLoad | src/cpu/minor/lvpu.cc:186-203 | A pc without an LVPT entry is neither predictable nor constant. |
| LvpuTables.StoreInvalidatesConstant | src/cpu/minor/lvpu.hh:133-147 | After update_store_addr(a), no load is constant at address a, and the LCT counters stay within their width. |
| LvpuTables.StoreKeepsOtherAddresses | src/cpu/minor/lvpu.hh:144-147 | A store to a leaves verify_constant unchanged for every other address. |
| LvpuTables.ResolvedLct | src/cpu/minor/lvpu.cc:146-168 | prediction_results keeps the LCT's pcs and counter bounds. Without a valid LVPT entry the LCT is untouched. |
| LvpuTables.ResolveClassification | src/cpu/minor/lvpu.cc:146-168 | A correct prediction never lowers the load's classification. A misprediction never raises it. |
| LvpuTables.ResolveTimes | src/cpu/minor/lvpu.cc:146-168 | Repeated prediction_results calls keep the LCT's pcs and counter bounds. |
| LvpuTables.RepeatedValueKeepsEntry | src/cpu/minor/lvpu.cc:146-168 | After one or more loads of a registered pc returning v, its entry is valid and holds v. |
| LvpuTables.RewriteSameValue | src/cpu/minor/lvpu.cc:83-97 | Storing the value a valid entry already holds leaves the LVPT unchanged. |
| LvpuTables.CorrectPrediction | src/cpu/minor/lvpu.cc:146-168 | When the valid entry holds the value that comes back, one resolution leaves the LVPT as it was and increments pc's counter. |
| LvpuTables.IncTimes | src/cpu/minor/lvpu.hh:123-124 | Any number of increment_counter calls keeps the LCT's pcs and counter bounds. |
| LvpuTables.IncTimesSaturates | src/cpu/minor/lvpu.hh:123-124 | n increment_counter calls for pc raise its counter to min(counter + n, 2^bits - 1). |
| LvpuTables.RepeatedValueIncrements | src/cpu/minor/lvpu.cc:146-168 | Once the LVPT holds v for pc, n loads returning v act on the LCT exactly as n increment_counter calls for pc. |
| LvpuTables.RepeatedValueSaturates | src/cpu/minor/lvpu.cc:146-168 | Once the LVPT holds v, n more loads returning v are all correct predictions: the counter rises to min(counter + n, 2^bits - 1). |
| LvpuTables.NewLoadBecomesConstant | src/cpu/minor/lvpu.cc:146-168 | Consider a newly registered load (invalid entry, counter 0) that always returns the same value. It is Constant after 2^bits loads, and not after fewer. |
| Lvpu.LVPU.constructor | src/cpu/minor/lvpu.cc:24-44 | The unit starts with empty tables and the given configuration, and satisfies its invariant. |
| Lvpu.LVPU.FindEntry | src/cpu/minor/lvpu.cc:46-62 | The linear scan returns the least index with a matching pc, or -1 iff there is none. |
| Lvpu.LVPU.AddEntry | src/cpu/minor/lvpu.cc:64-81 | After add_entry, the LVPT is AddLvpt of the old one: the pc list grows by pc iff it was new. The invariant is kept. |
| Lvpu.LVPU.UpdateEntry | src/cpu/minor/lvpu.cc:83-97 | After update_entry, the LVPT is UpdateLvpt of the old one, with the same pcs. The invariant is kept. |
| Lvpu.LVPU.ValidEntry | src/cpu/minor/lvpu.cc:99-114 | Returns LvptValid of the table. It is false for an absent pc. |
| Lvpu.LVPU.ReadEntry | src/cpu/minor/lvpu.cc:116-127 | On a valid entry, returns the stored value. The table holds `{pc, true, value}`. |
| Lvpu.LVPU.PredictionResults | src/cpu/minor/lvpu.cc:146-168 | Reports a misprediction iff the entry was valid and held a different value. The counter moves up on a match and down on a mismatch. After the call, a present pc's entry is valid and holds the new value, whether or not the prediction matched. An absent pc leaves the LVPT unchanged. |
| Lvpu.LVPU.DecrementCounter | src/cpu/minor/lvpu.cc:170-173 | The LCT becomes DecCounter of the old one. The invariant is kept. |
| Lvpu.LVPU.IncrementCounter | src/cpu/minor/lvpu.cc:175-178 | The LCT becomes IncCounter of the old one. The invariant (counters within the width) is kept. |
| Lvpu.LVPU.AddLctEntry | src/cpu/minor/lvpu.cc:180-184 | The LCT becomes AddLct of the old one under num_lct_entries. The capacity and unique pcs are kept. |
| Lvpu.LVPU.AddCvtEntry | src/cpu/minor/lvpu.cc:205-208 | The CVT becomes AddCvt of the old one under num_cvt_entries. The capacity is kept. |
| Lvpu.LVPU.UpdateStoreAddr | src/cpu/minor/lvpu.cc:210-213 | The CVT loses exactly the entries at the stored-to address, keeping the others in order. The method returns exactly their pcs. The LCT becomes Downgrade of the old one: each returned pc steps down once, however many of its entries were removed. No remaining entry has the address. |

## Left out

- Statistics (`LVPUStats` and every `stats.*++`): counting plumbing, with no effect on the tables.
- `DPRINTF` tracing, the `Named` base class and the `MinorCPU` handle passed
  to the constructor: logging and simulator wiring.
- `num_lvpt_entries` is stored but never enforced. As in the source, the LVPT
  grows without bound and no entry is ever evicted.
- LCT replacement when the table is full. The header only raises it as an open
  TODO question (`lvpu.hh:127`). A full LCT drops the new entry.
- The `PredictionResults.entry_upgraded` field: `lvpu.cc` returns only the
  misprediction flag. The condition under which an increment makes a load
  Constant is proved separately (`Counters.UpgradeToConstant`).
- The `hacks` string values other than `never_predictable`: no code in these
  files reads them. The comparison as written (`lvpu.cc:192`) uses a
  multi-character literal and misses a semicolon, so the model keeps only its
  intent: the override forces `is_predictable` to false.
- LvpuTables.IsPredictable: follows the header and the comments in the
  body, not the body itself. As written, `lvpu.cc:195` returns
  `valid_entry(pc)` without consulting the LCT. The model also requires a
  Predictable or Constant classification.
- `read_entry`'s result on a missing or invalid entry: the source returns an
  uninitialised value. The model makes presence and validity a precondition.
- How the pipeline uses predictions, and when it calls these operations: that
  happens in other files, which are not part of this model.
- Counter widths other than 1 and 2 bits: the source defines no
  classification for them.
- Negative capacities (the source's parameters are `int`): capacities are `nat` here.
