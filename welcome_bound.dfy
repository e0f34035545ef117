/** The loop of welcome_client as written, bounded by `sizeof(players)`: a
    byte count, NUM_PLAYERS times the size of one player record, rather
    than the number of slots. The rest of the model scans NUM_PLAYERS
    slots (Lifecycle.WelcomeStep); this module shows where the two part. */
module WelcomeBound {
  import opened Types
  import opened PlayerTable

  /** What one run of the scan does: claims a slot, runs out of bound, or
      reads a slot past the end of the table. */
  datatype Probe = Claimed(slot: nat) | Exhausted | OutOfBounds(index: nat)

  /** The scan of welcome_client from index `i` on, with the loop bound
      `bound` as the C code has it. */
  function ScanAsWritten(tbl: seq<Player>, bound: nat, i: nat): Probe
    decreases bound - i
  {
    if i >= bound then Exhausted
    else if i >= |tbl| then OutOfBounds(i)
    else if !IsFree(tbl[i]) then ScanAsWritten(tbl, bound, i + 1)
    else Claimed(i)
  }

  /** Past a run of taken slots reaching the end of the table, the scan
      reads the slot one past the end whenever the bound lies beyond it. */
  lemma {:induction false} ScanRunsOffTheEnd(tbl: seq<Player>, bound: nat, i: nat)
    requires i <= |tbl| < bound
    requires forall j :: i <= j < |tbl| ==> !IsFree(tbl[j])
    ensures ScanAsWritten(tbl, bound, i) == OutOfBounds(|tbl|)
    decreases |tbl| - i
  {
    if i < |tbl| {
      ScanRunsOffTheEnd(tbl, bound, i + 1);
    }
  }

  /** The discrepancy: with every slot taken and a player record of more
      than one byte, the loop as written reads `players[NUM_PLAYERS]`
      instead of falling through to the "full" reply. */
  lemma FullTableOverrunsAsWritten(tbl: seq<Player>, recordSize: nat)
    requires |tbl| == NUM_PLAYERS && recordSize >= 2
    requires forall j :: 0 <= j < |tbl| ==> !IsFree(tbl[j])
    ensures ScanAsWritten(tbl, NUM_PLAYERS * recordSize, 0) == OutOfBounds(NUM_PLAYERS)
    ensures FirstFree(tbl).None?
  {
    ScanRunsOffTheEnd(tbl, NUM_PLAYERS * recordSize, 0);
  }

  /** While some slot is free the loop as written claims the same slot as
      the scan bounded by the table size. */
  lemma {:induction false} ScanAgreesWhenFree(tbl: seq<Player>, bound: nat, i: nat)
    requires i <= |tbl| <= bound
    requires FreeFrom(tbl, i).Some?
    ensures ScanAsWritten(tbl, bound, i) == Claimed(FreeFrom(tbl, i).value)
    decreases |tbl| - i
  {
    if i < |tbl| && !IsFree(tbl[i]) {
      ScanAgreesWhenFree(tbl, bound, i + 1);
    }
  }
}
