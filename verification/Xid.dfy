/**
 The transaction id generator of lib/cc_xid.c. The table of live ids is the set of ids that cc_lookup_xid_entry finds.
 The loop re-tests the first candidate and not the moving counter, so it can only end by coming full circle.
 */
module Xid {
  import opened Bytes

  /** What one call makes of the counter, which is also what it returns. */
  function Generated(latest: u32, live: set<u32>): u32 {
    if latest == UINT_MAX then (if 0 in live then 0 else UINT_MAX)
    else if latest + 1 in live then 0
    else latest + 1
  }

  /** How far the counter has to go, cyclically, to reach initial again. */
  ghost function Distance(latest: u32, initial: u32): nat {
    if latest == initial then UINT_RANGE else (initial as int - latest) % UINT_RANGE
  }

  class XidGenerator {
    var latest: u32

    constructor (latest: u32)
      ensures this.latest == latest
    {
      this.latest := latest;
    }

    method GenerateXid(live: set<u32>) returns (xid: u32)
      modifies this
      ensures xid == latest == Generated(old(latest), live)
      ensures old(latest) < 0xffff_ffff && old(latest) + 1 !in live ==> xid == old(latest) + 1
      ensures old(latest) == 0xffff_ffff && 0 !in live ==> xid == 0xffff_ffff
      ensures (if old(latest) < 0xffff_ffff then old(latest) + 1 else 0) in live ==> xid == 0
    {
      var initialValue: u32 := 0;
      if latest != UINT_MAX {
        latest := latest + 1;
        initialValue := latest;
      }
      while initialValue in live
        invariant initialValue in live || latest == Generated(old(latest), live)
        invariant initialValue == if old(latest) == UINT_MAX then 0 else old(latest) + 1
        decreases Distance(latest, initialValue)
      {
        if latest != UINT_MAX {
          latest := latest + 1;
        } else {
          latest := 0;
        }
        if initialValue == latest {
          latest := 0;
          break;
        }
      }
      xid := latest;
    }
  }

  /** The counter goes up by one if that is free and is 0 again if it is not; the greatest value stays if 0 is free. */
  lemma GeneratedIs(latest: u32, live: set<u32>)
    ensures latest < 0xffff_ffff ==> Generated(latest, live) == if latest + 1 in live then 0 else latest + 1
    ensures latest == 0xffff_ffff ==> Generated(latest, live) == if 0 in live then 0 else latest
  {
  }

  /** Exactly when the id that is returned is not in use. */
  lemma FreshWhen(latest: u32, live: set<u32>)
    ensures Generated(latest, live) !in live
       <==> if latest == UINT_MAX then 0 !in live && UINT_MAX !in live else latest + 1 !in live || 0 !in live
  {
  }

  /** An id in use is returned although another one is free. */
  lemma StaleAlthoughFree()
    ensures Generated(0, {0, 1}) in {0, 1} && 2 !in {0, 1}
  {
  }

  ghost function AfterCalls(latest: u32, calls: nat): u32 {
    if calls == 0 then latest else Generated(AfterCalls(latest, calls - 1), {})
  }

  /** With no id in use the counter goes up by one a call and then stays at its greatest value for good. */
  lemma {:induction false} CounterSaturates(latest: u32, calls: nat)
    ensures AfterCalls(latest, calls)
         == if latest as int + calls <= UINT_MAX then latest as int + calls else UINT_MAX
  {
    if calls > 0 {
      CounterSaturates(latest, calls - 1);
    }
  }
}
