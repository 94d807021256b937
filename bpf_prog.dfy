/**
 * do_test_data of bpf/bpf.c: the same destination rewrite as test_update_dst,
 * plus a count of successful rewrites in cell 0 of the pkt_count array map.
 *
 * The map is an array of __u64 cells: a lookup of key 0 fails exactly when the
 * array has no cell, and the 64-bit add wraps around.
 */
module BpfProgram {
  import opened Ipv6Rewrite
  import opened GoInts

  /** The counter after one increment_counter: cell 0 plus one, modulo 2^64, if the cell exists. */
  function Incremented(count: seq<Uint64>): (c: seq<Uint64>)
    ensures |c| == |count|
    ensures |count| > 0 ==> c[0] == (if count[0] == TwoTo64 - 1 then 0 else count[0] + 1)
    ensures forall i :: 0 < i < |count| ==> c[i] == count[i]
  {
    if |count| == 0 then count else count[0 := (count[0] + 1) % TwoTo64]
  }

  /** increment_counter: the lookup of key 0 and the atomic add of 1. */
  method IncrementCounter(pktCount: array<Uint64>)
    modifies pktCount
    ensures pktCount[..] == Incremented(old(pktCount[..]))
  {
    if pktCount.Length > 0 {
      pktCount[0] := (pktCount[0] + 1) % TwoTo64;
    }
  }

  /** The counter after do_test_data: incremented once exactly when the store succeeded. */
  function CountAfter(count: seq<Uint64>, p: seq<bv8>, storeRet: int): seq<Uint64>
  {
    if Stores(p, storeRet) then Incremented(count) else count
  }

  /**
   * do_test_data.  The counter is incremented right after a successful store
   * and before the checksum requests; the two touch disjoint state, so the
   * model does the rewrite first and counts afterwards.
   */
  method DoTestData(pkt: array<bv8>, pktCount: array<Uint64>, storeRet: int, csumRets: seq<int>)
    returns (v: Verdict, calls: seq<CsumCall>)
    requires |csumRets| == 4
    requires pkt as object != pktCount as object  // the packet and the map are separate kernel memory
    modifies pkt, pktCount
    ensures RewriteSpec(old(pkt[..]), storeRet, csumRets) == Outcome(v, pkt[..], calls)
    ensures pktCount[..] == CountAfter(old(pktCount[..]), old(pkt[..]), storeRet)
  {
    var stored;
    v, calls, stored := RewriteDst(pkt, storeRet, csumRets);
    if stored {
      IncrementCounter(pktCount);
    }
  }

  /** A short packet is dropped, untouched and not counted. */
  lemma ShortPacketNotCounted(count: seq<Uint64>, p: seq<bv8>, storeRet: int, csumRets: seq<int>)
    requires |csumRets| == 4 && |p| < HeaderLen
    ensures RewriteSpec(p, storeRet, csumRets).verdict == Drop
    ensures CountAfter(count, p, storeRet) == count
  {
  }

  /** Another destination is rerouted with the packet and the counter unchanged. */
  lemma OtherDestinationNotCounted(count: seq<Uint64>, p: seq<bv8>, storeRet: int, csumRets: seq<int>)
    requires |csumRets| == 4 && |p| >= HeaderLen && Dst(p) != ToFind
    ensures RewriteSpec(p, storeRet, csumRets) == Outcome(Reroute, p, [])
    ensures CountAfter(count, p, storeRet) == count
  {
  }

  /**
   * The counter moves by exactly one for each stored rewrite, whatever the
   * checksum requests later return, and not at all when the store fails.
   */
  lemma CountsStoredRewrites(count: seq<Uint64>, p: seq<bv8>, storeRet: int)
    requires |count| > 0 && |p| >= HeaderLen && Dst(p) == ToFind
    ensures storeRet >= 0 ==>
      CountAfter(count, p, storeRet)[0] == (count[0] + 1) % TwoTo64
    ensures storeRet < 0 ==> CountAfter(count, p, storeRet) == count
  {
  }

  /**
   * Two packets in a row: the second one can never be the already rewritten
   * first one, so feeding a rewritten packet back counts nothing.
   */
  lemma RewrittenPacketNotCountedAgain(count: seq<Uint64>, p: seq<bv8>, storeRet: int, csumRets: seq<int>, storeRet2: int)
    requires |csumRets| == 4 && Stores(p, storeRet)
    ensures var q := RewriteSpec(p, storeRet, csumRets).packet;
      CountAfter(count, q, storeRet2) == count
  {
    RewriteIdempotent(p, storeRet, csumRets, storeRet2, csumRets);
  }
}
