/**
 * test_update_dst of bpf/test_update_dst.h: an lwt_xmit program step that
 * rewrites the IPv6 destination fc00:a:ff:: to fc00:a:21:: in place and asks
 * the kernel to patch the ICMPv6 checksum for the four changed 32-bit words.
 *
 * The packet is a byte array.  The kernel helpers are not visible code: the
 * values they return are parameters (storeRet for bpf_skb_store_bytes,
 * csumRets[i] for the i-th bpf_l4_csum_replace), and each checksum request is
 * recorded as a CsumCall with its arguments instead of being applied.
 */
module Ipv6Rewrite {
  /** sizeof(struct ipv6hdr). */
  const HeaderLen: int := 40
  /** offsetof(struct ipv6hdr, nexthdr). */
  const NextHeaderOff: int := 6
  /** offsetof(struct ipv6hdr, daddr); the address is 16 bytes long. */
  const DstOff: int := 24
  const AddrLen: int := 16
  /** IPPROTO_ICMPV6. */
  const IcmpV6: bv8 := 58
  /** sizeof(struct ipv6hdr) + offsetof(struct icmp6hdr, icmp6_cksum). */
  const CsumOff: int := 42
  /** BPF_F_PSEUDO_HDR (bit 4) together with the field size 2. */
  const CsumFlags: int := 0x12

  /** fc00:a:ff:: — the destination that is rewritten. */
  const ToFind: seq<bv8> := [0xfc, 0x00, 0x00, 0x0a, 0x00, 0xff, 0x00, 0x00, 0, 0, 0, 0, 0, 0, 0, 0]
  /** fc00:a:21:: — what it is rewritten to. */
  const ToRepr: seq<bv8> := [0xfc, 0x00, 0x00, 0x0a, 0x00, 0x21, 0x00, 0x00, 0, 0, 0, 0, 0, 0, 0, 0]

  /** The program's two return codes: BPF_DROP (2) and BPF_LWT_REROUTE (128). */
  datatype Verdict = Drop | Reroute

  /** One bpf_l4_csum_replace(skb, offset, from, to, flags) request. */
  datatype CsumCall = CsumCall(offset: int, from: seq<bv8>, to: seq<bv8>, flags: int)

  /** What the program leaves behind: its verdict, the packet and the checksum requests. */
  datatype Outcome = Outcome(verdict: Verdict, packet: seq<bv8>, calls: seq<CsumCall>)

  /** The i-th 32-bit word (in6_u.u6_addr32[i]) of an address, as its four bytes in memory order. */
  function Word(addr: seq<bv8>, i: int): seq<bv8>
    requires |addr| == AddrLen && 0 <= i < 4
  {
    addr[4 * i..4 * i + 4]
  }

  function Dst(p: seq<bv8>): seq<bv8>
    requires |p| >= HeaderLen
  {
    p[DstOff..DstOff + AddrLen]
  }

  /** The requests for words 0 .. n-1, replacing oldDst by newDst. */
  function CsumCalls(oldDst: seq<bv8>, newDst: seq<bv8>, n: int): seq<CsumCall>
    requires |oldDst| == AddrLen && |newDst| == AddrLen && 0 <= n <= 4
  {
    seq(n, i requires 0 <= i < n => CsumCall(CsumOff, Word(oldDst, i), Word(newDst, i), CsumFlags))
  }

  /** The index of the first negative return code, or |rets| when there is none. */
  function FirstFailure(rets: seq<int>): (k: nat)
    ensures k <= |rets|
    ensures forall j :: 0 <= j < k ==> rets[j] >= 0
    ensures k < |rets| ==> rets[k] < 0
  {
    if rets == [] then 0 else if rets[0] < 0 then 0 else 1 + FirstFailure(rets[1..])
  }

  /** The packet with the destination field replaced by ToRepr. */
  function WithRepr(p: seq<bv8>): seq<bv8>
    requires |p| >= HeaderLen
  {
    p[..DstOff] + ToRepr + p[DstOff + AddrLen..]
  }

  /** Whether bpf_skb_store_bytes is called and succeeds. */
  predicate Stores(p: seq<bv8>, storeRet: int)
  {
    |p| >= HeaderLen && Dst(p) == ToFind && storeRet >= 0
  }

  /** What test_update_dst does to packet p. */
  function RewriteSpec(p: seq<bv8>, storeRet: int, csumRets: seq<int>): Outcome
    requires |csumRets| == 4
  {
    if |p| < HeaderLen then Outcome(Drop, p, [])
    else if Dst(p) != ToFind then Outcome(Reroute, p, [])
    else if storeRet < 0 then Outcome(Drop, p, [])
    else
      var q := WithRepr(p);
      if q[NextHeaderOff] != IcmpV6 then Outcome(Reroute, q, [])
      else
        var k := FirstFailure(csumRets);
        if k < 4 then Outcome(Drop, q, CsumCalls(Dst(p), Dst(q), k + 1))
        else Outcome(Reroute, q, CsumCalls(Dst(p), Dst(q), 4))
  }

  /**
   * bpf_skb_store_bytes(skb, off, bytes, |bytes|, 0) returning ret: on success
   * the bytes are copied into the packet and nothing else changes; on failure
   * the packet is left as it was.
   */
  method StoreBytes(pkt: array<bv8>, off: int, bytes: seq<bv8>, ret: int) returns (r: int)
    requires 0 <= off && off + |bytes| <= pkt.Length
    modifies pkt
    ensures r == ret
    ensures ret >= 0 ==> pkt[..] == old(pkt[..off]) + bytes + old(pkt[off + |bytes|..])
    ensures ret < 0 ==> pkt[..] == old(pkt[..])
  {
    if ret >= 0 {
      forall i | off <= i < off + |bytes| {
        pkt[i] := bytes[i - off];
      }
      assert pkt[..] == old(pkt[..off]) + bytes + old(pkt[off + |bytes|..]);
    }
    r := ret;
  }

  /**
   * The `for i < 4` loop: one checksum request per 32-bit word, stopping at
   * the first helper failure.  ok reports that all four succeeded.
   */
  method ChecksumFixup(oldDst: seq<bv8>, newDst: seq<bv8>, rets: seq<int>) returns (ok: bool, calls: seq<CsumCall>)
    requires |oldDst| == AddrLen && |newDst| == AddrLen && |rets| == 4
    ensures ok <==> FirstFailure(rets) == 4
    ensures ok ==> calls == CsumCalls(oldDst, newDst, 4)
    ensures !ok ==> calls == CsumCalls(oldDst, newDst, FirstFailure(rets) + 1)
  {
    calls := [];
    for i := 0 to 4
      invariant i <= FirstFailure(rets)
      invariant calls == CsumCalls(oldDst, newDst, i)
    {
      calls := calls + [CsumCall(CsumOff, Word(oldDst, i), Word(newDst, i), CsumFlags)];
      if rets[i] < 0 {
        return false, calls;
      }
    }
    ok := true;
  }

  /**
   * test_update_dst.  stored reports whether the destination was written,
   * which the caller in bpf/bpf.c uses to count rewrites.
   */
  method RewriteDst(pkt: array<bv8>, storeRet: int, csumRets: seq<int>) returns (v: Verdict, calls: seq<CsumCall>, stored: bool)
    requires |csumRets| == 4
    modifies pkt
    ensures RewriteSpec(old(pkt[..]), storeRet, csumRets) == Outcome(v, pkt[..], calls)
    ensures stored <==> Stores(old(pkt[..]), storeRet)
  {
    calls := [];
    stored := false;
    if pkt.Length < HeaderLen {
      return Drop, calls, stored;
    }
    var oldDst := pkt[DstOff..DstOff + AddrLen];
    if oldDst != ToFind {
      return Reroute, calls, stored;
    }
    var r := StoreBytes(pkt, DstOff, ToRepr, storeRet);
    if r < 0 {
      return Drop, calls, stored;
    }
    stored := true;
    var newDst := pkt[DstOff..DstOff + AddrLen];
    if pkt[NextHeaderOff] == IcmpV6 {
      var ok;
      ok, calls := ChecksumFixup(oldDst, newDst, csumRets);
      if !ok {
        return Drop, calls, stored;
      }
    }
    v := Reroute;
  }

  /** A packet shorter than an IPv6 header is dropped untouched. */
  lemma ShortPacketDropped(p: seq<bv8>, storeRet: int, csumRets: seq<int>)
    requires |csumRets| == 4 && |p| < HeaderLen
    ensures RewriteSpec(p, storeRet, csumRets) == Outcome(Drop, p, [])
  {
  }

  /** Any other destination is passed on unchanged, whatever the helpers would return. */
  lemma OtherDestinationUntouched(p: seq<bv8>, storeRet: int, csumRets: seq<int>)
    requires |csumRets| == 4 && |p| >= HeaderLen && Dst(p) != ToFind
    ensures RewriteSpec(p, storeRet, csumRets) == Outcome(Reroute, p, [])
  {
  }

  /** A matching destination becomes ToRepr, and no other byte of the packet changes. */
  lemma MatchRewritesOnlyDst(p: seq<bv8>, storeRet: int, csumRets: seq<int>)
    requires |csumRets| == 4 && Stores(p, storeRet)
    ensures var q := RewriteSpec(p, storeRet, csumRets).packet;
      |q| == |p| && Dst(q) == ToRepr &&
      (forall i :: 0 <= i < |p| && !(DstOff <= i < DstOff + AddrLen) ==> q[i] == p[i])
  {
  }

  /** A failed store drops the packet untouched. */
  lemma StoreFailureDrops(p: seq<bv8>, storeRet: int, csumRets: seq<int>)
    requires |csumRets| == 4 && |p| >= HeaderLen && Dst(p) == ToFind && storeRet < 0
    ensures RewriteSpec(p, storeRet, csumRets) == Outcome(Drop, p, [])
  {
  }

  /**
   * For a rewritten ICMPv6 packet whose helpers all succeed, the checksum
   * helper is asked exactly four times, at offset 42, call i replacing word i
   * of fc00:a:ff:: by word i of fc00:a:21::.
   */
  lemma IcmpChecksumRequests(p: seq<bv8>, storeRet: int, csumRets: seq<int>)
    requires |csumRets| == 4 && Stores(p, storeRet) && p[NextHeaderOff] == IcmpV6
    requires forall i :: 0 <= i < 4 ==> csumRets[i] >= 0
    ensures var o := RewriteSpec(p, storeRet, csumRets);
      o.verdict == Reroute && |o.calls| == 4 &&
      forall i :: 0 <= i < 4 ==> o.calls[i] == CsumCall(42, ToFind[4 * i..4 * i + 4], ToRepr[4 * i..4 * i + 4], CsumFlags)
  {
    var q := WithRepr(p);
    assert q[NextHeaderOff] == p[NextHeaderOff];
    assert Dst(q) == ToRepr;
  }

  /** A rewritten packet that is not ICMPv6 gets no checksum request and is rerouted. */
  lemma NonIcmpNoRequests(p: seq<bv8>, storeRet: int, csumRets: seq<int>)
    requires |csumRets| == 4 && Stores(p, storeRet) && p[NextHeaderOff] != IcmpV6
    ensures var o := RewriteSpec(p, storeRet, csumRets);
      o.verdict == Reroute && o.calls == []
  {
    assert WithRepr(p)[NextHeaderOff] == p[NextHeaderOff];
  }

  /**
   * If the checksum helper fails on some word, the packet is dropped, and the
   * requests stop at the first failing one: every earlier request succeeded.
   */
  lemma ChecksumFailureDrops(p: seq<bv8>, storeRet: int, csumRets: seq<int>, j: int)
    requires |csumRets| == 4 && Stores(p, storeRet) && p[NextHeaderOff] == IcmpV6
    requires 0 <= j < 4 && csumRets[j] < 0
    ensures var o := RewriteSpec(p, storeRet, csumRets);
      o.verdict == Drop && 1 <= |o.calls| <= j + 1 &&
      csumRets[|o.calls| - 1] < 0 && (forall i :: 0 <= i < |o.calls| - 1 ==> csumRets[i] >= 0)
  {
    assert WithRepr(p)[NextHeaderOff] == p[NextHeaderOff];
  }

  /** The verdict is Reroute exactly when no step failed. */
  lemma RerouteIffNoFailure(p: seq<bv8>, storeRet: int, csumRets: seq<int>)
    requires |csumRets| == 4
    ensures RewriteSpec(p, storeRet, csumRets).verdict == Reroute <==>
      |p| >= HeaderLen &&
      (Dst(p) != ToFind ||
       (storeRet >= 0 && (p[NextHeaderOff] != IcmpV6 || forall i :: 0 <= i < 4 ==> csumRets[i] >= 0)))
  {
    if Stores(p, storeRet) {
      assert WithRepr(p)[NextHeaderOff] == p[NextHeaderOff];
    }
  }

  /**
   * Rewriting is idempotent: the rewritten destination no longer matches, so
   * a second pass leaves the packet as it is and reroutes it.
   */
  lemma RewriteIdempotent(p: seq<bv8>, storeRet: int, csumRets: seq<int>, storeRet2: int, csumRets2: seq<int>)
    requires |csumRets| == 4 && |csumRets2| == 4 && Stores(p, storeRet)
    ensures var q := RewriteSpec(p, storeRet, csumRets).packet;
      RewriteSpec(q, storeRet2, csumRets2) == Outcome(Reroute, q, [])
  {
    var q := RewriteSpec(p, storeRet, csumRets).packet;
    assert Dst(q) == ToRepr;
    assert ToRepr[5] != ToFind[5];
  }
}
