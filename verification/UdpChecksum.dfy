/** The UDP checksum of RFC 768 as `_udp_checksum` in `tools/net_capture_tool.py` computes it. */
module UdpChecksum {
  import opened Bytes

  function Word16(high: nat, low: nat): nat { 256 * high + low }

  /** Sum of the big-endian 16-bit words from `i` on, an odd last byte padded with zero. */
  function Words(udp: Data, i: nat): nat
    decreases |udp| - i
  {
    if i + 1 < |udp| then Word16(udp[i], udp[i + 1]) + Words(udp, i + 2)
    else if i < |udp| then Word16(udp[i], 0)
    else 0
  }

  /** Addresses, protocol number and length: the part of the sum that is not in the segment. */
  function PseudoHeader(src: nat, dst: nat, length: nat): nat {
    (src / 0x1_0000) % 0x1_0000 + src % 0x1_0000 + (dst / 0x1_0000) % 0x1_0000 + dst % 0x1_0000 + 17 + length
  }

  /** End-around carry until the sum fits 16 bits. */
  function Fold(total: nat): (r: nat)
    ensures r <= 0xFFFF
  {
    if total / 0x1_0000 == 0 then total else Fold(total % 0x1_0000 + total / 0x1_0000)
  }

  /** The segment with the checksum field set to `v`. */
  function Stamped(udp: Data, v: nat): (d: Data)
    requires |udp| >= 8 && v <= 0xFFFF
    ensures |d| == |udp|
  {
    udp[6 := v / 256][7 := v % 256]
  }

  /** What a receiver computes: the ones-complement sum of pseudo-header and segment. */
  function ReceiverSum(src: nat, dst: nat, udp: Data): nat {
    Fold(PseudoHeader(src, dst, |udp|) + Words(udp, 0))
  }

  /** The segment with no checksum in it; one too short for a header has no checksum field. */
  function Cleared(udp: Data): (d: Data)
    ensures |d| == |udp|
  {
    if |udp| >= 8 then Stamped(udp, 0) else udp
  }

  /** The value the sender stores. */
  function ChecksumOf(src: nat, dst: nat, udp: Data): (c: nat)
    ensures 0 < c <= 0xFFFF
  {
    var r := 0xFFFF - ReceiverSum(src, dst, Cleared(udp));
    if r != 0 then r else 0xFFFF
  }

  lemma {:induction false} WordsAgree(a: Data, b: Data, i: nat)
    requires |a| == |b| && i <= |a| && a[i..] == b[i..]
    ensures Words(a, i) == Words(b, i)
    decreases |a| - i
  {
    assert forall j :: i <= j < |a| ==> a[j] == a[i..][j - i] == b[j];
    if i + 1 < |a| {
      assert a[i + 2..] == b[i + 2..];
      WordsAgree(a, b, i + 2);
    }
  }

  /** Stamping adds exactly the stamped value to the sum. */
  lemma StampedSum(udp: Data, v: nat)
    requires |udp| >= 8 && v <= 0xFFFF
    ensures Words(Stamped(udp, v), 0) == Words(Stamped(udp, 0), 0) + v
  {
    var a, b := Stamped(udp, v), Stamped(udp, 0);
    assert a[8..] == b[8..];
    WordsAgree(a, b, 8);
    assert Words(a, 6) == v + Words(a, 8) && Words(b, 6) == Words(b, 8);
    assert Words(a, 4) == Words(b, 4) + v;
    assert Words(a, 2) == Words(b, 2) + v;
  }

  lemma AddMultiple(r: nat, k: nat)
    ensures (r + 0xFFFF * k) % 0xFFFF == r % 0xFFFF
  {
  }

  /** Folding keeps the residue modulo 2^16 - 1, and only zero folds to zero. */
  lemma {:induction false} FoldResidue(total: nat)
    ensures Fold(total) % 0xFFFF == total % 0xFFFF
    ensures Fold(total) == 0 <==> total == 0
    decreases total
  {
    if total / 0x1_0000 != 0 {
      var once := total % 0x1_0000 + total / 0x1_0000;
      FoldResidue(once);
      assert total == once + 0xFFFF * (total / 0x1_0000);
      AddMultiple(once, total / 0x1_0000);
    }
  }

  /**
   The stored checksum is never zero, and among the non-zero values it is the only one a
   receiver accepts, for segments of every length.
   */
  lemma ChecksumVerifies(src: nat, dst: nat, udp: Data, v: nat)
    requires |udp| >= 8 && 0 < v <= 0xFFFF
    ensures ReceiverSum(src, dst, Stamped(udp, v)) == 0xFFFF <==> v == ChecksumOf(src, dst, udp)
  {
    var rest := PseudoHeader(src, dst, |udp|) + Words(Stamped(udp, 0), 0);
    hide Fold, Words, PseudoHeader;
    StampedSum(udp, v);
    FoldResidue(rest);
    FoldResidue(rest + v);
    var f := Fold(rest);
    SameResidue(rest, f, v);
    FullSum(Fold(rest + v));
    OnlyComplement(f, v);
  }

  lemma FullSum(f: nat)
    requires 0 < f <= 0xFFFF
    ensures f == 0xFFFF <==> f % 0xFFFF == 0
  {
  }

  lemma OnlyComplement(f: nat, v: nat)
    requires f <= 0xFFFF && 0 < v <= 0xFFFF
    ensures (f + v) % 0xFFFF == 0 <==> v == (if f != 0xFFFF then 0xFFFF - f else 0xFFFF)
  {
    if f + v > 0xFFFF {
      AddMultiple(f + v - 0xFFFF, 1);
    }
  }

  lemma SameResidue(a: nat, b: nat, v: nat)
    requires a % 0xFFFF == b % 0xFFFF
    ensures (a + v) % 0xFFFF == (b + v) % 0xFFFF
  {
    var r := a % 0xFFFF;
    AddMultiple(r + v, a / 0xFFFF);
    AddMultiple(r + v, b / 0xFFFF);
  }

  lemma FoldStep(total: nat)
    ensures Fold(total) == if total / 0x1_0000 == 0 then total else Fold(total % 0x1_0000 + total / 0x1_0000)
    ensures total / 0x1_0000 != 0 ==> total % 0x1_0000 + total / 0x1_0000 < total
  {
  }

  /** One word of the segment with its checksum cleared: the word itself, but nothing at offset 6. */
  lemma ClearedWord(udp: Data, i: nat)
    requires i % 2 == 0 && i + 1 < |udp|
    ensures Words(Cleared(udp), i) == (if i == 6 then 0 else Word16(udp[i], udp[i + 1])) + Words(Cleared(udp), i + 2)
  {
    assert i != 6 ==> Cleared(udp)[i] == udp[i] && Cleared(udp)[i + 1] == udp[i + 1];
    assert i == 6 ==> Cleared(udp)[6] == 0 && Cleared(udp)[7] == 0;
  }

  lemma ClearedEnd(udp: Data, i: nat)
    requires i % 2 == 0 && |udp| <= i + 1
    ensures Words(Cleared(udp), i) == if i < |udp| then Word16(udp[i], 0) else 0
  {
  }

  /** `_udp_checksum`, with its two loops. */
  method Checksum(src: nat, dst: nat, udp: Data) returns (result: nat)
    ensures result == ChecksumOf(src, dst, udp)
  {
    hide Words, Fold, PseudoHeader, Word16, Cleared;
    var total: nat := PseudoHeader(src, dst, |udp|);
    ghost var cleared := Cleared(udp);
    var i := 0;
    while i + 1 < |udp|
      invariant 0 <= i <= |udp| && i % 2 == 0
      invariant total + Words(cleared, i) == PseudoHeader(src, dst, |udp|) + Words(cleared, 0)
      decreases |udp| - i
    {
      ClearedWord(udp, i);
      if i != 6 {
        total := total + Word16(udp[i], udp[i + 1]);
      }
      i := i + 2;
    }
    ClearedEnd(udp, i);
    if i < |udp| {
      total := total + Word16(udp[i], 0);
    }
    ghost var sum: nat := total;
    while total / 0x1_0000 != 0
      invariant Fold(total) == Fold(sum)
      decreases total
    {
      FoldStep(total);
      total := total % 0x1_0000 + total / 0x1_0000;
    }
    FoldStep(total);
    result := 0xFFFF - total;
    if result == 0 {
      result := 0xFFFF;
    }
  }
}
