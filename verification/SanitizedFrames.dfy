/** What sanitizing a frame keeps: its layout, its DHCP meaning, and a valid checksum. */
module SanitizedFrames {
  import opened Bytes
  import opened UdpChecksum
  import opened FrameLayout
  import opened Sanitizer

  // ---- What stays the same -------------------------------------------------------------

  ghost predicate Covered(fields: seq<Field>, i: int) {
    exists k :: 0 <= k < |fields| && fields[k].Covers(i)
  }

  predicate ChecksumByte(f: Data, i: int)
    requires |f| >= ETHERNET
  {
    var d := FindDhcp(f);
    d.Dhcp? && d.udp + 6 <= i < d.udp + 8
  }

  /** Payload fields lie past the fixed part of the DHCP message. */
  lemma PayloadFieldsLieDeep(f: Data)
    requires |f| >= ETHERNET
    ensures forall k :: 0 <= k < |PayloadFields(f)| && FindDhcp(f).Dhcp? ==>
      FindDhcp(f).udp + 36 <= PayloadFields(f)[k].at
    ensures forall k :: 0 <= k < |Fields(f)| ==>
      Fields(f)[k].End() <= 12 || (2 <= k < |PayloadFields(f)| + 2 && Fields(f)[k] == PayloadFields(f)[k - 2])
    ensures FindDhcp(f).Dhcp? ==> Read16(f, 12) == 0x0800
  {
    hide OptionFields, ClientField;
  }

  lemma StampTouchesChecksumOnly(f: Data, patched: Data, d: Dhcp)
    requires |patched| == |f| && d.Dhcp? && 34 <= d.udp && d.length >= 8 && d.End() <= |f|
    ensures forall i :: 0 <= i < |f| && !(d.udp + 6 <= i < d.udp + 8) ==> Rechecked(f, patched, d)[i] == patched[i]
  {
    hide ChecksumOf;
  }

  /** Apart from the checksum, the sanitized frame is the patched frame. */
  lemma SanitizedIsPatched(f: Data, id: Identity, hash: Hash)
    requires |f| >= ETHERNET
    ensures forall i :: 0 <= i < |f| && !ChecksumByte(f, i) ==>
      Sanitized(f, id, hash)[i] == Patch(f, f, Fields(f), id, hash)[i]
  {
    hide Fields, Patch, FindDhcp, Rechecked;
    var d := FindDhcp(f);
    if d.Dhcp? {
      StampTouchesChecksumOnly(f, Patch(f, f, Fields(f), id, hash), d);
    }
  }

  /** No byte outside the recognised fields and the UDP checksum changes. */
  lemma OnlyFieldsChange(f: Data, id: Identity, hash: Hash, i: nat)
    requires i < |f|
    requires |f| >= ETHERNET ==> !Covered(Fields(f), i) && !ChecksumByte(f, i)
    ensures Sanitized(f, id, hash)[i] == f[i]
  {
    if |f| >= ETHERNET {
      hide Fields, Patch, ChecksumByte, Sanitized;
      SanitizedIsPatched(f, id, hash);
      PatchElsewhere(f, f, Fields(f), id, hash, i);
    }
  }

  /** No field covers the checksum. */
  lemma ChecksumIsNoField(f: Data, k: nat, i: nat)
    requires |f| >= ETHERNET && k < |Fields(f)| && Fields(f)[k].Covers(i)
    ensures !ChecksumByte(f, i)
  {
    hide Fields, PayloadFields, FindDhcp;
    PayloadFieldsLieDeep(f);
  }

  /** Every field holds its replacement afterwards. */
  lemma FieldsAreReplaced(f: Data, id: Identity, hash: Hash, k: nat)
    requires |f| >= ETHERNET && k < |Fields(f)|
    ensures var x := Fields(f)[k];
      Sanitized(f, id, hash)[x.at..x.End()] == Replacement(f, x, id, hash)
  {
    hide Patch, Sanitized, ChecksumByte, Fields;
    var x := Fields(f)[k];
    var s, patched := Sanitized(f, id, hash), Patch(f, f, Fields(f), id, hash);
    SanitizedIsPatched(f, id, hash);
    PatchField(f, f, Fields(f), id, hash, k);
    forall i | x.at <= i < x.End()
      ensures s[i] == patched[i]
    {
      ChecksumIsNoField(f, k, i);
    }
    assert s[x.at..x.End()] == patched[x.at..x.End()];
  }

  /** Outside fields and checksum, `g` is `f`. */
  ghost predicate SameElsewhere(g: Data, f: Data)
    requires |f| >= ETHERNET
  {
    |g| == |f| && forall i :: 0 <= i < |f| && !Covered(Fields(f), i) && !ChecksumByte(f, i) ==> g[i] == f[i]
  }

  lemma SanitizedIsSameElsewhere(f: Data, id: Identity, hash: Hash)
    requires |f| >= ETHERNET
    ensures SameElsewhere(Sanitized(f, id, hash), f)
  {
    hide Sanitized;
    forall i | 0 <= i < |f| && !Covered(Fields(f), i) && !ChecksumByte(f, i)
      ensures Sanitized(f, id, hash)[i] == f[i]
    {
      OnlyFieldsChange(f, id, hash, i);
    }
  }

  /** The bytes between the Ethernet addresses and the first payload field, checksum apart. */
  lemma SameHeaders(g: Data, f: Data)
    requires |f| >= ETHERNET && SameElsewhere(g, f)
    ensures var d := FindDhcp(f);
      forall i | 12 <= i < |f| && !(d.Dhcp? && d.udp + 6 <= i) && !(Read16(f, 12) == 0x0806 && 22 <= i < 38)
      :: g[i] == f[i]
    ensures var d := FindDhcp(f);
      d.Dhcp? ==> forall i :: d.udp + 8 <= i < |f| && !Covered(DhcpFields(f, d), i) ==> g[i] == f[i]
  {
    hide DhcpFields, FindDhcp;
    var d := FindDhcp(f);
    forall i | 12 <= i < |f| && !(d.Dhcp? && d.udp + 6 <= i) && !(Read16(f, 12) == 0x0806 && 22 <= i < 38)
      ensures g[i] == f[i]
    {
      HeaderNotCovered(f, i);
    }
    if d.Dhcp? {
      forall i | d.udp + 8 <= i < |f| && !Covered(DhcpFields(f, d), i)
        ensures g[i] == f[i]
      {
        PayloadCover(f, i);
      }
    }
  }

  lemma HeaderNotCovered(f: Data, i: nat)
    requires |f| >= ETHERNET && 12 <= i < |f|
    requires var d := FindDhcp(f); !(d.Dhcp? && d.udp + 6 <= i) && !(Read16(f, 12) == 0x0806 && 22 <= i < 38)
    ensures !Covered(Fields(f), i)
  {
    hide DhcpFields;
    PayloadFieldsLieDeep(f);
  }

  lemma PayloadCover(f: Data, i: nat)
    requires |f| >= ETHERNET && FindDhcp(f).Dhcp? && FindDhcp(f).udp + 8 <= i < |f|
    requires !Covered(DhcpFields(f, FindDhcp(f)), i)
    ensures !Covered(Fields(f), i)
  {
    hide DhcpFields;
    PayloadFieldsLieDeep(f);
    assert PayloadFields(f) == DhcpFields(f, FindDhcp(f));
  }

  // ---- The layout survives -------------------------------------------------------------

  lemma OptionsHere(f: Data, p: nat, end: nat)
    requires end <= |f|
    ensures p < end && f[p] == 0 ==>
      Options(f, p, end) == Options(f, p + 1, end) && OptionFields(f, p, end) == OptionFields(f, p + 1, end)
    ensures WholeOption(f, p, end) ==>
      var o, next := Option(p + 2, f[p], f[p + 1]), p + 2 + f[p + 1];
      && Options(f, p, end) == [o] + Options(f, next, end)
      && OptionFields(f, p, end) == OptionField(f, o) + OptionFields(f, next, end)
    ensures !(p < end && f[p] == 0) && !WholeOption(f, p, end) ==>
      Options(f, p, end) == [] && OptionFields(f, p, end) == []
  {
  }

  /** The option walk reads codes and lengths only, and no field covers those. */
  lemma {:induction false} OptionsSurvive(g: Data, f: Data, p: nat, end: nat)
    requires end <= |f| && SameBut(g, f, p, end)
    ensures |g| == |f| && Options(g, p, end) == Options(f, p, end) && OptionFields(g, p, end) == OptionFields(f, p, end)
    decreases end - p
  {
    hide Options, OptionFields, OptionField, Covered;
    OptionsHere(f, p, end);
    OptionsHere(g, p, end);
    if p < end && f[p] == 0 {
      PadStep(g, f, p, end);
      OptionsSurvive(g, f, p + 1, end);
    } else if WholeOption(f, p, end) {
      OptionStepSame(g, f, p, end);
      OptionsSurvive(g, f, p + 2 + f[p + 1], end);
      OptionFieldSurvives(g, f, p, end);
    } else {
      NoFieldsLeft(g, f, p, end);
    }
  }

  lemma FieldsPastCode(f: Data, p: nat, end: nat)
    requires p < end <= |f|
    ensures !Covered(OptionFields(f, p, end), p)
    ensures f[p] != 0 ==> !Covered(OptionFields(f, p, end), p + 1)
  {
  }

  lemma CoveredConcat(a: seq<Field>, b: seq<Field>, i: int)
    ensures Covered(a + b, i) <==> Covered(a, i) || Covered(b, i)
  {
    if Covered(a, i) {
      var k :| 0 <= k < |a| && a[k].Covers(i);
      assert (a + b)[k].Covers(i);
    }
    if Covered(b, i) {
      var k :| 0 <= k < |b| && b[k].Covers(i);
      assert (a + b)[|a| + k].Covers(i);
    }
  }

  lemma OwnCover(f: Data, o: Option, i: int)
    requires o.at + o.length <= |f|
    ensures Covered(OptionField(f, o), i) ==> o.at <= i < o.at + o.length
  {
    if Covered(OptionField(f, o), i) {
      var k :| 0 <= k < |OptionField(f, o)| && OptionField(f, o)[k].Covers(i);
      assert OptionField(f, o)[k] in OptionField(f, o);
    }
  }

  /** Past an option, only the later options' fields cover anything. */
  lemma TailCover(f: Data, p: nat, end: nat)
    requires p + 1 < end <= |f| && f[p] != 0 && f[p] != 0xFF && p + 2 + f[p + 1] <= end
    ensures var next := p + 2 + f[p + 1];
      forall i :: next <= i && Covered(OptionFields(f, p, end), i) ==> Covered(OptionFields(f, next, end), i)
  {
    var o, next := Option(p + 2, f[p], f[p + 1]), p + 2 + f[p + 1];
    forall i | next <= i && Covered(OptionFields(f, p, end), i)
      ensures Covered(OptionFields(f, next, end), i)
    {
      CoveredConcat(OptionField(f, o), OptionFields(f, next, end), i);
      OwnCover(f, o, i);
    }
  }

  /** A byte of an option's value that its own field does not cover stays. */
  lemma ValueByte(f: Data, p: nat, end: nat, i: nat)
    requires p + 1 < end <= |f| && f[p] != 0 && f[p] != 0xFF && p + 2 + f[p + 1] <= end
    requires p + 2 <= i < p + 2 + f[p + 1]
    requires !Covered(OptionField(f, Option(p + 2, f[p], f[p + 1])), i)
    ensures !Covered(OptionFields(f, p, end), i)
  {
    var rest := OptionFields(f, p + 2 + f[p + 1], end);
    CoveredConcat(OptionField(f, Option(p + 2, f[p], f[p + 1])), rest, i);
    assert !Covered(rest, i);
  }

  lemma OptionFieldSurvives(g: Data, f: Data, p: nat, end: nat)
    requires |g| == |f| && p + 1 < end <= |f| && f[p] != 0 && f[p] != 0xFF && p + 2 + f[p + 1] <= end
    requires forall i :: p <= i < |f| && !Covered(OptionFields(f, p, end), i) ==> g[i] == f[i]
    ensures var o := Option(p + 2, f[p], f[p + 1]);
      OptionField(g, o) == OptionField(f, o)
  {
    hide OptionFields;
    if f[p] == 61 && f[p + 1] == 7 {
      assert !Covered(OptionField(f, Option(p + 2, f[p], f[p + 1])), p + 2);
      ValueByte(f, p, end, p + 2);
    }
  }

  // ---- The DHCP summary ----------------------------------------------------------------

  datatype Summary = NoSummary | Raises | Summary(messageType: nat, yiaddr: nat)

  /** The last DHCP message type the decoder's own walk meets; it runs to the end of the frame. */
  function MessageType(f: Data, p: nat, sofar: nat, yiaddr: nat): Summary
    decreases |f| - p
  {
    if p + 1 >= |f| || f[p] == 0xFF then Summary(sofar, yiaddr)
    else if f[p] == 0 then MessageType(f, p + 1, sofar, yiaddr)
    else if f[p] == 53 && f[p + 1] >= 1 then
      if p + 2 >= |f| then Raises else MessageType(f, p + 2 + f[p + 1], f[p + 2], yiaddr)
    else MessageType(f, p + 2 + f[p + 1], sofar, yiaddr)
  }

  /** `decode_dhcp_summary`; the text it prints is a function of this. */
  function Summarize(f: Data): Summary {
    if |f| < 42 || Read16(f, 12) != 0x0800 || f[23] != 17 then NoSummary
    else
      var udp := 14 + (f[14] % 16) * 4;
      if udp + 8 > |f| || !(DhcpPort(Read16(f, udp)) || DhcpPort(Read16(f, udp + 2))) || udp + 248 > |f| then NoSummary
      else
        var yiaddr := Read32(f, udp + 24);
        if HasCookie(f, udp + 244) then MessageType(f, udp + 248, 0, yiaddr) else Summary(0, yiaddr)
  }

  /** The decoder as it runs; its loop over the options remembers the last message type. */
  method DecodeSummary(f: Data) returns (s: Summary)
    ensures s == Summarize(f)
  {
    hide MessageType, Read16, Read32, HasCookie, DhcpPort;
    if |f| < 42 || Read16(f, 12) != 0x0800 || f[23] != 17 {
      return NoSummary;
    }
    var udp := 14 + (f[14] % 16) * 4;
    if udp + 8 > |f| || !(DhcpPort(Read16(f, udp)) || DhcpPort(Read16(f, udp + 2))) || udp + 248 > |f| {
      return NoSummary;
    }
    var yiaddr := Read32(f, udp + 24);
    if HasCookie(f, udp + 244) {
      s := DecodeOptions(f, udp + 248, yiaddr);
    } else {
      s := Summary(0, yiaddr);
    }
  }

  method DecodeOptions(f: Data, start: nat, yiaddr: nat) returns (s: Summary)
    ensures s == MessageType(f, start, 0, yiaddr)
  {
    var messageType: nat := 0;
    var p := start;
    while p + 1 < |f| && f[p] != 0xFF
      invariant MessageType(f, p, messageType, yiaddr) == MessageType(f, start, 0, yiaddr)
      decreases |f| - p
    {
      if f[p] == 0 {
        p := p + 1;
        continue;
      }
      if f[p] == 53 && f[p + 1] >= 1 {
        if p + 2 >= |f| {
          return Raises;
        }
        messageType := f[p + 2];
      }
      p := p + 2 + f[p + 1];
    }
    s := Summary(messageType, yiaddr);
  }

  lemma {:induction false} MessageTypeOfSuffix(g: Data, f: Data, p: nat, sofar: nat, yiaddr: nat)
    requires |g| == |f| && forall i :: p <= i < |f| ==> g[i] == f[i]
    ensures MessageType(g, p, sofar, yiaddr) == MessageType(f, p, sofar, yiaddr)
    decreases |f| - p
  {
    if p + 1 < |f| && f[p] != 0xFF {
      if f[p] == 0 {
        MessageTypeOfSuffix(g, f, p + 1, sofar, yiaddr);
      } else if !(f[p] == 53 && f[p + 1] >= 1) {
        MessageTypeOfSuffix(g, f, p + 2 + f[p + 1], sofar, yiaddr);
      } else if p + 2 < |f| {
        MessageTypeOfSuffix(g, f, p + 2 + f[p + 1], f[p + 2], yiaddr);
      }
    }
  }

  /** From `p` on, only bytes of rewritten option fields differ. */
  ghost predicate SameBut(g: Data, f: Data, p: nat, end: nat)
    requires end <= |f|
  {
    |g| == |f| && forall i :: p <= i < |f| && !Covered(OptionFields(f, p, end), i) ==> g[i] == f[i]
  }

  predicate WholeOption(f: Data, p: nat, end: nat)
    requires end <= |f|
  {
    p + 1 < end && f[p] != 0 && f[p] != 0xFF && p + 2 + f[p + 1] <= end
  }

  lemma NoFieldsLeft(g: Data, f: Data, p: nat, end: nat)
    requires end <= |f| && SameBut(g, f, p, end) && !WholeOption(f, p, end) && !(p + 1 < end && f[p] == 0)
    ensures forall i :: p <= i < |f| ==> g[i] == f[i]
  {
    assert OptionFields(f, p, end) == [];
    assert forall i :: !Covered([], i);
  }

  lemma PadStep(g: Data, f: Data, p: nat, end: nat)
    requires p < end <= |f| && SameBut(g, f, p, end) && f[p] == 0
    ensures g[p] == 0 && SameBut(g, f, p + 1, end)
  {
    FieldsPastCode(f, p, end);
    assert OptionFields(f, p, end) == OptionFields(f, p + 1, end);
  }

  lemma OptionStepSame(g: Data, f: Data, p: nat, end: nat)
    requires end <= |f| && SameBut(g, f, p, end) && WholeOption(f, p, end)
    ensures g[p] == f[p] && g[p + 1] == f[p + 1] && SameBut(g, f, p + 2 + f[p + 1], end)
    ensures f[p] == 53 && f[p + 1] >= 1 ==> g[p + 2] == f[p + 2]
  {
    hide OptionFields;
    FieldsPastCode(f, p, end);
    TailCover(f, p, end);
    if f[p] == 53 && f[p + 1] >= 1 {
      MessageTypeValue(f, p, end);
    }
  }

  lemma MessageTypeHere(f: Data, p: nat, end: nat, sofar: nat, yiaddr: nat)
    requires p < end <= |f|
    ensures f[p] == 0 && p + 1 < |f| ==> MessageType(f, p, sofar, yiaddr) == MessageType(f, p + 1, sofar, yiaddr)
    ensures WholeOption(f, p, end) ==>
      var kind := if f[p] == 53 && f[p + 1] >= 1 then f[p + 2] else sofar;
      MessageType(f, p, sofar, yiaddr) == MessageType(f, p + 2 + f[p + 1], kind, yiaddr)
  {
  }

  /** The decoder's walk, which is not the sanitizer's, reads nothing the sanitizer rewrites. */
  lemma {:induction false} MessageTypeSurvives(g: Data, f: Data, p: nat, end: nat, sofar: nat, yiaddr: nat)
    requires end <= |f| && SameBut(g, f, p, end)
    ensures |g| == |f| && MessageType(g, p, sofar, yiaddr) == MessageType(f, p, sofar, yiaddr)
    decreases end - p
  {
    hide MessageType, Covered, OptionFields;
    if p + 1 < end && f[p] == 0 {
      PadStep(g, f, p, end);
      MessageTypeHere(g, p, end, sofar, yiaddr);
      MessageTypeHere(f, p, end, sofar, yiaddr);
      MessageTypeSurvives(g, f, p + 1, end, sofar, yiaddr);
    } else if WholeOption(f, p, end) {
      OptionStepSame(g, f, p, end);
      MessageTypeHere(g, p, end, sofar, yiaddr);
      MessageTypeHere(f, p, end, sofar, yiaddr);
      MessageTypeSurvives(g, f, p + 2 + f[p + 1], end, if f[p] == 53 && f[p + 1] >= 1 then f[p + 2] else sofar, yiaddr);
    } else {
      NoFieldsLeft(g, f, p, end);
      MessageTypeOfSuffix(g, f, p, sofar, yiaddr);
    }
  }

  lemma MessageTypeValue(f: Data, p: nat, end: nat)
    requires p + 1 < end <= |f| && f[p] == 53 && f[p + 1] >= 1 && p + 2 + f[p + 1] <= end
    ensures !Covered(OptionFields(f, p, end), p + 2)
  {
    ValueByte(f, p, end, p + 2);
  }

  // ---- Main results for one frame ------------------------------------------------------

  lemma SameDhcp(g: Data, f: Data)
    requires |f| >= ETHERNET && SameElsewhere(g, f)
    ensures Read16(g, 12) == Read16(f, 12) && FindDhcp(g) == FindDhcp(f)
  {
    hide SameElsewhere;
    SameLength(g, f);
    SameHeaders(g, f);
  }

  lemma SameLength(g: Data, f: Data)
    requires |f| >= ETHERNET && SameElsewhere(g, f)
    ensures |g| == |f|
  {
  }

  /** The option bytes satisfy what the walk lemmas ask for. */
  lemma OptionBytesSame(g: Data, f: Data)
    requires |f| >= ETHERNET && SameElsewhere(g, f) && FindDhcp(f).Dhcp?
    ensures |g| == |f|
    ensures var d := FindDhcp(f);
      var start := d.Cookie() + 4;
      && (forall i :: d.udp + 8 <= i < |f| && i < d.udp + 36 ==> g[i] == f[i])
      && (start <= |f| ==> g[d.Cookie()..start] == f[d.Cookie()..start])
      && (start <= |f| ==> HasCookie(g, d.Cookie()) == HasCookie(f, d.Cookie()))
      && (start <= d.End() && HasCookie(f, d.Cookie()) ==>
            forall i :: start <= i < |f| && !Covered(OptionFields(f, start, d.End()), i) ==> g[i] == f[i])
      && (!(start <= d.End() && HasCookie(f, d.Cookie())) ==> forall i :: d.udp + 42 <= i < |f| ==> g[i] == f[i])
  {
    hide SameElsewhere, FindDhcp, OptionFields, ClientField;
    SameLength(g, f);
    SameHeaders(g, f);
    var d := FindDhcp(f);
    var start := d.Cookie() + 4;
    var rest := if start <= d.End() && HasCookie(f, d.Cookie()) then OptionFields(f, start, d.End()) else [];
    assert DhcpFields(f, d) == ClientField(f, d) + rest;
    forall i | d.udp + 8 <= i < |f|
      ensures i < d.udp + 36 || (d.udp + 42 <= i && !Covered(rest, i)) ==> g[i] == f[i]
    {
      CoveredConcat(ClientField(f, d), rest, i);
    }
  }

  /** Sanitizing leaves the recognised fields, the options and their codes and lengths where they were. */
  lemma LayoutSurvives(f: Data, id: Identity, hash: Hash)
    requires |f| >= ETHERNET
    ensures var g, d := Sanitized(f, id, hash), FindDhcp(f);
      && FindDhcp(g) == d
      && (d.Dhcp? && d.Cookie() + 4 <= d.End() ==>
            HasCookie(g, d.Cookie()) == HasCookie(f, d.Cookie()) &&
            (HasCookie(f, d.Cookie()) ==>
               Options(g, d.Cookie() + 4, d.End()) == Options(f, d.Cookie() + 4, d.End()) &&
               OptionFields(g, d.Cookie() + 4, d.End()) == OptionFields(f, d.Cookie() + 4, d.End())))
  {
    hide Sanitized, SameElsewhere, FindDhcp, OptionFields, Options, HasCookie;
    var g, d := Sanitized(f, id, hash), FindDhcp(f);
    SanitizedIsSameElsewhere(f, id, hash);
    SameDhcp(g, f);
    if d.Dhcp? {
      OptionBytesSame(g, f);
      if d.Cookie() + 4 <= d.End() && HasCookie(f, d.Cookie()) {
        OptionsSurvive(g, f, d.Cookie() + 4, d.End());
      }
    }
  }

  lemma FieldsSurvive(f: Data, id: Identity, hash: Hash)
    requires |f| >= ETHERNET
    ensures Fields(Sanitized(f, id, hash)) == Fields(f)
  {
    hide Sanitized, SameElsewhere, FindDhcp, OptionFields, Options, HasCookie;
    var g, d := Sanitized(f, id, hash), FindDhcp(f);
    LayoutSurvives(f, id, hash);
    SanitizedIsSameElsewhere(f, id, hash);
    SameDhcp(g, f);
    if d.Dhcp? {
      OptionBytesSame(g, f);
      assert ClientField(g, d) == ClientField(f, d);
    }
  }

  lemma ReadsSame(g: Data, f: Data, at: nat)
    requires |g| == |f| && 12 <= at && at + 4 <= |f| && forall i :: 12 <= i < |f| ==> g[i] == f[i]
    ensures Read16(g, at) == Read16(f, at) && Read32(g, at) == Read32(f, at) && HasCookie(g, at) == HasCookie(f, at)
  {
    assert g[at..at + 4] == f[at..at + 4];
  }

  /** A frame without DHCP fields decodes from bytes the sanitizer leaves alone. */
  lemma SummaryOfHeaders(g: Data, f: Data)
    requires |g| == |f| && |f| >= ETHERNET && Read16(g, 12) == Read16(f, 12)
    requires Read16(f, 12) != 0x0800 || forall i :: 12 <= i < |f| ==> g[i] == f[i]
    ensures Summarize(g) == Summarize(f)
  {
    hide MessageType, Read16, Read32, HasCookie, DhcpPort;
    if |f| >= 42 && Read16(f, 12) == 0x0800 && f[23] == 17 {
      var udp := 14 + (f[14] % 16) * 4;
      if udp + 8 <= |f| {
        ReadsSame(g, f, udp);
        ReadsSame(g, f, udp + 2);
      }
      if udp + 248 <= |f| {
        ReadsSame(g, f, udp + 24);
        ReadsSame(g, f, udp + 244);
        MessageTypeOfSuffix(g, f, udp + 248, 0, Read32(f, udp + 24));
      }
    }
  }

  /** `decode_dhcp_summary` gives the same answer before and after sanitizing, for every frame. */
  lemma SummarySurvives(f: Data, id: Identity, hash: Hash)
    ensures Summarize(Sanitized(f, id, hash)) == Summarize(f)
  {
    if |f| < ETHERNET {
      ShortFrame(f, id, hash);
    } else {
      hide Sanitized, SameElsewhere, FindDhcp, OptionFields, HasCookie, Summarize;
      var g, d := Sanitized(f, id, hash), FindDhcp(f);
      SanitizedIsSameElsewhere(f, id, hash);
      SameDhcp(g, f);
      if d.NoDhcp? {
        SameHeaders(g, f);
        SummaryOfHeaders(g, f);
      } else {
        DhcpSummarySurvives(g, f);
      }
    }
  }

  lemma DhcpSummarySurvives(g: Data, f: Data)
    requires |f| >= ETHERNET && SameElsewhere(g, f) && FindDhcp(f).Dhcp?
    ensures Summarize(g) == Summarize(f)
  {
    hide SameElsewhere, OptionFields, HasCookie, MessageType;
    var d := FindDhcp(f);
    SameLength(g, f);
    SameHeaders(g, f);
    OptionBytesSame(g, f);
    assert d.udp == 14 + (f[14] % 16) * 4;
    if d.udp + 248 <= |f| {
      var yiaddr := Read32(f, d.udp + 24);
      if d.Cookie() + 4 <= d.End() && HasCookie(f, d.Cookie()) {
        MessageTypeSurvives(g, f, d.udp + 248, d.End(), 0, yiaddr);
      } else {
        MessageTypeOfSuffix(g, f, d.udp + 248, 0, yiaddr);
      }
    }
  }

  /**
   Whenever the payload changed under a checksum in use, the stored checksum is not zero and is one
   the receiver accepts.
   */
  lemma RewrittenChecksumVerifies(f: Data, id: Identity, hash: Hash)
    requires |f| >= ETHERNET
    ensures NeedsChecksum(f, Patch(f, f, Fields(f), id, hash), FindDhcp(f)) ==>
      CarriesChecksum(Sanitized(f, id, hash), FindDhcp(f))
  {
    hide CarriesChecksum, NeedsChecksum;
    if NeedsChecksum(f, Patch(f, f, Fields(f), id, hash), FindDhcp(f)) {
      RecheckedVerifies(f, id, hash);
    }
  }

  /** The segment has a checksum, and the receiver's sum comes out as all ones. */
  predicate CarriesChecksum(g: Data, d: Dhcp) {
    && |g| >= 34 && d.Dhcp? && d.length >= 8 && d.End() <= |g|
    && Read16(g, d.udp + 6) != 0
    && ReceiverSum(Read32(g, 26), Read32(g, 30), g[d.udp..d.End()]) == 0xFFFF
  }

  lemma RecheckedVerifies(f: Data, id: Identity, hash: Hash)
    requires |f| >= ETHERNET && NeedsChecksum(f, Patch(f, f, Fields(f), id, hash), FindDhcp(f))
    ensures CarriesChecksum(Sanitized(f, id, hash), FindDhcp(f))
  {
    hide Patch, Fields, FindDhcp, ReceiverSum, ChecksumOf;
    var d, patched := FindDhcp(f), Patch(f, f, Fields(f), id, hash);
    NeedsDhcp(f, patched, d);
    var segment := patched[d.udp..d.End()];
    var sum := ChecksumOf(Read32(f, 26), Read32(f, 30), segment);
    var g := Rechecked(f, patched, d);
    ChecksumVerifies(Read32(f, 26), Read32(f, 30), segment, sum);
    assert g[d.udp..d.End()] == Stamped(segment, sum);
    assert g[d.udp + 6] == sum / 256 && g[d.udp + 7] == sum % 256 by {
      assert g[d.udp..d.End()][6] == sum / 256 && g[d.udp..d.End()][7] == sum % 256;
    }
    SanitizedAddresses(f, id, hash);
  }

  lemma NeedsDhcp(f: Data, patched: Data, d: Dhcp)
    requires |patched| == |f| >= ETHERNET && (d.Dhcp? ==> d.length >= 8 && d.End() <= |f|)
    requires NeedsChecksum(f, patched, d)
    ensures d.Dhcp?
  {
  }

  lemma SanitizedAddresses(f: Data, id: Identity, hash: Hash)
    requires |f| >= ETHERNET && FindDhcp(f).Dhcp?
    ensures Read32(Sanitized(f, id, hash), 26) == Read32(f, 26) && Read32(Sanitized(f, id, hash), 30) == Read32(f, 30)
  {
    hide Sanitized, SameElsewhere;
    SanitizedIsSameElsewhere(f, id, hash);
    SameLength(Sanitized(f, id, hash), f);
    SameHeaders(Sanitized(f, id, hash), f);
  }

  // ---- Whole captures ------------------------------------------------------------------

  datatype Frame = Frame(data: Data, tx: bool)

  /** What the sanitizer knows when it reaches each frame. */
  function IdentityAt(frames: seq<Frame>, n: nat): Identity
    requires n <= |frames|
  {
    if n == 0 then Unknown else Learned(IdentityAt(frames, n - 1), frames[n - 1].data, frames[n - 1].tx)
  }

  lemma NobodyYet(frames: seq<Frame>)
    ensures IdentityAt(frames, 0) == Unknown
  {
  }

  lemma IdentityNext(frames: seq<Frame>, i: nat)
    requires i < |frames|
    ensures IdentityAt(frames, i + 1) == Learned(IdentityAt(frames, i), frames[i].data, frames[i].tx)
  {
  }

  /** The loop of `cmd_sanitize`. */
  method SanitizeCapture(frames: seq<Frame>, hash: Hash) returns (out: seq<Frame>)
    ensures |out| == |frames|
    ensures forall i :: 0 <= i < |frames| ==>
      out[i] == Frame(Sanitized(frames[i].data, IdentityAt(frames, i + 1), hash), frames[i].tx)
  {
    hide Sanitized, Learned, SyntheticMac, SyntheticHost, SanitizeState.Valid, IdentityAt;
    NobodyYet(frames);
    var state := new SanitizeState(hash);
    out := [];
    for i := 0 to |frames|
      invariant state.Valid() && state.Identity() == IdentityAt(frames, i) && |out| == i
      invariant forall j :: 0 <= j < i ==>
        out[j] == Frame(Sanitized(frames[j].data, IdentityAt(frames, j + 1), hash), frames[j].tx)
    {
      IdentityNext(frames, i);
      var g := state.SanitizeFrame(frames[i].data, frames[i].tx);
      assert g == Sanitized(frames[i].data, IdentityAt(frames, i + 1), hash);
      out := out + [Frame(g, frames[i].tx)];
    }
  }

  /** Once learned, the identity stays; and it is learned at the first frame sent that has a source. */
  lemma {:induction false} IdentityIsLearnedOnce(frames: seq<Frame>, first: nat, n: nat)
    requires first < n <= |frames| && frames[first].tx && |frames[first].data| >= ETHERNET
    requires forall j :: 0 <= j < first ==> !(frames[j].tx && |frames[j].data| >= ETHERNET)
    ensures IdentityAt(frames, n) == Known(frames[first].data[6..12])
    decreases n
  {
    if n - 1 == first {
      NothingLearnedBefore(frames, first);
    } else {
      IdentityIsLearnedOnce(frames, first, n - 1);
    }
  }

  lemma {:induction false} NothingLearnedBefore(frames: seq<Frame>, n: nat)
    requires n <= |frames| && forall j :: 0 <= j < n ==> !(frames[j].tx && |frames[j].data| >= ETHERNET)
    ensures IdentityAt(frames, n) == Unknown
  {
    if n > 0 {
      NothingLearnedBefore(frames, n - 1);
    }
  }

  /**
   Over any capture, from the first sent frame with a source address on: every recognised address
   field that holds the console's address holds one fixed synthetic address afterwards, and every
   other recognised address field is untouched.
   */
  lemma ConsoleAddressIsReplaced(frames: seq<Frame>, first: nat, i: nat, k: nat, hash: Hash)
    requires first <= i < |frames| && frames[first].tx && |frames[first].data| >= ETHERNET
    requires forall j :: 0 <= j < first ==> !(frames[j].tx && |frames[j].data| >= ETHERNET)
    requires |frames[i].data| >= ETHERNET && k < |Fields(frames[i].data)| && Fields(frames[i].data)[k].Mac?
    ensures var f, console := frames[i].data, frames[first].data[6..12];
      var at := Fields(f)[k].at;
      Sanitized(f, IdentityAt(frames, i + 1), hash)[at..at + 6] ==
      if f[at..at + 6] == console then SyntheticMac(hash, console) else f[at..at + 6]
  {
    hide Sanitized, Fields, SyntheticMac;
    IdentityIsLearnedOnce(frames, first, i + 1);
    FieldsAreReplaced(frames[i].data, IdentityAt(frames, i + 1), hash, k);
  }

  /** So no recognised address field of the output still names the console. */
  lemma ConsoleAddressIsGone(frames: seq<Frame>, first: nat, i: nat, k: nat, hash: Hash)
    requires first <= i < |frames| && frames[first].tx && |frames[first].data| >= ETHERNET
    requires forall j :: 0 <= j < first ==> !(frames[j].tx && |frames[j].data| >= ETHERNET)
    requires |frames[i].data| >= ETHERNET
    ensures var out, console := Sanitized(frames[i].data, IdentityAt(frames, i + 1), hash), frames[first].data[6..12];
      k < |Fields(out)| && Fields(out)[k].Mac? && SyntheticMac(hash, console) != console ==>
        out[Fields(out)[k].at..Fields(out)[k].at + 6] != console
  {
    hide Sanitized, Fields, SyntheticMac;
    FieldsSurvive(frames[i].data, IdentityAt(frames, i + 1), hash);
    if k < |Fields(frames[i].data)| && Fields(frames[i].data)[k].Mac? {
      ConsoleAddressIsReplaced(frames, first, i, k, hash);
    }
  }
}
