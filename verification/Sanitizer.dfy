/** `SanitizeState` and `sanitize_frame` of `tools/net_capture_tool.py`. */
module Sanitizer {
  import opened Bytes
  import opened UdpChecksum
  import opened FrameLayout

  /** The FNV-1a hash, of which only determinism matters. */
  type Hash = Data -> nat

  datatype Identity = Unknown | Known(mac: Data)

  // ---- What fields are replaced with ---------------------------------------------------

  function SyntheticMac(hash: Hash, mac: Data): (m: Data)
    ensures |m| == 6 && m[0] == 2
  {
    [2] + Pack(hash(mac), 5)
  }

  function HexDigit(d: nat): Byte
    requires d < 16
  {
    if d < 10 then 48 + d else 87 + d
  }

  /** `ndsguest-` and eight hexadecimal digits of the hash. */
  function HostTag(hash: Hash, name: Data): (t: Data)
    ensures |t| == 17
  {
    var h := hash(name);
    [110, 100, 115, 103, 117, 101, 115, 116, 45] +
    [HexDigit(h / 0x1000_0000 % 16), HexDigit(h / 0x100_0000 % 16), HexDigit(h / 0x10_0000 % 16),
     HexDigit(h / 0x1_0000 % 16),
     HexDigit(h / 0x1000 % 16), HexDigit(h / 0x100 % 16), HexDigit(h / 0x10 % 16), HexDigit(h % 16)]
  }

  function SyntheticHost(hash: Hash, name: Data): (n: Data)
    ensures |n| == |name|
  {
    var tag := HostTag(hash, name);
    seq(|name|, i requires 0 <= i < |name| => tag[i % 17])
  }

  /** An address field keeps its value unless it is the console's own address. */
  function Rename(mac: Data, id: Identity, hash: Hash): (m: Data)
    requires |mac| == 6
    ensures |m| == 6
  {
    if id == Known(mac) then SyntheticMac(hash, mac) else mac
  }

  function Replacement(f: Data, field: Field, id: Identity, hash: Hash): (d: Data)
    requires field.End() <= |f|
    ensures |d| == field.Size()
  {
    match field
    case Mac(at) => Rename(f[at..at + 6], id, hash)
    case Host(at, length) => SyntheticHost(hash, f[at..at + length])
  }

  // ---- Rewriting every field at once ---------------------------------------------------

  function Splice(g: Data, at: nat, d: Data): (r: Data)
    requires at + |d| <= |g|
    ensures |r| == |g|
    ensures forall i :: 0 <= i < |g| ==> r[i] == if at <= i < at + |d| then d[i - at] else g[i]
  {
    g[..at] + d + g[at + |d|..]
  }

  lemma SpliceChanges(g: Data, at: nat, d: Data)
    requires at + |d| <= |g|
    ensures Splice(g, at, d) == g <==> g[at..at + |d|] == d
  {
    assert Splice(g, at, d)[at..at + |d|] == d;
    if g[at..at + |d|] == d {
      assert forall i :: at <= i < at + |d| ==> g[i] == g[at..at + |d|][i - at];
    }
  }

  /** `g` with the given fields replaced by what the original frame `f` says of them. */
  function Patch(g: Data, f: Data, fields: seq<Field>, id: Identity, hash: Hash): (r: Data)
    requires |g| == |f| && InOrder(fields, 0, |f|)
    ensures |r| == |g|
    decreases |fields|
  {
    if fields == [] then g
    else
      assert InOrder(fields[1..], 0, |f|);
      Patch(Splice(g, fields[0].at, Replacement(f, fields[0], id, hash)), f, fields[1..], id, hash)
  }

  /** The checksum is recomputed when the payload changed and a checksum was in use. */
  predicate NeedsChecksum(frame: Data, patched: Data, d: Dhcp)
    requires |patched| == |frame| >= ETHERNET && (d.Dhcp? ==> d.length >= 8 && d.End() <= |frame|)
  {
    d.Dhcp? && patched[ETHERNET..] != frame[ETHERNET..] && Read16(frame, d.udp + 6) != 0
  }

  function Rechecked(frame: Data, patched: Data, d: Dhcp): (r: Data)
    requires |patched| == |frame| && d.Dhcp? && 34 <= d.udp && d.length >= 8 && d.End() <= |frame|
    ensures |r| == |frame|
  {
    var segment := patched[d.udp..d.End()];
    Splice(patched, d.udp, Stamped(segment, ChecksumOf(Read32(frame, 26), Read32(frame, 30), segment)))
  }

  /** The sanitized frame. */
  function Sanitized(frame: Data, id: Identity, hash: Hash): (r: Data)
    ensures |r| == |frame|
  {
    if |frame| < ETHERNET then frame
    else
      var patched := Patch(frame, frame, Fields(frame), id, hash);
      var d := FindDhcp(frame);
      if NeedsChecksum(frame, patched, d) then Rechecked(frame, patched, d) else patched
  }

  /** The console's address is the source of the first long enough frame it sends. */
  function Learned(id: Identity, frame: Data, tx: bool): Identity {
    if id.Unknown? && tx && |frame| >= ETHERNET then Known(frame[6..12]) else id
  }

  // ---- Facts about patching ------------------------------------------------------------

  lemma InOrderParts(a: seq<Field>, b: seq<Field>, from: nat, to: nat)
    requires InOrder(a + b, from, to)
    ensures InOrder(a, from, to) && InOrder(b, from, to)
  {
    assert forall i :: 0 <= i < |a| ==> (a + b)[i] == a[i];
    assert forall i :: 0 <= i < |b| ==> (a + b)[|a| + i] == b[i];
  }

  /** Patching a list of fields starts with its first one. */
  lemma PatchFirst(g: Data, f: Data, first: Field, rest: seq<Field>, id: Identity, hash: Hash)
    requires |g| == |f| && InOrder([first] + rest, 0, |f|)
    ensures InOrder(rest, 0, |f|) && first.End() <= |f|
    ensures Patch(g, f, [first] + rest, id, hash) ==
      Patch(Splice(g, first.at, Replacement(f, first, id, hash)), f, rest, id, hash)
  {
    InOrderParts([first], rest, 0, |f|);
    assert ([first] + rest)[0] == first && ([first] + rest)[1..] == rest;
  }

  /** Bytes no field covers stay as they are. */
  lemma {:induction false} PatchElsewhere(g: Data, f: Data, fields: seq<Field>, id: Identity, hash: Hash, i: nat)
    requires |g| == |f| && InOrder(fields, 0, |f|) && i < |g|
    requires forall k :: 0 <= k < |fields| ==> !fields[k].Covers(i)
    ensures Patch(g, f, fields, id, hash)[i] == g[i]
    decreases |fields|
  {
    if fields != [] {
      assert forall k :: 0 <= k < |fields[1..]| ==> fields[1..][k] == fields[k + 1];
      PatchElsewhere(Splice(g, fields[0].at, Replacement(f, fields[0], id, hash)), f, fields[1..], id, hash, i);
    }
  }

  /** Every field ends up holding its replacement. */
  lemma {:induction false} PatchField(g: Data, f: Data, fields: seq<Field>, id: Identity, hash: Hash, k: nat)
    requires |g| == |f| && InOrder(fields, 0, |f|) && k < |fields|
    ensures Patch(g, f, fields, id, hash)[fields[k].at..fields[k].End()] == Replacement(f, fields[k], id, hash)
    decreases |fields|
  {
    var x := fields[k];
    var next := Splice(g, fields[0].at, Replacement(f, fields[0], id, hash));
    assert forall j :: 0 <= j < |fields[1..]| ==> fields[1..][j] == fields[j + 1];
    if k == 0 {
      var r := Patch(g, f, fields, id, hash);
      forall i | x.at <= i < x.End()
        ensures r[i] == next[i]
      {
        PatchElsewhere(next, f, fields[1..], id, hash, i);
      }
      assert r[x.at..x.End()] == next[x.at..x.End()];
    } else {
      PatchField(next, f, fields[1..], id, hash, k - 1);
    }
  }

  // ---- The sanitizer -------------------------------------------------------------------

  /** Two frames with the same bytes from the EtherType on have the same layout. */
  lemma SameLayout(f: Data, frame: Data)
    requires |f| == |frame| >= ETHERNET && f[12..] == frame[12..]
    ensures Read16(f, 12) == Read16(frame, 12) && FindDhcp(f) == FindDhcp(frame)
  {
    assert forall i :: 12 <= i < |f| ==> f[i] == f[12..][i - 12] == frame[i];
  }

  class SanitizeState {
    const hash: Hash
    var hasIdentity: bool
    var identityMac: Data
    var macCache: map<Data, Data>
    var hostnameCache: map<Data, Data>

    /** The memo tables agree with the functions they remember. */
    ghost predicate Valid()
      reads this
    {
      && (hasIdentity ==> |identityMac| == 6)
      && (forall m :: m in macCache ==> macCache[m] == SyntheticMac(hash, m))
      && (forall n :: n in hostnameCache ==> hostnameCache[n] == SyntheticHost(hash, n))
    }

    function Identity(): Identity
      reads this
    {
      if hasIdentity then Known(identityMac) else Unknown
    }

    constructor (hash: Hash)
      ensures Valid() && Identity() == Unknown && this.hash == hash
    {
      this.hash := hash;
      hasIdentity, identityMac, macCache, hostnameCache := false, [], map[], map[];
    }

    method LearnIdentity(source: Data)
      requires Valid() && |source| == 6
      modifies this`hasIdentity, this`identityMac
      ensures Valid() && Identity() == if old(Identity()).Unknown? then Known(source) else old(Identity())
    {
      if hasIdentity {
        return;
      }
      identityMac := source;
      hasIdentity := true;
    }

    method MapMac(mac: Data) returns (m: Data)
      requires Valid()
      modifies this`macCache
      ensures Valid() && m == SyntheticMac(hash, mac)
    {
      if mac in macCache {
        return macCache[mac];
      }
      m := SyntheticMac(hash, mac);
      macCache := macCache[mac := m];
    }

    method MapHostname(name: Data) returns (n: Data)
      requires Valid()
      modifies this`hostnameCache
      ensures Valid() && n == SyntheticHost(hash, name)
    {
      if name in hostnameCache {
        return hostnameCache[name];
      }
      n := SyntheticHost(hash, name);
      hostnameCache := hostnameCache[name := n];
    }

    /** Overwrites one address if it is the console's. */
    method RewriteIfIdentity(f: Data, at: nat, synthetic: Data) returns (g: Data)
      requires at + 6 <= |f| && (hasIdentity ==> synthetic == SyntheticMac(hash, identityMac))
      ensures g == Splice(f, at, Rename(f[at..at + 6], Identity(), hash))
    {
      g := f;
      if hasIdentity && f[at..at + 6] == identityMac {
        g := Splice(f, at, synthetic);
      }
    }

    /** One option of the DHCP walk. */
    method RewriteOption(f: Data, o: Option, synthetic: Data) returns (g: Data, wrote: bool)
      requires Valid() && (hasIdentity ==> synthetic == SyntheticMac(hash, identityMac))
      requires o.at + o.length <= |f|
      modifies this`hostnameCache
      ensures Valid() && |g| == |f| && (wrote <==> g != f)
      ensures g == PatchOption(f, f, o, Identity(), hash)
    {
      hide SyntheticHost, SyntheticMac, Splice, PatchOption;
      var val := f[o.at..o.at + o.length];
      g, wrote := f, false;
      PatchOneOption(f, o, Identity(), hash);
      if o.code == 61 && o.length == 7 && val[0] == 1 {
        SpliceChanges(f, o.at + 1, val[1..7]);
        if hasIdentity && val[1..7] == identityMac {
          SpliceChanges(f, o.at + 1, synthetic);
          if val[1..7] != synthetic {
            g, wrote := Splice(f, o.at + 1, synthetic), true;
          }
        }
      } else if o.code == 12 && o.length > 0 {
        var repl := MapHostname(val);
        SpliceChanges(f, o.at, repl);
        if repl != val {
          g, wrote := Splice(f, o.at, repl), true;
        }
      }
    }

    /** The walk over the DHCP options, rewriting values in place. */
    method RewriteOptions(f0: Data, frame: Data, start: nat, end: nat, synthetic: Data) returns (f: Data, changed: bool)
      requires Valid() && (hasIdentity ==> synthetic == SyntheticMac(hash, identityMac))
      requires |f0| == |frame| && start <= end <= |frame|
      requires forall i :: start <= i < |frame| ==> f0[i] == frame[i]
      modifies this`hostnameCache
      ensures Valid() && |f| == |frame| && (changed <==> f != f0)
      ensures forall i :: 0 <= i < start ==> f[i] == f0[i]
      ensures InOrder(OptionFields(frame, start, end), 0, |frame|)
      ensures f == Patch(f0, frame, OptionFields(frame, start, end), Identity(), hash)
    {
      hide OptionField, PatchOption, Patch, InOrder;
      f, changed := f0, false;
      var p := start;
      OptionFieldsInOrder(frame, start, end);
      while p < end
        invariant Valid()
        invariant start <= p <= end && |f| == |frame|
        invariant forall i :: p <= i < |f| ==> f[i] == frame[i] && f[i] == f0[i]
        invariant forall i :: 0 <= i < start ==> f[i] == f0[i]
        invariant changed <==> f != f0
        invariant InOrder(OptionFields(frame, p, end), 0, |frame|)
        invariant Patch(f, frame, OptionFields(frame, p, end), Identity(), hash) ==
          Patch(f0, frame, OptionFields(frame, start, end), Identity(), hash)
        decreases end - p
      {
        var code := f[p];
        if code == 0xFF {
          break;
        }
        if code == 0 {
          p := p + 1;
          continue;
        }
        if p + 1 >= end {
          break;
        }
        var length := f[p + 1];
        if p + 2 + length > end {
          break;
        }
        var o := Option(p + 2, code, length);
        OptionStep(f, frame, p, end, Identity(), hash);
        PatchOptionIsLocal(f, frame, o, Identity(), hash);
        var before := f;
        var wrote: bool;
        f, wrote := RewriteOption(before, o, synthetic);
        changed := changed || wrote;
        p := p + 2 + length;
      }
      PatchNothing(f, frame, Identity(), hash);
    }

    method RewriteClient(f0: Data, d: Dhcp, synthetic: Data) returns (f: Data, wrote: bool)
      requires Valid() && (hasIdentity ==> synthetic == SyntheticMac(hash, identityMac))
      requires d.Dhcp? && d.length >= 8 && d.End() <= |f0|
      ensures f == PatchClient(f0, f0, d, Identity(), hash) && (wrote <==> f != f0)
    {
      hide SyntheticMac, Splice, PatchClient;
      f, wrote := f0, false;
      PatchOneClient(f0, d, Identity(), hash);
      var at := d.udp + 36;
      if d.length - 8 >= 34 && f0[d.udp + 9] == 1 && f0[d.udp + 10] == 6 {
        var chaddr := f0[at..at + 6];
        SpliceChanges(f0, at, chaddr);
        if hasIdentity {
          SpliceChanges(f0, at, synthetic);
          if chaddr == identityMac && chaddr != synthetic {
            f, wrote := Splice(f0, at, synthetic), true;
          }
        }
      }
    }

    /** Client address and options; the flag is the source's `payload_changed`. */
    method RewritePayload(f0: Data, frame: Data, d: Dhcp, synthetic: Data) returns (f: Data, changed: bool)
      requires Valid() && (hasIdentity ==> synthetic == SyntheticMac(hash, identityMac))
      requires |f0| == |frame| && d.Dhcp? && d.length >= 8 && d.End() <= |frame|
      requires forall i :: d.udp <= i < |frame| ==> f0[i] == frame[i]
      modifies this`hostnameCache
      ensures Valid() && |f| == |frame| && (changed <==> f != f0)
      ensures forall i :: 0 <= i < |f0| && i < d.udp + 36 ==> f[i] == f0[i]
      ensures InOrder(DhcpFields(frame, d), 0, |frame|)
      ensures f == Patch(f0, frame, DhcpFields(frame, d), Identity(), hash)
    {
      hide PatchClient, Patch, OptionFields, InOrder, DhcpFields;
      PatchClientIsLocal(f0, frame, d, Identity(), hash);
      DhcpPatch(f0, frame, d, Identity(), hash);
      f, changed := RewriteClient(f0, d, synthetic);
      var cookie := d.udp + 244;
      if cookie + 4 <= d.End() && f[cookie..cookie + 4] == [0x63, 0x82, 0x53, 0x63] {
        assert f[cookie..cookie + 4] == frame[cookie..cookie + 4];
        var renamed := f;
        var wrote: bool;
        f, wrote := RewriteOptions(renamed, frame, cookie + 4, d.End(), synthetic);
        assert renamed != f0 ==> exists i :: 0 <= i < cookie + 4 && renamed[i] != f0[i] by {
          assert forall i :: cookie + 4 <= i < |f0| ==> renamed[i] == f0[i];
        }
        changed := changed || wrote;
      } else {
        assert cookie + 4 <= d.End() ==> f[cookie..cookie + 4] == frame[cookie..cookie + 4];
        PatchNothing(f, frame, Identity(), hash);
      }
    }

    /** The checksum repair. */
    method RepairChecksum(f: Data, d: Dhcp) returns (g: Data)
      requires |f| >= 34 && d.Dhcp? && 34 <= d.udp && d.length >= 8 && d.End() <= |f|
      ensures g == if Read16(f, d.udp + 6) != 0 then Rechecked(f, f, d) else f
    {
      hide ChecksumOf;
      g := f;
      if Read16(g, d.udp + 6) != 0 {
        g := g[d.udp + 6 := 0];
        g := g[d.udp + 7 := 0];
        StampIsSplice(f, d, 0);
        var segment := f[d.udp..d.End()];
        assert g[d.udp..d.End()] == Stamped(segment, 0);
        var sum := Checksum(Read32(f, 26), Read32(f, 30), g[d.udp..d.End()]);
        ChecksumIgnoresStamp(Read32(f, 26), Read32(f, 30), segment);
        g := g[d.udp + 6 := sum / 256];
        g := g[d.udp + 7 := sum % 256];
        assert g == f[d.udp + 6 := sum / 256][d.udp + 7 := sum % 256];
        StampIsSplice(f, d, sum);
      }
    }

    /** Everything after the two Ethernet addresses. */
    method RewriteBody(header: Data, frame: Data, synthetic: Data) returns (g: Data)
      requires Valid() && (hasIdentity ==> synthetic == SyntheticMac(hash, identityMac))
      requires |header| == |frame| >= ETHERNET && forall i :: 12 <= i < |frame| ==> header[i] == frame[i]
      modifies this`hostnameCache
      ensures Valid() && g == Finished(header, frame, Identity(), hash)
    {
      hide SyntheticMac, SyntheticHost, Splice, Patch, DhcpFields, Rechecked;
      var f := header;
      assert f[12..] == frame[12..];
      SameLayout(f, frame);
      PatchNothing(f, frame, Identity(), hash);
      if Read16(f, 12) == 0x0806 {
        if |f| >= 42 {
          ArpPatch(header, frame, Identity(), hash);
          f := RewriteIfIdentity(f, 22, synthetic);
          f := RewriteIfIdentity(f, 32, synthetic);
        }
        return f;
      }
      var d := FindDhcp(f);
      if d.NoDhcp? {
        return f;
      }
      var changed: bool;
      f, changed := RewritePayload(header, frame, d, synthetic);
      g := f;
      if changed {
        g := RepairChecksum(f, d);
      }
      ChecksumCondition(header, frame, f, d);
    }

    /** `sanitize_frame`. */
    method SanitizeFrame(frame: Data, tx: bool) returns (g: Data)
      requires Valid()
      modifies this
      ensures Valid() && Identity() == Learned(old(Identity()), frame, tx)
      ensures g == Sanitized(frame, Identity(), hash)
    {
      hide SyntheticMac, SyntheticHost, Finished, Sanitized, Splice, Rename;
      if |frame| < ETHERNET {
        ShortFrame(frame, Identity(), hash);
        return frame;
      }
      var f := frame;
      if tx && !hasIdentity {
        LearnIdentity(f[6..12]);
      }
      var synthetic: Data := [];
      if hasIdentity {
        synthetic := MapMac(identityMac);
      }
      f := RewriteIfIdentity(f, 0, synthetic);
      f := RewriteIfIdentity(f, 6, synthetic);
      SanitizedInTwoParts(frame, Identity(), hash);
      g := RewriteBody(f, frame, synthetic);
    }
  }

  /** The rest of the frame, once the Ethernet addresses are rewritten. */
  function Finished(header: Data, frame: Data, id: Identity, hash: Hash): (r: Data)
    requires |header| == |frame| >= ETHERNET
    ensures |r| == |frame|
  {
    var patched := Patch(header, frame, PayloadFields(frame), id, hash);
    var d := FindDhcp(frame);
    if NeedsChecksum(frame, patched, d) then Rechecked(frame, patched, d) else patched
  }

  lemma ShortFrame(frame: Data, id: Identity, hash: Hash)
    requires |frame| < ETHERNET
    ensures Sanitized(frame, id, hash) == frame
  {
  }

  lemma SanitizedInTwoParts(frame: Data, id: Identity, hash: Hash)
    requires |frame| >= ETHERNET
    ensures Sanitized(frame, id, hash) == Finished(PatchHeader(frame, id, hash), frame, id, hash)
    ensures Splice(frame, 0, Rename(frame[0..6], id, hash))[6..12] == frame[6..12]
  {
    hide PayloadFields, Patch, FindDhcp, Rechecked, NeedsChecksum, Splice;
    HeaderPatch(frame, id, hash);
  }

  /** The payload differs from the original exactly when it differs from the rewritten header's frame. */
  lemma ChecksumCondition(header: Data, frame: Data, f: Data, d: Dhcp)
    requires |f| == |header| == |frame| >= 34 && d.Dhcp? && 34 <= d.udp && d.length >= 8 && d.End() <= |frame|
    requires forall i :: 12 <= i < |frame| ==> header[i] == frame[i]
    requires forall i :: 0 <= i < |f| && i < d.udp + 36 ==> f[i] == header[i]
    ensures NeedsChecksum(frame, f, d) <==> f != header && Read16(f, d.udp + 6) != 0
    ensures Rechecked(f, f, d) == Rechecked(frame, f, d)
  {
    if f[ETHERNET..] == frame[ETHERNET..] {
      assert forall i :: ETHERNET <= i < |f| ==> f[i] == f[ETHERNET..][i - ETHERNET] == header[i];
      assert f == header;
    }
    assert Read32(f, 26) == Read32(frame, 26) && Read32(f, 30) == Read32(frame, 30);
  }

  /** `g` with one option's value replaced by what `f` says of it. */
  function PatchOption(g: Data, f: Data, o: Option, id: Identity, hash: Hash): (r: Data)
    requires |g| == |f| && o.at + o.length <= |f|
    ensures |r| == |g|
  {
    var fields := OptionField(f, o);
    if fields == [] then g else Splice(g, fields[0].at, Replacement(f, fields[0], id, hash))
  }

  lemma PatchOneOption(f: Data, o: Option, id: Identity, hash: Hash)
    requires o.at + o.length <= |f|
    ensures var val := f[o.at..o.at + o.length];
      PatchOption(f, f, o, id, hash) ==
        if o.code == 61 && o.length == 7 && val[0] == 1 then Splice(f, o.at + 1, Rename(val[1..7], id, hash))
        else if o.code == 12 && o.length > 0 then Splice(f, o.at, SyntheticHost(hash, val))
        else f
    ensures o.length == 7 ==> f[o.at..o.at + o.length][1..7] == f[o.at + 1..o.at + 7]
  {
    hide SyntheticHost, SyntheticMac, Splice, Rename;
    var val := f[o.at..o.at + o.length];
    assert o.length == 7 ==> val[1..7] == f[o.at + 1..o.at + 7];
    assert o.length > 0 ==> val[0] == f[o.at];
  }

  function PatchClient(g: Data, f: Data, d: Dhcp, id: Identity, hash: Hash): (r: Data)
    requires |g| == |f| && d.Dhcp? && d.length >= 8 && d.End() <= |f|
    ensures |r| == |g|
  {
    if ClientField(f, d) == [] then g
    else Splice(g, d.udp + 36, Replacement(f, Mac(d.udp + 36), id, hash))
  }

  lemma PatchOneClient(f: Data, d: Dhcp, id: Identity, hash: Hash)
    requires d.Dhcp? && d.length >= 8 && d.End() <= |f|
    ensures PatchClient(f, f, d, id, hash) ==
      if d.length - 8 >= 34 && f[d.udp + 9] == 1 && f[d.udp + 10] == 6
      then Splice(f, d.udp + 36, Rename(f[d.udp + 36..d.udp + 42], id, hash)) else f
  {
    hide Splice, Rename, SyntheticMac;
  }

  lemma PatchClientIsLocal(g: Data, f: Data, d: Dhcp, id: Identity, hash: Hash)
    requires |g| == |f| && d.Dhcp? && d.length >= 8 && d.End() <= |f|
    requires forall i :: d.udp <= i < |f| ==> g[i] == f[i]
    ensures PatchClient(g, g, d, id, hash) == PatchClient(g, f, d, id, hash)
    ensures forall i :: 0 <= i < |f| && !(d.udp + 36 <= i < d.udp + 42) ==> PatchClient(g, f, d, id, hash)[i] == g[i]
  {
    hide SyntheticMac, Splice, Rename;
    if d.length - 8 >= 34 {
      assert g[d.udp + 36..d.udp + 42] == f[d.udp + 36..d.udp + 42];
    }
  }

  /** The DHCP fields are the client address, then the options. */
  lemma DhcpPatch(g: Data, f: Data, d: Dhcp, id: Identity, hash: Hash)
    requires |g| == |f| && d.Dhcp? && d.length >= 8 && d.End() <= |f|
    ensures InOrder(DhcpFields(f, d), 0, |f|)
    ensures var start := d.Cookie() + 4;
      var rest := if start <= d.End() && HasCookie(f, d.Cookie()) then OptionFields(f, start, d.End()) else [];
      && InOrder(rest, 0, |f|)
      && Patch(g, f, DhcpFields(f, d), id, hash) == Patch(PatchClient(g, f, d, id, hash), f, rest, id, hash)
  {
    hide SyntheticMac, SyntheticHost, Splice, OptionFields, Patch, Rename, InOrder;
    var start := d.Cookie() + 4;
    var rest := if start <= d.End() && HasCookie(f, d.Cookie()) then OptionFields(f, start, d.End()) else [];
    assert DhcpFields(f, d) == ClientField(f, d) + rest;
    InOrderFromStart(DhcpFields(f, d), d.udp + 36, |f|);
    InOrderParts(ClientField(f, d), rest, 0, |f|);
    if ClientField(f, d) != [] {
      assert ClientField(f, d) == [Mac(d.udp + 36)];
      PatchFirst(g, f, Mac(d.udp + 36), rest, id, hash);
    } else {
      assert [] + rest == rest;
    }
  }

  function PatchHeader(frame: Data, id: Identity, hash: Hash): (r: Data)
    requires |frame| >= ETHERNET
    ensures |r| == |frame| && forall i :: 12 <= i < |frame| ==> r[i] == frame[i]
  {
    Splice(Splice(frame, 0, Rename(frame[0..6], id, hash)), 6, Rename(frame[6..12], id, hash))
  }

  lemma HeaderPatch(frame: Data, id: Identity, hash: Hash)
    requires |frame| >= ETHERNET
    ensures InOrder(PayloadFields(frame), 0, |frame|)
    ensures Patch(frame, frame, Fields(frame), id, hash) ==
      Patch(PatchHeader(frame, id, hash), frame, PayloadFields(frame), id, hash)
    ensures Splice(frame, 0, Rename(frame[0..6], id, hash))[6..12] == frame[6..12]
  {
    hide PayloadFields, SyntheticMac, SyntheticHost;
    var rest := PayloadFields(frame);
    assert Fields(frame) == [Mac(0)] + ([Mac(6)] + rest);
    PatchFirst(frame, frame, Mac(0), [Mac(6)] + rest, id, hash);
    PatchFirst(Splice(frame, 0, Rename(frame[0..6], id, hash)), frame, Mac(6), rest, id, hash);
  }

  lemma ArpPatch(g: Data, f: Data, id: Identity, hash: Hash)
    requires |g| == |f| >= 42 && forall i :: 12 <= i < |f| ==> g[i] == f[i]
    ensures InOrder([Mac(22), Mac(32)], 0, |f|)
    ensures var once := Splice(g, 22, Rename(g[22..28], id, hash));
      Patch(g, f, [Mac(22), Mac(32)], id, hash) == Splice(once, 32, Rename(once[32..38], id, hash))
  {
    hide SyntheticMac, SyntheticHost;
    var once := Splice(g, 22, Rename(g[22..28], id, hash));
    assert g[22..28] == f[22..28] && once[32..38] == f[32..38];
    assert [Mac(22), Mac(32)] == [Mac(22)] + [Mac(32)] && [Mac(32)] == [Mac(32)] + [];
    PatchFirst(g, f, Mac(22), [Mac(32)], id, hash);
    PatchFirst(once, f, Mac(32), [], id, hash);
  }

  lemma StampIsSplice(f: Data, d: Dhcp, v: nat)
    requires d.Dhcp? && d.length >= 8 && d.End() <= |f| && v <= 0xFFFF
    ensures f[d.udp + 6 := v / 256][d.udp + 7 := v % 256] == Splice(f, d.udp, Stamped(f[d.udp..d.End()], v))
  {
  }

  lemma ChecksumIgnoresStamp(src: nat, dst: nat, segment: Data)
    requires |segment| >= 8
    ensures ChecksumOf(src, dst, Stamped(segment, 0)) == ChecksumOf(src, dst, segment)
  {
    assert Stamped(Stamped(segment, 0), 0) == Stamped(segment, 0);
  }

  lemma PatchNothing(f: Data, frame: Data, id: Identity, hash: Hash)
    requires |f| == |frame|
    ensures InOrder([], 0, |frame|) && Patch(f, frame, [], id, hash) == f
  {
  }

  lemma OptionFieldsInOrder(frame: Data, start: nat, end: nat)
    requires end <= |frame|
    ensures InOrder(OptionFields(frame, start, end), 0, |frame|)
  {
  }

  /** Replacing an option looks at and changes its value only. */
  lemma PatchOptionIsLocal(f: Data, frame: Data, o: Option, id: Identity, hash: Hash)
    requires |f| == |frame| && o.at + o.length <= |f|
    requires forall i :: o.at <= i < o.at + o.length ==> f[i] == frame[i]
    ensures PatchOption(f, f, o, id, hash) == PatchOption(f, frame, o, id, hash)
    ensures forall i :: 0 <= i < |f| && !(o.at <= i < o.at + o.length) ==> PatchOption(f, frame, o, id, hash)[i] == f[i]
  {
    hide SyntheticHost, SyntheticMac;
    assert OptionField(f, o) == OptionField(frame, o);
    if OptionField(f, o) != [] {
      var x := OptionField(f, o)[0];
      assert x in OptionField(f, o);
      assert f[x.at..x.End()] == frame[x.at..x.End()];
    }
  }

  /** What patching the remaining options does at the first of them. */
  lemma OptionStep(f: Data, frame: Data, p: nat, end: nat, id: Identity, hash: Hash)
    requires |f| == |frame| && p + 1 < end <= |frame| && frame[p] != 0 && frame[p] != 0xFF
    requires p + 2 + frame[p + 1] <= end
    ensures InOrder(OptionFields(frame, p, end), 0, |frame|)
    ensures InOrder(OptionFields(frame, p + 2 + frame[p + 1], end), 0, |frame|)
    ensures Patch(f, frame, OptionFields(frame, p, end), id, hash) ==
      Patch(PatchOption(f, frame, Option(p + 2, frame[p], frame[p + 1]), id, hash), frame,
            OptionFields(frame, p + 2 + frame[p + 1], end), id, hash)
  {
    hide SyntheticHost, SyntheticMac, Splice, OptionField;
    var fields := OptionField(frame, Option(p + 2, frame[p], frame[p + 1]));
    var rest := OptionFields(frame, p + 2 + frame[p + 1], end);
    assert OptionFields(frame, p, end) == fields + rest;
    if fields != [] {
      assert fields == [fields[0]];
      PatchFirst(f, frame, fields[0], rest, id, hash);
    } else {
      assert fields + rest == rest;
    }
  }
}
