/**
 Where an Ethernet frame names the console: the address and hostname fields that
 `sanitize_frame` in `tools/net_capture_tool.py` recognises, read off the untouched frame.
 */
module FrameLayout {
  import opened Bytes
  import opened UdpChecksum

  const ETHERNET: nat := 14

  function Read16(f: Data, off: nat): nat
    requires off + 2 <= |f|
  {
    Word16(f[off], f[off + 1])
  }

  function Read32(f: Data, off: nat): nat
    requires off + 4 <= |f|
  {
    Word16(f[off], f[off + 1]) * 0x1_0000 + Word16(f[off + 2], f[off + 3])
  }

  /** A UDP segment on the DHCP ports, cut to what the frame holds. */
  datatype Dhcp = NoDhcp | Dhcp(udp: nat, length: nat) {
    function Bootp(): nat requires Dhcp? { udp + 8 }
    function End(): nat requires Dhcp? { udp + length }
    function Cookie(): nat requires Dhcp? { udp + 244 }
  }

  predicate DhcpPort(port: nat) { port == 67 || port == 68 }

  function FindDhcp(f: Data): (d: Dhcp)
    requires |f| >= ETHERNET
    ensures d.Dhcp? ==> 34 <= d.udp <= 74 && d.length >= 8 && d.End() <= |f|
  {
    if Read16(f, 12) != 0x0800 || |f| < 34 then NoDhcp
    else
      var ihl := (f[14] % 16) * 4;
      if f[14] / 16 != 4 || ihl < 20 || 14 + ihl > |f| || f[23] != 17 || 14 + ihl + 8 > |f| then NoDhcp
      else
        var udp := 14 + ihl;
        var declared := Read16(f, udp + 4);
        var length := if declared < |f| - udp then declared else |f| - udp;
        if !(DhcpPort(Read16(f, udp)) || DhcpPort(Read16(f, udp + 2))) || length < 8 then NoDhcp
        else Dhcp(udp, length)
  }

  predicate HasCookie(f: Data, cookie: nat) {
    cookie + 4 <= |f| && f[cookie..cookie + 4] == [0x63, 0x82, 0x53, 0x63]
  }

  /** A DHCP option: where its value starts, its code and its length. */
  datatype Option = Option(at: nat, code: nat, length: nat)

  /** The options from `p` on, walked as the sanitizer walks them. */
  function Options(f: Data, p: nat, end: nat): (os: seq<Option>)
    requires end <= |f|
    ensures forall o :: o in os ==> p + 2 <= o.at && o.at + o.length <= end
    decreases end - p
  {
    if p >= end || f[p] == 0xFF then []
    else if f[p] == 0 then Options(f, p + 1, end)
    else if p + 1 >= end || p + 2 + f[p + 1] > end then []
    else [Option(p + 2, f[p], f[p + 1])] + Options(f, p + 2 + f[p + 1], end)
  }

  /** A field that may name the console. */
  datatype Field = Mac(at: nat) | Host(at: nat, length: nat) {
    function Size(): nat { if Mac? then 6 else length }
    function End(): nat { at + Size() }
    predicate Covers(i: int) { at <= i < End() }
  }

  /** Client identifiers of an Ethernet address, and hostnames. */
  function OptionField(f: Data, o: Option): (fs: seq<Field>)
    requires o.at + o.length <= |f|
    ensures forall x :: x in fs ==> o.at <= x.at && x.End() <= o.at + o.length
    ensures |fs| <= 1
  {
    if o.code == 61 && o.length == 7 && f[o.at] == 1 then [Mac(o.at + 1)]
    else if o.code == 12 && o.length > 0 then [Host(o.at, o.length)]
    else []
  }

  function OptionFields(f: Data, p: nat, end: nat): (fs: seq<Field>)
    requires end <= |f|
    ensures InOrder(fs, p, end)
    decreases end - p
  {
    if p >= end || f[p] == 0xFF then []
    else if f[p] == 0 then OptionFields(f, p + 1, end)
    else if p + 1 >= end || p + 2 + f[p + 1] > end then []
    else
      var next := p + 2 + f[p + 1];
      OptionField(f, Option(p + 2, f[p], f[p + 1])) + OptionFields(f, next, end)
  }

  /** Fields one after the other between two positions. */
  predicate InOrder(fs: seq<Field>, from: nat, to: nat) {
    && (forall i :: 0 <= i < |fs| ==> from <= fs[i].at && fs[i].End() <= to)
    && (forall i, j :: 0 <= i < j < |fs| ==> fs[i].End() <= fs[j].at)
  }

  lemma InOrderConcat(a: seq<Field>, b: seq<Field>, from: nat, middle: nat, to: nat)
    requires InOrder(a, from, middle) && InOrder(b, middle, to) && from <= middle <= to
    ensures InOrder(a + b, from, to)
  {
  }

  lemma InOrderFromStart(fs: seq<Field>, from: nat, to: nat)
    requires InOrder(fs, from, to)
    ensures InOrder(fs, 0, to)
  {
  }

  /** The client hardware address of an Ethernet client. */
  function ClientField(f: Data, d: Dhcp): (fs: seq<Field>)
    requires d.Dhcp? && d.length >= 8 && d.End() <= |f|
    ensures InOrder(fs, d.udp + 36, if d.udp + 42 <= d.End() then d.udp + 42 else d.End())
  {
    if d.length - 8 >= 34 && f[d.Bootp() + 1] == 1 && f[d.Bootp() + 2] == 6 then [Mac(d.Bootp() + 28)] else []
  }

  function DhcpFields(f: Data, d: Dhcp): (fs: seq<Field>)
    requires d.Dhcp? && d.length >= 8 && d.End() <= |f|
    ensures InOrder(fs, d.udp + 36, |f|)
  {
    ClientField(f, d) +
    (if d.Cookie() + 4 <= d.End() && HasCookie(f, d.Cookie()) then OptionFields(f, d.Cookie() + 4, d.End()) else [])
  }

  /** Fields after the Ethernet header. */
  function PayloadFields(f: Data): (fs: seq<Field>)
    requires |f| >= ETHERNET
    ensures InOrder(fs, ETHERNET, |f|)
  {
    if Read16(f, 12) == 0x0806 then (if |f| >= 42 then [Mac(22), Mac(32)] else [])
    else
      match FindDhcp(f)
      case NoDhcp => []
      case Dhcp(_, _) => DhcpFields(f, FindDhcp(f))
  }

  lemma TwoMacs()
    ensures InOrder([Mac(0), Mac(6)], 0, ETHERNET)
  {
  }

  function Fields(f: Data): (fs: seq<Field>)
    requires |f| >= ETHERNET
    ensures InOrder(fs, 0, |f|)
  {
    hide InOrder, PayloadFields;
    TwoMacs();
    InOrderConcat([Mac(0), Mac(6)], PayloadFields(f), 0, ETHERNET, |f|);
    [Mac(0), Mac(6)] + PayloadFields(f)
  }
}
