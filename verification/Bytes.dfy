/** Byte strings, numbers packed into them, and text. */
module Bytes {

  type Byte = b: int | 0 <= b < 256

  type Data = seq<Byte>

  /** Text as code points. */
  type Text = seq<int>

  /** `256^n`. */
  function Limit(n: nat): (l: int)
    ensures l > 0
  {
    if n == 0 then 1 else 256 * Limit(n - 1)
  }

  /** `n` bytes, least significant first. */
  function Pack(x: nat, n: nat): (d: Data)
    ensures |d| == n
  {
    if n == 0 then [] else [x % 256] + Pack(x / 256, n - 1)
  }

  function Unpack(d: Data): nat {
    if d == [] then 0 else d[0] + 256 * Unpack(d[1..])
  }

  lemma {:induction false} UnpackPack(x: nat, n: nat)
    requires x < Limit(n)
    ensures Unpack(Pack(x, n)) == x
  {
    if n > 0 {
      UnpackPack(x / 256, n - 1);
      assert Pack(x, n)[1..] == Pack(x / 256, n - 1);
    }
  }

  lemma KnownLimits()
    ensures Limit(1) == 0x100 && Limit(4) == 0x1_0000_0000 && Limit(8) == 0x1_0000_0000_0000_0000
  {
    assert Limit(2) == 0x1_0000;
    assert Limit(4) == 0x1_0000_0000 by { assert Limit(3) == 0x100_0000; }
    assert Limit(6) == 0x1_0000_0000_0000 by { assert Limit(5) == 0x100_0000_0000; }
    assert Limit(8) == 0x1_0000_0000_0000_0000 by { assert Limit(7) == 0x100_0000_0000_0000; }
  }

  function Zeros(n: nat): (d: Data)
    ensures |d| == n
  {
    seq(n, _ => 0)
  }
}
