/** Little-endian fields of any width, as `struct` packs and unpacks them. */
module LittleEndian {
  import opened Prelude

  const MAX16 := 0xFFFF
  const MAX32 := 0xFFFF_FFFF

  function Number(s: Bytes): nat {
    if s == [] then 0 else s[0] as int + 256 * Number(s[1..])
  }

  function LE16(s: Bytes, i: nat): nat
    requires i + 2 <= |s|
  {
    Number(s[i..i + 2])
  }

  function LE32(s: Bytes, i: nat): nat
    requires i + 4 <= |s|
  {
    Number(s[i..i + 4])
  }

  /** How many numbers `width` octets can hold. */
  function Capacity(width: nat): nat {
    if width == 0 then 1 else 256 * Capacity(width - 1)
  }

  function Octets(n: nat, width: nat): (s: Bytes)
    ensures |s| == width
  {
    if width == 0 then [] else [n % 256] + Octets(n / 256, width - 1)
  }

  lemma {:induction false} NumberFits(s: Bytes)
    ensures Number(s) < Capacity(|s|)
  {
    if s == [] {
    } else {
      NumberFits(s[1..]);
    }
  }

  lemma LE16Fits(s: Bytes, i: nat)
    requires i + 2 <= |s|
    ensures LE16(s, i) <= MAX16
  {
    NumberFits(s[i..i + 2]);
    assert Capacity(1) == 256;
  }

  /** Packing loses nothing that fits. */
  lemma {:induction false} OctetsHoldNumber(n: nat, width: nat)
    requires n < Capacity(width)
    ensures Number(Octets(n, width)) == n
  {
    if width == 0 {
    } else {
      OctetsHoldNumber(n / 256, width - 1);
      assert Octets(n, width)[1..] == Octets(n / 256, width - 1);
    }
  }

  /** The least octet comes first. */
  lemma LeastFirst(n: nat)
    ensures Octets(n, 2) == [n % 0x100, n / 0x100 % 0x100]
    ensures Octets(n, 4) == [n % 0x100, n / 0x100 % 0x100, n / 0x1_0000 % 0x100, n / 0x100_0000 % 0x100]
  {
    var a, b, c := n / 0x100, n / 0x1_0000, n / 0x100_0000;
    assert b == a / 0x100 && c == b / 0x100;
    assert Octets(c, 1) == [c % 0x100] + Octets(c / 0x100, 0) == [c % 0x100];
    assert Octets(b, 2) == [b % 0x100] + Octets(c, 1);
    assert Octets(a, 3) == [a % 0x100] + Octets(b, 2);
    assert Octets(a, 1) == [a % 0x100] + Octets(b, 0) == [a % 0x100];
  }

  lemma LeastOctet(a: byte, x: int, b: byte, y: int)
    requires a as int + 256 * x == b as int + 256 * y
    ensures a == b && x == y
  {
  }

  /** Octets of one width hold a number in one way. */
  lemma {:induction false} NumberIsInjective(s: Bytes, t: Bytes)
    requires |s| == |t| && Number(s) == Number(t)
    ensures s == t
  {
    if s == [] {
    } else {
      LeastOctet(s[0], Number(s[1..]), t[0], Number(t[1..]));
      NumberIsInjective(s[1..], t[1..]);
      assert s == [s[0]] + s[1..] && t == [t[0]] + t[1..];
    }
  }
}
