/** Bytes, ASCII text and big-endian numbers. */
module Bytes {
  import opened RsaMath

  type byte = b: int | 0 <= b < 256

  /** ASCII text as bytes. */
  function Ascii(s: string): (r: seq<byte>)
    ensures |r| == |s|
  {
    if s == "" then [] else [if s[0] < 128 as char then s[0] as int else 63] + Ascii(s[1..])
  }

  /** Python's int.from_bytes(b, "big"). */
  function FromBytes(b: seq<byte>): nat {
    if b == [] then 0 else FromBytes(b[..|b| - 1]) * 256 + b[|b| - 1]
  }

  /** Python's n.to_bytes(width, "big") for a number that fits. */
  function ToBytes(n: nat, width: nat): (r: seq<byte>)
    ensures |r| == width
  {
    if width == 0 then [] else ToBytes(n / 256, width - 1) + [n % 256]
  }

  lemma {:induction false} FromToBytes(n: nat, width: nat)
    requires n < Pow(256, width)
    ensures FromBytes(ToBytes(n, width)) == n
  {
    if width > 0 {
      var r := ToBytes(n, width);
      assert r[..width - 1] == ToBytes(n / 256, width - 1);
      FromToBytes(n / 256, width - 1);
    }
  }

  lemma {:induction false} FromBytesBound(b: seq<byte>)
    ensures FromBytes(b) < Pow(256, |b|)
  {
    if b != [] { FromBytesBound(b[..|b| - 1]); }
  }

  /** Texts of one width are told apart by their value. */
  lemma {:induction false} FromBytesInjective(a: seq<byte>, b: seq<byte>)
    requires |a| == |b| && FromBytes(a) == FromBytes(b)
    ensures a == b
  {
    if a != [] {
      var n := |a| - 1;
      var x, y := FromBytes(a[..n]), FromBytes(b[..n]);
      assert x * 256 + a[n] == y * 256 + b[n];
      assert x == y && a[n] == b[n];
      FromBytesInjective(a[..n], b[..n]);
      assert a == a[..n] + [a[n]] && b == b[..n] + [b[n]];
    }
  }

  /** Of two texts of one width, the one with the smaller first byte is the smaller number. */
  lemma {:induction false} FirstByteDecides(a: seq<byte>, b: seq<byte>)
    requires |a| == |b| > 0 && a[0] < b[0]
    ensures FromBytes(a) < FromBytes(b)
  {
    var n := |a| - 1;
    if n > 0 {
      FirstByteDecides(a[..n], b[..n]);
    } else {
      assert FromBytes(a[..0]) == 0 && FromBytes(b[..0]) == 0;
    }
  }
}
