/** What every component shares. */
module Common {
  type Byte = x: int | 0 <= x < 256

  type Bytes = seq<Byte>

  datatype Option<+T> = None | Some(value: T)

  /** The bytes of a string of ASCII characters. */
  function Ascii(s: string): (r: Bytes)
    ensures |r| == |s|
  {
    seq(|s|, i requires 0 <= i < |s| => s[i] as int % 256)
  }

  /** The pieces, one after the other. */
  function Concat(pieces: seq<Bytes>): Bytes {
    if |pieces| == 0 then [] else Concat(pieces[..|pieces| - 1]) + pieces[|pieces| - 1]
  }

  function RemoveAt<T>(s: seq<T>, i: nat): seq<T>
    requires i < |s|
  {
    s[..i] + s[i + 1..]
  }

  function Pow(base: nat, n: nat): (r: nat)
    ensures base > 0 ==> r > 0
  {
    if n == 0 then 1 else base * Pow(base, n - 1)
  }

  /** A lower-case hexadecimal digit. */
  function HexByte(d: nat): (b: Byte)
    requires d < 16
    ensures 48 <= b <= 57 || 97 <= b <= 102
  {
    if d < 10 then 48 + d else 87 + d
  }

  /** memcpy into a buffer at an offset. */
  method CopyInto(dst: array<Byte>, at: nat, s: Bytes)
    requires at + |s| <= dst.Length
    modifies dst
    ensures dst[..at + |s|] == old(dst[..at]) + s
  {
    for i := 0 to |s|
      invariant dst[..at + i] == old(dst[..at]) + s[..i]
    {
      dst[at + i] := s[i];
    }
  }

  /** memmove of a[from..to] to the front. */
  method SlideToFront(a: array<Byte>, from: nat, to: nat)
    requires from <= to <= a.Length
    modifies a
    ensures a[..to - from] == old(a[from..to])
  {
    for i := 0 to to - from
      invariant a[..i] == old(a[from..from + i])
      invariant forall j :: from + i <= j < to ==> a[j] == old(a[j])
    {
      a[i] := a[from + i];
    }
  }
}
