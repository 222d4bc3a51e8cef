/** Fixed-width integers and little-endian memory, as the kernel's C types use them. */
module Machine {

  type Byte = x: int | 0 <= x < 0x100
  type U16 = x: int | 0 <= x < 0x1_0000
  type U32 = x: int | 0 <= x < 0x1_0000_0000
  type U64 = x: int | 0 <= x < 0x1_0000_0000_0000_0000

  datatype Option<+T> = None | Some(value: T)

  /** The four bytes of a u32 in memory order. */
  function LE32(x: U32): (b: seq<Byte>)
    ensures |b| == 4
  {
    [x % 0x100, x / 0x100 % 0x100, x / 0x1_0000 % 0x100, x / 0x100_0000]
  }

  /** A u32 load. */
  function FromLE32(b: seq<Byte>): U32
    requires |b| == 4
  {
    var b0: int, b1: int, b2: int, b3: int := b[0], b[1], b[2], b[3];
    b0 + 0x100 * b1 + 0x1_0000 * b2 + 0x100_0000 * b3
  }

  /** A u16 in network order. */
  function BE16(x: U16): (b: seq<Byte>)
    ensures |b| == 2
  {
    [x / 0x100, x % 0x100]
  }

  lemma LE32RoundTrip(x: U32)
    ensures FromLE32(LE32(x)) == x
  {
    assert x == x % 0x100 + 0x100 * (x / 0x100);
    assert x / 0x1_0000 == x / 0x100 / 0x100;
    assert x / 0x100_0000 == x / 0x1_0000 / 0x100;
  }

  /** An array of u32 in memory. */
  function Words(ws: seq<U32>): (b: seq<Byte>)
    ensures |b| == 4 * |ws|
  {
    if ws == [] then [] else LE32(ws[0]) + Words(ws[1..])
  }

  lemma {:induction false} WordAt(ws: seq<U32>, j: nat, rest: seq<Byte>)
    requires j < |ws|
    ensures FromLE32((Words(ws) + rest)[4 * j..4 * j + 4]) == ws[j]
  {
    var b := Words(ws) + rest;
    if j == 0 {
      assert b[0..4] == LE32(ws[0]);
      LE32RoundTrip(ws[0]);
    } else {
      WordAt(ws[1..], j - 1, rest);
      assert b[4 * j..4 * j + 4] == (Words(ws[1..]) + rest)[4 * (j - 1)..4 * (j - 1) + 4];
    }
  }

  /** `n` zero bytes, what memset leaves. */
  function Zeros(n: nat): (b: seq<Byte>)
    ensures |b| == n
  {
    seq(n, _ => 0)
  }

  /** The bytes of an ASCII string. */
  function Ascii(s: string): (b: seq<Byte>)
    ensures |b| == |s|
  {
    seq(|s|, i requires 0 <= i < |s| => s[i] as int % 0x100)
  }

  /** A C string: the bytes before the first NUL, or all of them when there is none. */
  function CStr(b: seq<Byte>): (s: seq<Byte>)
    ensures 0 !in s
    ensures s <= b
    ensures |s| < |b| ==> b[|s|] == 0
  {
    if b == [] || b[0] == 0 then [] else [b[0]] + CStr(b[1..])
  }

  lemma {:induction false} CStrOfTerminated(s: seq<Byte>, rest: seq<Byte>)
    requires 0 !in s && rest != [] && rest[0] == 0
    ensures CStr(s + rest) == s
  {
    if s == [] {
      assert s + rest == rest;
    } else {
      assert (s + rest)[1..] == s[1..] + rest;
      CStrOfTerminated(s[1..], rest);
    }
  }

  // ---------- Arrays shifted in place ----------

  /** Elements x + 1 to y moved one place down, element y left in place. */
  function MovedDown<T>(b: seq<T>, x: nat, y: nat): seq<T>
    requires x <= y < |b|
  {
    b[..x] + b[x + 1..y + 1] + b[y..]
  }

  lemma MoveDown<T>(b: seq<T>, x: nat, y: nat)
    requires x <= y < |b|
    ensures var c := MovedDown(b, x, y);
      && |c| == |b| && c[y..] == b[y..] && c[y] == b[y] && (x == y ==> c == b)
      && (y + 1 < |b| ==> c[y + 1] == b[y + 1] && c[y := b[y + 1]] == MovedDown(b, x, y + 1))
  {
  }

  /** Elements x to y - 1 moved one place up. */
  function MovedUp<T>(b: seq<T>, x: nat, y: nat): seq<T>
    requires x <= y < |b|
  {
    b[..x + 1] + b[x..y] + b[y + 1..]
  }

  lemma MoveUp<T>(b: seq<T>, x: nat, y: nat)
    requires x <= y < |b|
    ensures var c := MovedUp(b, x, y);
      && |c| == |b| && c[x] == b[x] && (x == y ==> c == b)
      && (x > 0 ==> c[x - 1] == b[x - 1] && c[x := b[x - 1]] == MovedUp(b, x - 1, y))
  {
  }
}
