/**
 Types shared by every component: bytes, 32-bit words with the wrap-around of C's uint32_t, C strings, and Option.
 */
module Common {
  type Byte = x: int | 0 <= x < 256

  const TWO_32: int := 0x1_0000_0000

  type Word32 = x: int | 0 <= x < 0x1_0000_0000

  datatype Option<+T> = None | Some(value: T)

  /** uint32_t subtraction. */
  function Sub32(a: Word32, b: Word32): Word32 {
    (a - b) % TWO_32
  }

  /** uint32_t addition. */
  function Add32(a: Word32, b: nat): Word32 {
    (a + b) % TWO_32
  }

  /** uint32_t subtraction of two wrapped counters less than 2^32 apart. */
  lemma SubWrapped(a: nat, b: nat)
    requires -TWO_32 < a - b < TWO_32
    ensures Sub32(a % TWO_32, b % TWO_32) == if a < b then a - b + TWO_32 else a - b
  {
  }

  /** A 32-bit word at a place in network byte order. */
  function Word32At(s: seq<Byte>, p: nat): (w: Word32)
    requires p + 4 <= |s|
  {
    ((s[p] as int * 256 + s[p + 1]) * 256 + s[p + 2]) * 256 + s[p + 3]
  }

  function Bytes32(w: Word32): (s: seq<Byte>)
    ensures |s| == 4
  {
    [w / 256 / 256 / 256, w / 256 / 256 % 256, w / 256 % 256, w % 256]
  }

  lemma Bytes32Join(w: Word32)
    ensures Word32At(Bytes32(w), 0) == w
  {
    var w1 := w / 256;
    var w2 := w1 / 256;
    assert w2 / 256 * 256 + w2 % 256 == w2;
    assert w2 * 256 + w1 % 256 == w1;
    assert w1 * 256 + w % 256 == w;
  }

  function Min(a: int, b: int): (m: int)
    ensures m <= a && m <= b && (m == a || m == b)
  {
    if a <= b then a else b
  }

  /** What a reader of a C string sees of a buffer: everything before the first NUL. */
  function CStr(s: string): (r: string)
    ensures '\0' !in r
  {
    if s == "" || s[0] == '\0' then "" else [s[0]] + CStr(s[1..])
  }

  lemma {:induction false} CStrOfNulFree(s: string)
    requires '\0' !in s
    ensures CStr(s) == s
  {
    if s != "" {
      CStrOfNulFree(s[1..]);
    }
  }

  function Range(from: nat, to: nat): (r: seq<nat>)
    requires from <= to
    ensures |r| == to - from
  {
    seq(to - from, i requires 0 <= i < to - from => from + i)
  }

  lemma RangeJoins(from: nat, mid: nat, to: nat)
    requires from <= mid <= to
    ensures Range(from, mid) + Range(mid, to) == Range(from, to)
  {
  }

  lemma Assoc<T>(a: seq<T>, b: seq<T>, c: seq<T>)
    ensures (a + b) + c == a + (b + c)
  {
  }
}
