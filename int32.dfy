/** Python's `struct.pack('>i', n)` and `struct.unpack('>i', w)`: big-endian two's complement. */
module Int32 {
  import opened Common

  const MIN: int := -0x8000_0000
  const MAX: int := 0x7FFF_FFFF

  predicate InRange(n: int) { MIN <= n <= MAX }

  /** The four bytes of `n`; `struct.pack` raises for anything outside int32. */
  function Pack(n: int): (w: Word)
    requires InRange(n)
    ensures w[0] >= 0x80 <==> n < 0
  {
    var u := if n < 0 then n + 0x1_0000_0000 else n;
    [u / 0x100_0000, (u / 0x1_0000) % 0x100, (u / 0x100) % 0x100, u % 0x100]
  }

  /** The signed value of four big-endian bytes. */
  function Unpack(w: Word): (n: int)
    ensures InRange(n)
    ensures n < 0 <==> w[0] >= 0x80
  {
    var u := w[0] as int * 0x100_0000 + w[1] as int * 0x1_0000 + w[2] as int * 0x100 + w[3] as int;
    if u >= 0x8000_0000 then u - 0x1_0000_0000 else u
  }

  lemma UnpackPack(n: int)
    requires InRange(n)
    ensures Unpack(Pack(n)) == n
  {
    var u := if n < 0 then n + 0x1_0000_0000 else n;
    var q1 := u / 0x100;
    var q2 := q1 / 0x100;
    var q3 := q2 / 0x100;
    assert u / 0x1_0000 == q2 && u / 0x100_0000 == q3;
    assert u == q1 * 0x100 + u % 0x100;
    assert q1 == q2 * 0x100 + q1 % 0x100;
    assert q2 == q3 * 0x100 + q2 % 0x100;
  }

  lemma PackUnpack(w: Word)
    ensures Pack(Unpack(w)) == w
  {
    var u := w[0] as int * 0x100_0000 + w[1] as int * 0x1_0000 + w[2] as int * 0x100 + w[3] as int;
    var q1 := w[0] as int * 0x1_0000 + w[1] as int * 0x100 + w[2] as int;
    var q2 := w[0] as int * 0x100 + w[1] as int;
    assert u == q1 * 0x100 + w[3];
    assert q1 == q2 * 0x100 + w[2];
    assert u / 0x100 == q1 && u % 0x100 == w[3];
    assert q1 / 0x100 == q2 && q1 % 0x100 == w[2];
    assert q2 / 0x100 == w[0] && q2 % 0x100 == w[1];
    assert u / 0x1_0000 == q2 && u / 0x100_0000 == w[0];
  }
}
