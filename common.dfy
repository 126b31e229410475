/** Small shared vocabulary: bytes, optional values and results. */
module Common {

  /** An octet, as Python `bytes` and Rust `u8` hold it. */
  type byte = x: int | 0 <= x < 0x100

  /** Exactly four octets: one OSC int32/float32 payload. */
  type Word = s: seq<byte> | |s| == 4 witness [0, 0, 0, 0]

  datatype Option<+T> = None | Some(value: T)

  datatype Result<+T, +E> = Ok(value: T) | Err(error: E)

  /** True when no element of `s` is the zero byte. */
  predicate NoZero(s: seq<byte>)
  {
    forall i :: 0 <= i < |s| ==> s[i] != 0
  }

  /** True when every element of `s` is the zero byte. */
  predicate AllZero(s: seq<byte>)
  {
    forall i :: 0 <= i < |s| ==> s[i] == 0
  }

  /** The least multiple of 4 strictly above `n`: the size of an OSC-string of `n` bytes. */
  function PaddedLength(n: nat): nat
  {
    n + 4 - n % 4
  }

  lemma PaddedLengthBounds(n: nat)
    ensures PaddedLength(n) % 4 == 0 && n < PaddedLength(n) <= n + 4
  {
  }

  /**
   * The zero bytes an OSC-string carries after `len` bytes of text and its
   * NUL, as both Python scripts compute them: `4 - (len + 1) % 4`, or none
   * when that comes to 4.
   */
  function Padding(len: nat): nat
  {
    var padding := 4 - (len + 1) % 4;
    if padding == 4 then 0 else padding
  }

  /** Text, NUL and padding together fill exactly the padded length. */
  lemma PaddingIsAlignment(n: nat)
    ensures n + 1 + Padding(n) == PaddedLength(n)
  {
  }

  /** `n` zero bytes (Python's `b'\x00' * n`). */
  function Zeros(n: nat): (z: seq<byte>)
    ensures |z| == n
  {
    if n == 0 then [] else [0] + Zeros(n - 1)
  }

  lemma {:induction false} ZerosAreZero(n: nat)
    ensures AllZero(Zeros(n))
  {
    if n > 0 {
      ZerosAreZero(n - 1);
      assert forall i :: 1 <= i < n ==> Zeros(n)[i] == Zeros(n - 1)[i - 1];
    }
  }
}
