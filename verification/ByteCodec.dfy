/**
 Bytes and fixed-width integers, shared by every format in the repository.

 `Little(w, v)` is the value of Rust's `to_le_bytes` on a `w`-byte unsigned integer and
 `Big(w, v)` the value of Python's `struct.pack(">…")`.  Both keep the low `w` bytes of `v`,
 which is what an `as u16` or `as u32` cast followed by `to_le_bytes` does.
 */
module ByteCodec {

  type byte = n: int | 0 <= n < 256
  type Bytes = seq<byte>

  datatype Option<+T> = None | Some(value: T)

  datatype Result<+T, +E> = Ok(value: T) | Err(error: E) {
    predicate IsFailure() { Err? }
    function PropagateFailure<U>(): Result<U, E>
      requires Err?
    {
      Err(error)
    }
    function Extract(): T
      requires Ok?
    {
      value
    }
  }

  const U16_LIMIT: nat := 0x1_0000
  const U32_LIMIT: nat := 0x1_0000_0000
  const U64_LIMIT: nat := 0x1_0000_0000_0000_0000

  const NUL: byte := 0
  const SLASH: byte := 0x2F

  // The largest length of a Rust `Vec<u8>` and of a file offset, plus one.
  const LENGTH_LIMIT: nat := 0x8000_0000_0000_0000

  type u32 = n: int | 0 <= n < 0x1_0000_0000
  type u64 = n: int | 0 <= n < 0x1_0000_0000_0000_0000

  function Pow256(w: nat): (p: nat)
    ensures p > 0
  {
    if w == 0 then 1 else 256 * Pow256(w - 1)
  }

  lemma Pow256Values()
    ensures Pow256(1) == 0x100 && Pow256(2) == U16_LIMIT
    ensures Pow256(4) == U32_LIMIT && Pow256(8) == U64_LIMIT
  {
    assert Pow256(3) == 256 * Pow256(2);
    assert Pow256(5) == 256 * Pow256(4);
    assert Pow256(6) == 256 * Pow256(5);
    assert Pow256(7) == 256 * Pow256(6);
  }

  function Little(w: nat, v: nat): (b: Bytes)
    ensures |b| == w
  {
    if w == 0 then [] else [v % 256] + Little(w - 1, v / 256)
  }

  function FromLittle(b: Bytes): nat {
    if b == [] then 0 else b[0] + 256 * FromLittle(b[1..])
  }

  lemma {:induction false} LittleInverts(w: nat, v: nat)
    requires v < Pow256(w)
    ensures FromLittle(Little(w, v)) == v
  {
    if w > 0 {
      LittleInverts(w - 1, v / 256);
      assert Little(w, v)[1..] == Little(w - 1, v / 256);
    }
  }

  lemma {:induction false} LittleOnto(b: Bytes)
    ensures FromLittle(b) < Pow256(|b|)
    ensures Little(|b|, FromLittle(b)) == b
  {
    if b != [] {
      LittleOnto(b[1..]);
      LowByte(b[0], FromLittle(b[1..]));
      assert b == [b[0]] + b[1..];
    }
  }

  lemma LowByte(low: byte, high: nat)
    ensures (low + 256 * high) % 256 == low && (low + 256 * high) / 256 == high
    ensures forall n: nat :: high < n ==> low + 256 * high < 256 * n
  {
  }

  function Big(w: nat, v: nat): (b: Bytes)
    ensures |b| == w
  {
    if w == 0 then [] else Big(w - 1, v / 256) + [v % 256]
  }

  function FromBig(b: Bytes): nat {
    if b == [] then 0 else 256 * FromBig(b[..|b| - 1]) + b[|b| - 1]
  }

  lemma {:induction false} BigInverts(w: nat, v: nat)
    requires v < Pow256(w)
    ensures FromBig(Big(w, v)) == v
  {
    if w > 0 {
      BigInverts(w - 1, v / 256);
      assert Big(w, v)[..w - 1] == Big(w - 1, v / 256);
    }
  }

  lemma {:induction false} BigOnto(b: Bytes)
    ensures FromBig(b) < Pow256(|b|)
    ensures Big(|b|, FromBig(b)) == b
  {
    if b != [] {
      BigOnto(b[..|b| - 1]);
      LowByte(b[|b| - 1], FromBig(b[..|b| - 1]));
      assert b == b[..|b| - 1] + [b[|b| - 1]];
    }
  }

  // A text of 7-bit characters as bytes.
  function Ascii(s: string): Bytes {
    seq(|s|, i requires 0 <= i < |s| => s[i] as int % 256)
  }

  // Taking apart an encoding that starts with the known field `a`.
  lemma Split(a: Bytes, b: Bytes, c: Bytes)
    ensures (a + b) + c == a + (b + c)
    ensures ((a + b) + c)[..|a|] == a
    ensures ((a + b) + c)[|a|..] == b + c
  {
  }

  lemma Assoc(a: Bytes, b: Bytes, c: Bytes)
    ensures (a + b) + c == a + (b + c)
  {
  }
}
