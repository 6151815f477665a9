/**
 * Bernstein's DJB2 string hash, as the `Djb2` hasher of hashmap.rs computes
 * it: a 64-bit state that starts at 5381 and takes in each byte as
 * `state * 33 + b`, wrapping at 2^64.
 */
module Hashing {

  newtype u8 = x: int | 0 <= x < 0x100
  newtype u64 = x: int | 0 <= x < 0x1_0000_0000_0000_0000

  /** 2^64, the modulus of `u64` arithmetic. */
  const WORD: int := 0x1_0000_0000_0000_0000

  /** The state of a fresh hasher. */
  const SEED: u64 := 5381

  /** 33^n. */
  function Pow33(n: nat): nat
  {
    if n == 0 then 1 else 33 * Pow33(n - 1)
  }

  /** The bytes read as a number in base 33, first byte most significant. */
  function Horner(bytes: seq<u8>): nat
  {
    if |bytes| == 0 then 0 else 33 * Horner(bytes[..|bytes| - 1]) + bytes[|bytes| - 1] as nat
  }

  /**
   * The two moduli the hash is reduced by: 2^64 and the bucket count. The
   * lemmas below are stated for these constants only, because with a fixed
   * modulus the solver's arithmetic stays linear; for a symbolic one it
   * runs out of resource.
   */
  ghost predicate Modulus(m: int)
  {
    m == WORD || m == 0x100
  }

  /** Adding a multiple of the modulus does not change a remainder. */
  lemma ModMultiple(x: int, k: int, m: int)
    requires Modulus(m)
    requires k % m == 0
    ensures (x + k) % m == x % m
  {
  }

  /** Taking a remainder early, before scaling and adding, does not change the final one. */
  lemma ModEarly(x: int, c: int, b: int, m: int)
    requires Modulus(m)
    ensures (c * (x % m) + b) % m == (c * x + b) % m
  {
    var q := x / m;
    assert x == q * m + x % m;
    assert c * x + b == (c * (x % m) + b) + c * q * m;
    assert (c * q * m) % m == 0;
    ModMultiple(c * (x % m) + b, c * q * m, m);
  }

  /**
   * One byte of `write`: `(state << 5) + state + b` on `u64`, where the shift
   * drops the bits pushed out and both additions wrap.
   */
  function Step(state: u64, b: u8): (r: u64)
    ensures r as int == (33 * state as int + b as int) % WORD
  {
    var shifted := (state as int * 32) % WORD;
    var sum := (shifted + state as int) % WORD;
    ModEarly(state as int * 32, 1, state as int, WORD);
    ModEarly(state as int * 33, 1, b as int, WORD);
    ((sum + b as int) % WORD) as u64
  }

  /**
   * The state after `write(bytes)` on a hasher in state `state`: the
   * polynomial `state * 33^n + Horner(bytes)`, reduced modulo 2^64.
   */
  function Fold(state: u64, bytes: seq<u8>): (r: u64)
    ensures r as int == (state as int * Pow33(|bytes|) + Horner(bytes)) % WORD
    decreases |bytes|
  {
    if |bytes| == 0 then state
    else
      var init, last := bytes[..|bytes| - 1], bytes[|bytes| - 1];
      var p := state as int * Pow33(|init|) + Horner(init);
      ModEarly(p, 33, last as int, WORD);
      assert Pow33(|bytes|) == 33 * Pow33(|init|);
      assert 33 * p + last as int == state as int * Pow33(|bytes|) + Horner(bytes);
      Step(Fold(state, init), last)
  }

  /**
   * DJB2 of `bytes`: `new`, then `write(bytes)`, then `finish`; that is,
   * `5381 * 33^n + sum of b_i * 33^(n-1-i)` modulo 2^64.
   */
  function Djb2Hash(bytes: seq<u8>): (h: u64)
    ensures h as int == (5381 * Pow33(|bytes|) + Horner(bytes)) % WORD
  {
    Fold(SEED, bytes)
  }

  /** Two writes leave the same state as one write of the concatenation. */
  lemma {:induction false} FoldAppend(state: u64, a: seq<u8>, b: seq<u8>)
    ensures Fold(state, a + b) == Fold(Fold(state, a), b)
    decreases |b|
  {
    if |b| > 0 {
      var ab := a + b;
      assert ab[..|ab| - 1] == a + b[..|b| - 1];
      assert ab[|ab| - 1] == b[|b| - 1];
      FoldAppend(state, a, b[..|b| - 1]);
    } else {
      assert a + b == a;
    }
  }

  /** DJB2 carried out on an 8-bit state: `(state * 33 + b) % 256` per byte. */
  function Fold8(state: nat, bytes: seq<u8>): (r: nat)
    requires state < 0x100
    ensures r < 0x100
    decreases |bytes|
  {
    if |bytes| == 0 then state
    else (33 * Fold8(state, bytes[..|bytes| - 1]) + bytes[|bytes| - 1] as int) % 0x100
  }

  /**
   * Because 256 divides 2^64, the low byte of the 64-bit state is what the
   * 8-bit computation gives: the bucket index never depends on wrap-around.
   */
  lemma {:induction false} FoldLowByte(state: u64, bytes: seq<u8>)
    ensures Fold(state, bytes) as int % 0x100 == Fold8(state as int % 0x100, bytes)
    decreases |bytes|
  {
    if |bytes| > 0 {
      var init, last := bytes[..|bytes| - 1], bytes[|bytes| - 1];
      var f := Fold(state, init) as int;
      FoldLowByte(state, init);
      var x := 33 * f + last as int;
      assert Fold(state, bytes) as int == x % WORD;
      LowByte(x);
      ModEarly(f, 33, last as int, 0x100);
    }
  }

  /** The low byte survives reduction modulo 2^64. */
  lemma LowByte(x: int)
    ensures (x % WORD) % 0x100 == x % 0x100
  {
  }

  /** `Djb2`: the hasher `get_entry` creates afresh for every key. */
  class Djb2 {
    var state: u64

    /** `Djb2::new`. */
    constructor ()
      ensures state == SEED
    {
      state := SEED;
    }

    /** `finish`: the state as it stands; the hasher is left unchanged. */
    method Finish() returns (h: u64)
      ensures h == state
    {
      h := state;
    }

    /** `write`: takes in the bytes one by one, first to last. */
    method Write(bytes: seq<u8>)
      modifies this
      ensures state == Fold(old(state), bytes)
    {
      for i := 0 to |bytes|
        invariant state == Fold(old(state), bytes[..i])
      {
        assert bytes[..i + 1][..i] == bytes[..i];
        state := Step(state, bytes[i]);
      }
      assert bytes[..|bytes|] == bytes;
    }
  }
}
