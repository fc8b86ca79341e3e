/** Definitions shared by the two Anchor programs: the fixed-width integer
    types of the `SolHolder` account, public keys, the first-match lookup that
    `Iterator::position` performs over the whitelist, and the two functions
    over the deposit slots (their sum and the number of non-zero slots) that
    the accounting invariant is stated with. */
module Escrow {

  /** Number of whitelist entries and deposit slots (`[Pubkey; 5]`, `[u64; 5]`). */
  const SLOTS: nat := 5

  const U64_MAX: int := 0xFFFF_FFFF_FFFF_FFFF
  const U8_MAX: int := 0xFF

  type U64 = x: int | 0 <= x <= U64_MAX
  type U8 = x: int | 0 <= x <= U8_MAX
  type I64 = x: int | -0x8000_0000_0000_0000 <= x < 0x8000_0000_0000_0000

  /** A Solana public key: 32 bytes, compared byte for byte. */
  type Pubkey = s: seq<bv8> | |s| == 32 witness seq(32, _ => 0)

  datatype Option<+T> = None | Some(value: T)

  /** The outcome of an instruction: `Ok(())` or an error. */
  datatype Outcome<+E> = Ok | Err(error: E)

  /** `s.iter().position(|&x| x == key)`: the least index holding `key`, if any. */
  function FirstIndex<T(==)>(s: seq<T>, key: T): (r: Option<nat>)
    ensures r.Some? ==> r.value < |s| && s[r.value] == key
    ensures r.Some? ==> forall j :: 0 <= j < r.value ==> s[j] != key
    ensures r.None? <==> key !in s
  {
    if |s| == 0 then None
    else if s[0] == key then Some(0)
    else match FirstIndex(s[1..], key)
      case None => None
      case Some(i) => Some(i + 1)
  }

  /** The first index is determined by the two facts that define it. */
  lemma FirstIndexIs<T>(s: seq<T>, key: T, i: nat)
    requires i < |s| && s[i] == key
    requires forall j :: 0 <= j < i ==> s[j] != key
    ensures FirstIndex(s, key) == Some(i)
  {
    assert key in s;
  }

  /** Total of the deposit slots. */
  function Sum(s: seq<int>): int
  {
    if |s| == 0 then 0 else s[0] + Sum(s[1..])
  }

  /** Number of slots holding a non-zero amount. */
  function NonZeroCount(s: seq<int>): (n: nat)
    ensures n <= |s|
  {
    if |s| == 0 then 0 else (if s[0] != 0 then 1 else 0) + NonZeroCount(s[1..])
  }

  /** Overwriting one slot changes the sum by the difference of the two amounts. */
  lemma {:induction false} SumUpdate(s: seq<int>, i: nat, v: int)
    requires i < |s|
    ensures Sum(s[i := v]) == Sum(s) - s[i] + v
  {
    if i > 0 {
      assert s[i := v][1..] == s[1..][i - 1 := v];
      SumUpdate(s[1..], i - 1, v);
    }
  }

  /** Filling an empty slot with `v` adds one non-zero slot exactly when `v != 0`. */
  lemma {:induction false} NonZeroCountFill(s: seq<int>, i: nat, v: int)
    requires i < |s| && s[i] == 0
    ensures NonZeroCount(s[i := v]) == NonZeroCount(s) + (if v != 0 then 1 else 0)
  {
    if i > 0 {
      assert s[i := v][1..] == s[1..][i - 1 := v];
      NonZeroCountFill(s[1..], i - 1, v);
    }
  }

  /** Slots that are all zero sum to zero and hold no non-zero amount. */
  lemma {:induction false} ZeroSlots(s: seq<int>)
    requires forall i :: 0 <= i < |s| ==> s[i] == 0
    ensures Sum(s) == 0 && NonZeroCount(s) == 0
  {
    if |s| > 0 {
      ZeroSlots(s[1..]);
    }
  }
}
