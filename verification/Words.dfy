/** Fixed-width machine values and the wrapping 32-bit millisecond clock.

    The firmware keeps every instant as `uint32_t` milliseconds and compares instants by
    subtracting them modulo 2^32.  Here the true time is an unbounded `nat`, `Millis` is
    what the firmware can see of it, and the lemmas say when a wrapped comparison still
    decides the true one.
 */
module Words {
  type byte = x: int | 0 <= x < 0x100
  type u16 = x: int | 0 <= x < 0x1_0000
  type u32 = x: int | 0 <= x < 0x1_0000_0000

  const TWO_31 := 0x8000_0000
  const TWO_32 := 0x1_0000_0000

  /** What `millis()` returns at true time `clock`. */
  function Millis(clock: nat): u32 {
    clock % TWO_32
  }

  /** `base + ms` in `uint32_t`. */
  function Later(base: u32, ms: nat): u32 {
    (base + ms) % TWO_32
  }

  /** `now - since` in `uint32_t`. */
  function Elapsed(now: u32, since: u32): u32 {
    (now - since) % TWO_32
  }

  /** `static_cast<int32_t>(x)`. */
  function Signed(x: u32): int {
    if x < TWO_31 then x else x - TWO_32
  }

  /** `x as uint8_t` for any sum or difference. */
  function Low8(x: int): byte {
    x % 0x100
  }

  function Max(a: int, b: int): int {
    if a < b then b else a
  }

  function Min(a: int, b: int): int {
    if a < b then a else b
  }

  function Pow2(n: nat): (p: nat)
    ensures p > 0
  {
    if n == 0 then 1 else 2 * Pow2(n - 1)
  }

  lemma LaterIsMillis(clock: nat, ms: nat)
    ensures Later(Millis(clock), ms) == Millis(clock + ms)
  {
  }

  /** An unsigned difference never overstates the time that passed, however often the
      clock wrapped in between. */
  lemma ElapsedNeverOverstates(since: nat, now: nat)
    requires since <= now
    ensures Elapsed(Millis(now), Millis(since)) <= now - since
  {
  }

  /** The sign test `int32_t(now - due) >= 0` is exact while the two instants lie less
      than 2^31 ms apart, on either side of a clock wrap. */
  lemma SignTestExact(now: nat, due: nat)
    requires now < due + TWO_31 && due <= now + TWO_31
    ensures Signed(Elapsed(Millis(now), Millis(due))) >= 0 <==> due <= now
    ensures now < due ==> Signed(Elapsed(Millis(due), Millis(now))) > 0 || due == now + TWO_31
    ensures due <= now ==> Signed(Elapsed(Millis(due), Millis(now))) <= 0
  {
    assert Elapsed(Millis(now), Millis(due)) == (now - due) % TWO_32;
    assert Elapsed(Millis(due), Millis(now)) == (due - now) % TWO_32;
  }
}
