/** The RF timeout code the reader configures before an exchange: the chip's timeout is
    100 us * 2^(n-1) for code n (section 7.3.1 of UM0701-02), n in 1..16. */
module RfTimeout {
  import opened Words

  const LIMIT_US := 100
  const LAST_CODE := 16

  /** `x >> n` of an unsigned word. */
  function ShiftRight(x: nat, n: nat): int {
    x / Pow2(n)
  }

  /** The code's timeout, in units of 100 us, covers `us` up to rounding. */
  predicate Covers(us: nat, code: nat)
    requires code >= 1
  {
    ShiftRight(us, code - 1) <= LIMIT_US
  }

  /** The least code that covers `us`, or the last one if none does. */
  ghost predicate IsLeastCode(us: nat, code: nat) {
    && 1 <= code <= LAST_CODE
    && (Covers(us, code) || code == LAST_CODE)
    && forall k: nat :: 1 <= k < code ==> !Covers(us, k)
  }

  function CodeFrom(us: nat, index: nat): (code: nat)
    requires index < LAST_CODE
    ensures index < code <= LAST_CODE
    decreases LAST_CODE - index
  {
    if ShiftRight(us, index) <= LIMIT_US then index + 1
    else if index + 1 < LAST_CODE then CodeFrom(us, index + 1)
    else LAST_CODE
  }

  function TimeoutCode(timeoutMs: u16): (code: nat)
    ensures 1 <= code <= LAST_CODE
  {
    CodeFrom(timeoutMs as int * 1000, 0)
  }

  lemma {:induction false} CodeFromIsLeast(us: nat, index: nat)
    requires index < LAST_CODE
    requires forall k: nat :: 1 <= k <= index ==> !Covers(us, k)
    ensures IsLeastCode(us, CodeFrom(us, index))
    decreases LAST_CODE - index
  {
    if ShiftRight(us, index) > LIMIT_US && index + 1 < LAST_CODE {
      assert !Covers(us, index + 1);
      CodeFromIsLeast(us, index + 1);
    }
  }

  /** The search finds the least covering code for every timeout. */
  lemma TimeoutCodeIsLeast(timeoutMs: u16)
    ensures IsLeastCode(timeoutMs as int * 1000, TimeoutCode(timeoutMs))
  {
    CodeFromIsLeast(timeoutMs as int * 1000, 0);
  }

  /** The reader's loop, in 32 bits, where the multiplication cannot overflow. */
  method FindTimeoutCode(timeoutMs: u16) returns (code: nat)
    ensures IsLeastCode(timeoutMs as int * 1000, code)
    ensures code == TimeoutCode(timeoutMs)
  {
    var timeoutMicroseconds: u32 := timeoutMs as int * 1000;
    code := LAST_CODE;
    for index := 0 to LAST_CODE
      invariant code == LAST_CODE
      invariant index < LAST_CODE ==> CodeFrom(timeoutMicroseconds, index) == TimeoutCode(timeoutMs)
      invariant index == LAST_CODE ==> TimeoutCode(timeoutMs) == LAST_CODE
    {
      if ShiftRight(timeoutMicroseconds, index) <= LIMIT_US {
        code := index + 1;
        break;
      }
    }
    TimeoutCodeIsLeast(timeoutMs);
  }

  /** A longer timeout never gets a smaller code. */
  lemma TimeoutCodeMonotone(t: u16, u: u16)
    requires t <= u
    ensures TimeoutCode(t) <= TimeoutCode(u)
  {
    TimeoutCodeIsLeast(t);
    TimeoutCodeIsLeast(u);
    var a, b, n := t as int * 1000, u as int * 1000, TimeoutCode(u);
    QuotientBounds(a, Pow2(n - 1));
    QuotientBounds(b, Pow2(n - 1));
    assert Covers(b, n) ==> Covers(a, n);
  }

  /** An unsaturated code's timeout of 100 us * 2^(n-1) falls short of the one asked for by
      less than one part in a hundred, and half of it would not do. */
  lemma TimeoutCodeFits(t: u16)
    ensures var n, us := TimeoutCode(t), t as int * 1000;
            && (us / Pow2(n - 1) <= LIMIT_US ==> us < (LIMIT_US + 1) * Pow2(n - 1))
            && (n > 1 ==> us >= (LIMIT_US + 1) * Pow2(n - 2))
  {
    TimeoutCodeIsLeast(t);
    var n, us := TimeoutCode(t), t as int * 1000;
    QuotientBounds(us, Pow2(n - 1));
    if n > 1 {
      QuotientBounds(us, Pow2(n - 2));
      assert !Covers(us, n - 1);
    }
  }

  lemma QuotientBounds(us: nat, p: nat)
    requires p > 0
    ensures us / p <= LIMIT_US <==> us < (LIMIT_US + 1) * p
  {
  }

  /** Every timeout up to 3309 ms is covered, and from there on the last code is used
      however far it falls short. */
  lemma SaturatesFrom3310ms(t: u16)
    ensures Covers(t as int * 1000, TimeoutCode(t)) <==> t <= 3309
  {
    TimeoutCodeIsLeast(t);
    var us, n := t as int * 1000, TimeoutCode(t);
    assert Pow2(5) == 32 && Pow2(10) == 1024 && Pow2(15) == 32768;
    QuotientBounds(us, Pow2(15));
    if t <= 3309 {
      assert Covers(us, 16);
    } else {
      assert !Covers(us, 16);
      if n < 16 {
        NeverUncovered(us, n, 16);
      }
    }
  }

  lemma {:induction false} NeverUncovered(us: nat, n: nat, m: nat)
    requires 1 <= n <= m && Covers(us, n)
    ensures Covers(us, m)
    decreases m - n
  {
    if n < m {
      QuotientBounds(us, Pow2(n - 1));
      QuotientBounds(us, Pow2(n));
      NeverUncovered(us, n + 1, m);
    }
  }
}
