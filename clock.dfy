/** The `Time` value of the program: hour, minute and second held in `u8`
    fields, converted to and from a `u32` count of seconds. */
module Clock {
  import opened Wrappers

  /** Rust's `u8` and `u32`. */
  type U8 = x: int | 0 <= x < 0x100
  type U32 = x: int | 0 <= x < 0x1_0000_0000

  /** A count of seconds reduced by whole turns of the clock. One turn is
      921600 = 256 * 3600 seconds: `from_sec` casts the hour to `u8`, so its
      results come back to 0:0:0 after 256 hours. */
  function Wrapped(s: nat): (r: nat)
    ensures r < 921600
    ensures s < 921600 ==> r == s
  {
    s % 921600
  }

  datatype Time = Time(hour: U8, min: U8, sec: U8)

  const Zero := Time(0, 0, 0)

  /** Minute and second below 60: what `from_sec` always builds. Durations
      read from the log need not be canonical (a minute field of 75 is
      accepted). */
  predicate Canonical(t: Time) {
    t.min < 60 && t.sec < 60
  }

  /** `Time::to_sec`. It never overflows: 255*3600 + 255*60 + 255 fits. */
  function ToSec(t: Time): (s: U32)
    ensures s <= 933555
  {
    t.hour * 3600 + t.min * 60 + t.sec
  }

  /** `Time::from_sec`: the hour is the quotient by 3600 cast to `u8` (so
      taken modulo 256), the minute the remainder's quotient by 60, the
      second the remainder by 60. The result is the canonical time whose
      total is `s` reduced by whole turns. */
  function FromSec(s: U32): (t: Time)
    ensures Canonical(t)
    ensures ToSec(t) == Wrapped(s)
  {
    FromSecTotal(s);
    Time((s / 3600) % 256, s % 3600 / 60, s % 60)
  }

  /** The arithmetic behind `FromSec`: the three parts add up to `s`
      reduced by whole turns. */
  lemma FromSecTotal(s: U32)
    ensures (s / 3600) % 256 * 3600 + s % 3600 / 60 * 60 + s % 60 == Wrapped(s)
  {
    var q, r := s / 3600, s % 3600;
    SplitSeconds(s, q, r);
    SplitHours(s, q, r);
  }

  /** The remainder by the hour splits into minutes and seconds. */
  lemma SplitSeconds(s: nat, q: nat, r: nat)
    requires q == s / 3600 && r == s % 3600
    ensures r / 60 * 60 + s % 60 == r
  {
    assert s == 3600 * q + r;
    assert r == 60 * (r / 60) + r % 60;
    assert s == 60 * (60 * q + r / 60) + r % 60;
  }

  /** Whole turns are the hours beyond 256 times an hour. */
  lemma SplitHours(s: nat, q: nat, r: nat)
    requires q == s / 3600 && r == s % 3600
    ensures q % 256 * 3600 + r == Wrapped(s)
  {
    assert s == 3600 * q + r;
    assert q == 256 * (q / 256) + q % 256;
    assert s == 921600 * (q / 256) + (3600 * (q % 256) + r);
    assert 0 <= 3600 * (q % 256) + r < 921600;
  }

  /** `Time::add`: the sum of the totals, wrapped like `from_sec`. The sum
      of two totals always fits in a `u32`. */
  function Add(a: Time, b: Time): (t: Time)
    ensures Canonical(t)
    ensures ToSec(t) == Wrapped(ToSec(a) + ToSec(b))
  {
    FromSec(ToSec(a) + ToSec(b))
  }

  /** `Time::sub`: the `u32` subtraction of the totals fails (a panic) when
      `b` is the larger; otherwise the difference, wrapped like `from_sec`. */
  function Sub(a: Time, b: Time): (r: Option<Time>)
    ensures r.None? <==> ToSec(b) > ToSec(a)
    ensures r.Some? ==> Canonical(r.value) && ToSec(r.value) == Wrapped(ToSec(a) - ToSec(b))
  {
    if ToSec(b) > ToSec(a) then None else Some(FromSec(ToSec(a) - ToSec(b)))
  }

  // ----- Reduction by whole turns

  /** Adding whole turns does not change the reduced value. */
  lemma {:induction false} WrappedShift(s: nat, turns: nat)
    ensures Wrapped(921600 * turns + s) == Wrapped(s)
    decreases turns
  {
    if turns > 0 {
      WrappedShift(s, turns - 1);
      assert 921600 * turns + s == (921600 * (turns - 1) + s) + 921600;
    }
  }

  /** Reducing a summand first does not change the reduced sum. */
  lemma WrappedAdd(x: nat, y: nat)
    ensures Wrapped(Wrapped(x) + y) == Wrapped(x + y)
  {
    var turns := x / 921600;
    assert x + y == 921600 * turns + (Wrapped(x) + y);
    WrappedShift(Wrapped(x) + y, turns);
  }

  // ----- Conversions

  /** The zero time has total 0 (stated once, so that proofs need not
      evaluate the total of a literal time). */
  lemma ToSecZero()
    ensures ToSec(Zero) == 0
  {
  }

  /** Two canonical times with the same total are the same time. */
  lemma CanonicalUnique(a: Time, b: Time)
    requires Canonical(a) && Canonical(b)
    requires ToSec(a) == ToSec(b)
    ensures a == b
  {
    assert a.hour == b.hour by {
      assert a.hour * 3600 <= ToSec(a) < a.hour * 3600 + 3600;
      assert b.hour * 3600 <= ToSec(b) < b.hour * 3600 + 3600;
    }
    assert a.min == b.min by {
      assert a.min * 60 <= a.min * 60 + a.sec < a.min * 60 + 60;
      assert b.min * 60 <= b.min * 60 + b.sec < b.min * 60 + 60;
    }
  }

  /** `to_sec(from_sec(s)) == s` while `s` stays below one turn. */
  lemma ToSecFromSec(s: U32)
    requires s < 921600
    ensures ToSec(FromSec(s)) == s
  {
  }

  /** `from_sec(to_sec(t)) == t` for every canonical `t`. */
  lemma FromSecToSec(t: Time)
    requires Canonical(t)
    ensures FromSec(ToSec(t)) == t
  {
    assert ToSec(t) < 921600;
    CanonicalUnique(FromSec(ToSec(t)), t);
  }

  // ----- Addition and subtraction

  /** Within one turn, adding is exact. */
  lemma AddExact(a: Time, b: Time)
    requires ToSec(a) + ToSec(b) < 921600
    ensures ToSec(Add(a, b)) == ToSec(a) + ToSec(b)
  {
  }

  /** Addition is commutative. */
  lemma AddCommutes(a: Time, b: Time)
    ensures Add(a, b) == Add(b, a)
  {
  }

  /** Addition is associative, including across the wrap of the hour. */
  lemma AddAssociative(a: Time, b: Time, c: Time)
    ensures Add(Add(a, b), c) == Add(a, Add(b, c))
  {
    AddLeftTotal(a, b, c);
    AddLeftTotal(b, c, a);
    AddCommutes(a, Add(b, c));
    CanonicalUnique(Add(Add(a, b), c), Add(a, Add(b, c)));
  }

  /** The total of `(a + b) + c` is the wrapped sum of the three totals. */
  lemma AddLeftTotal(a: Time, b: Time, c: Time)
    ensures ToSec(Add(Add(a, b), c)) == Wrapped(ToSec(a) + ToSec(b) + ToSec(c))
  {
    WrappedAdd(ToSec(a) + ToSec(b), ToSec(c));
  }

  /** Adding a time whose total is 0 only normalises. */
  lemma AddNothing(t: Time, z: Time)
    requires Canonical(t) && ToSec(z) == 0
    ensures Add(t, z) == t && Add(z, t) == t
  {
    AddExact(t, z);
    CanonicalUnique(Add(t, z), t);
  }

  /** 0:0:0 is the unit of addition on canonical times. */
  lemma AddZero(t: Time)
    requires Canonical(t)
    ensures Add(t, Zero) == t && Add(Zero, t) == t
  {
    ToSecZero();
    AddNothing(t, Zero);
  }

  /** Without a wrap, `a.add(b).sub(b)` gives back the total of `a`. */
  lemma SubAfterAdd(a: Time, b: Time)
    requires ToSec(a) + ToSec(b) < 921600
    ensures Sub(Add(a, b), b) == Some(FromSec(ToSec(a)))
  {
    AddExact(a, b);
  }

  /** Without a wrap, `a.add(b).sub(b) == a` for a canonical `a`. */
  lemma SubUndoesAdd(a: Time, b: Time)
    requires ToSec(a) + ToSec(b) < 921600
    requires Canonical(a)
    ensures Sub(Add(a, b), b) == Some(a)
  {
    SubAfterAdd(a, b);
    FromSecToSec(a);
  }
}
