/**
 * The daily streak widget: a count the user raises at most once per day, an
 * automatic reset after four or more days without a click, persistence of
 * the count and of the last click in a two-key browser store, and the
 * countdown to the next local midnight shown under the button.
 *
 * Time is integer milliseconds.  The instant of a click is stored as its
 * decimal numeral (`Stamp`), standing for the ISO-8601 string of the source;
 * reading a stored instant (`ReadStamp`) gives `None` where the source's
 * `new Date(...)` would be an invalid date.
 */
module StreakCounter {
  import opened Wrappers
  import Decimal

  const MS_PER_DAY: int := 1000 * 60 * 60 * 24
  const MS_PER_HOUR: int := 1000 * 60 * 60
  const MS_PER_MINUTE: int := 1000 * 60
  const MS_PER_SECOND: int := 1000
  /** Days without a click after which the streak starts over. */
  const RESET_DAYS: int := 4
  const STREAK_KEY: string := "myStreak"
  const LAST_CLICK_KEY: string := "myLastClick"

  // ----- the state machine, as values -----

  /**
   * The widget's state: the streak count, the stored instant of the last
   * click ("" when there is none), whether the button is disabled, and the
   * browser store.
   */
  datatype Counter = Counter(streak: int, lastClick: string, disabled: bool, store: map<string, string>)

  /** The state before anything is loaded, over whatever the store holds. */
  function Initial(store: map<string, string>): Counter {
    Counter(0, "", false, store)
  }

  /** The stored form of the instant `t`. */
  function Stamp(t: int): string {
    Decimal.IntToString(t)
  }

  /** The instant a stored string denotes, if any. */
  function ReadStamp(s: string): Option<int> {
    Decimal.ParseDecimal(s)
  }

  /** A stored instant reads back as itself, and is never the empty "no click" string. */
  lemma StampRoundTrip(t: int)
    ensures ReadStamp(Stamp(t)) == Some(t)
    ensures Stamp(t) != ""
  {
    Decimal.ParseIntToString(t);
  }

  /**
   * `Math.floor((now - last) / 86400000)`: the number of whole 24-hour periods
   * from `last` to `now`, negative when `now` is earlier than `last`.
   */
  function DayDiff(now: int, last: int): (d: int)
    ensures d * MS_PER_DAY <= now - last < (d + 1) * MS_PER_DAY
  {
    (now - last) / MS_PER_DAY
  }

  /**
   * Mount: a non-empty stored count replaces the streak and a non-empty stored
   * instant replaces the last click; nothing else changes.  A stored count
   * that is not a decimal numeral is ignored.
   */
  function Load(c: Counter): (r: Counter)
    ensures r.disabled == c.disabled && r.store == c.store
    ensures r.lastClick == c.lastClick || (LAST_CLICK_KEY in c.store && r.lastClick == c.store[LAST_CLICK_KEY])
  {
    var withStreak :=
      if STREAK_KEY in c.store && c.store[STREAK_KEY] != "" then
        match Decimal.ParseDecimal(c.store[STREAK_KEY])
        case Some(n) => c.(streak := n)
        case None => c
      else c;
    if LAST_CLICK_KEY in c.store && c.store[LAST_CLICK_KEY] != "" then
      withStreak.(lastClick := c.store[LAST_CLICK_KEY])
    else withStreak
  }

  /**
   * The effect run whenever the last click changes: nothing without a last
   * click; after `RESET_DAYS` or more whole days, the streak and the last click
   * are cleared in the state and in the store and the button is enabled;
   * otherwise the button is disabled exactly when no whole day has passed.
   * An unreadable last click compares false both ways, which enables the button.
   */
  function Evaluate(c: Counter, now: int): (r: Counter)
    ensures r == c.(disabled := r.disabled) || (r.streak == 0 && r.lastClick == "" && !r.disabled)
  {
    if c.lastClick == "" then c
    else
      match ReadStamp(c.lastClick)
      case None => c.(disabled := false)
      case Some(last) =>
        var days := DayDiff(now, last);
        if days >= RESET_DAYS then
          Counter(0, "", false, c.store[STREAK_KEY := "0"] - {LAST_CLICK_KEY})
        else
          c.(disabled := days == 0)
  }

  /**
   * The button's click handler: nothing while disabled; otherwise the streak
   * goes up by one, the click instant is recorded, both are written to the
   * store and the button is disabled.
   */
  function Click(c: Counter, now: int): (r: Counter)
    ensures r == c || (r.streak == c.streak + 1 && r.lastClick != "" && r.disabled && !c.disabled)
  {
    if c.disabled then c
    else
      Counter(c.streak + 1, Stamp(now), true,
        c.store[STREAK_KEY := Decimal.IntToString(c.streak + 1)][LAST_CLICK_KEY := Stamp(now)])
  }

  /**
   * The states the widget can reach: the count is non-negative and zero
   * exactly when there is no last click, and the store mirrors both (an
   * absent count key means zero, an absent instant key means no last click).
   */
  predicate Consistent(c: Counter) {
    && c.streak >= 0
    && (c.streak == 0 <==> c.lastClick == "")
    && (STREAK_KEY in c.store ==> c.store[STREAK_KEY] == Decimal.IntToString(c.streak))
    && (STREAK_KEY !in c.store ==> c.streak == 0)
    && (LAST_CLICK_KEY in c.store <==> c.lastClick != "")
    && (LAST_CLICK_KEY in c.store ==> c.store[LAST_CLICK_KEY] == c.lastClick)
  }

  // ----- properties of the transitions -----

  /** Without a last click, evaluating changes nothing. */
  lemma EvaluateWithoutLastClick(c: Counter, now: int)
    requires c.lastClick == ""
    ensures Evaluate(c, now) == c
  {
  }

  /**
   * Four or more whole days after the last click, evaluating resets: streak 0,
   * no last click, the store holds count "0" and no instant, the button is
   * enabled.  Evaluating the reset state again, at any time, changes nothing.
   */
  lemma EvaluateResets(c: Counter, now: int, last: int)
    requires ReadStamp(c.lastClick) == Some(last) && DayDiff(now, last) >= RESET_DAYS
    ensures var r := Evaluate(c, now);
      && r.streak == 0 && r.lastClick == "" && !r.disabled
      && r.store == c.store[STREAK_KEY := "0"] - {LAST_CLICK_KEY}
      && r.store[STREAK_KEY] == "0" && LAST_CLICK_KEY !in r.store
    ensures forall later :: Evaluate(Evaluate(c, now), later) == Evaluate(c, now)
  {
    Decimal.ParseIntToString(0);
    assert c.lastClick != "";
  }

  /**
   * Fewer than four whole days after the last click, evaluating keeps the
   * streak, the last click and the store, and disables the button exactly
   * when no whole day has passed (a negative difference enables it).
   */
  lemma EvaluateBelowReset(c: Counter, now: int, last: int)
    requires ReadStamp(c.lastClick) == Some(last) && DayDiff(now, last) < RESET_DAYS
    ensures var r := Evaluate(c, now);
      && r.streak == c.streak && r.lastClick == c.lastClick && r.store == c.store
      && (r.disabled <==> DayDiff(now, last) == 0)
      && (r.disabled <==> 0 <= now - last < MS_PER_DAY)
  {
    assert c.lastClick != "";
  }

  /** A last click that does not read as an instant enables the button and changes nothing else. */
  lemma EvaluateUnreadableLastClick(c: Counter, now: int)
    requires c.lastClick != "" && ReadStamp(c.lastClick).None?
    ensures Evaluate(c, now) == c.(disabled := false)
  {
  }

  /** Evaluating twice at the same instant is the same as evaluating once. */
  lemma EvaluateIdempotent(c: Counter, now: int)
    ensures Evaluate(Evaluate(c, now), now) == Evaluate(c, now)
  {
  }

  /** A click while the button is disabled changes nothing, store included. */
  lemma ClickWhileDisabled(c: Counter, now: int)
    requires c.disabled
    ensures Click(c, now) == c
  {
  }

  /**
   * A click on an enabled button adds one to the streak, records the click,
   * stores both values so that they read back as the new count and the click
   * instant, leaves every other key alone and adds no other key, and disables
   * the button, so that a second click, at any time, changes nothing, and the
   * effect re-run by the new last click within the same day changes nothing.
   */
  lemma ClickWhileEnabled(c: Counter, now: int, later: int)
    requires !c.disabled
    requires 0 <= later - now < MS_PER_DAY
    ensures var r := Click(c, now);
      && r.streak == c.streak + 1 && ReadStamp(r.lastClick) == Some(now) && r.disabled
      && Decimal.ParseDecimal(r.store[STREAK_KEY]) == Some(c.streak + 1)
      && ReadStamp(r.store[LAST_CLICK_KEY]) == Some(now)
      && (forall k :: k in c.store && k != STREAK_KEY && k != LAST_CLICK_KEY ==> k in r.store && r.store[k] == c.store[k])
      && r.store.Keys == c.store.Keys + {STREAK_KEY, LAST_CLICK_KEY}
    ensures forall again :: Click(Click(c, now), again) == Click(c, now)
    ensures Evaluate(Click(c, now), later) == Click(c, now)
  {
    StampRoundTrip(now);
    Decimal.ParseIntToString(c.streak + 1);
  }

  /** One to three whole days after a click, evaluating enables the button again and keeps the rest. */
  lemma ClickRearmsNextDay(c: Counter, now: int, later: int)
    requires !c.disabled
    requires MS_PER_DAY <= later - now < RESET_DAYS * MS_PER_DAY
    ensures Evaluate(Click(c, now), later) == Click(c, now).(disabled := false)
  {
    StampRoundTrip(now);
  }

  /** Every transition keeps a reachable state reachable. */
  lemma TransitionsKeepConsistent(c: Counter, now: int)
    requires Consistent(c)
    ensures Consistent(Evaluate(c, now))
    ensures Consistent(Click(c, now))
  {
    StampRoundTrip(now);
  }

  /** The first state, over an empty store, is reachable. */
  lemma InitialConsistent()
    ensures Consistent(Initial(map[]))
    ensures Load(Initial(map[])) == Initial(map[])
  {
  }

  /**
   * Mounting over a store: the streak is the stored count when that is a
   * numeral and stays 0 when the key is absent or empty; the last click is
   * the stored instant when the key is present and stays "" otherwise; the
   * button stays enabled and the store is only read.
   */
  lemma LoadReadsPresentKeys(store: map<string, string>)
    ensures var r := Load(Initial(store));
      && (STREAK_KEY !in store || store[STREAK_KEY] == "" ==> r.streak == 0)
      && (STREAK_KEY in store && Decimal.ParseDecimal(store[STREAK_KEY]).Some? ==>
            r.streak == Decimal.ParseDecimal(store[STREAK_KEY]).value)
      && (STREAK_KEY in store && Decimal.ParseDecimal(store[STREAK_KEY]).None? ==> r.streak == 0)
      && r.lastClick == (if LAST_CLICK_KEY in store then store[LAST_CLICK_KEY] else "")
      && !r.disabled && r.store == store
  {
  }

  /**
   * What is stored is enough to rebuild the state: loading a reachable state's
   * store into a fresh widget gives back its streak and its last click.
   */
  lemma LoadRestores(c: Counter)
    requires Consistent(c)
    ensures Load(Initial(c.store)) == c.(disabled := false)
  {
    if STREAK_KEY in c.store {
      Decimal.ParseIntToString(c.streak);
    }
  }

  /**
   * A run of the widget: a click on the fresh widget gives streak 1; a second
   * click in the same instant is ignored; a day later the button is enabled
   * again and a click gives 2; four days after that, evaluation resets to 0.
   */
  lemma StreakScenario(t: int)
    ensures var s1 := Evaluate(Click(Initial(map[]), t), t);
      && s1.streak == 1 && s1.disabled
      && Click(s1, t) == s1
      && var s2 := Evaluate(Click(Evaluate(s1, t + MS_PER_DAY), t + MS_PER_DAY), t + MS_PER_DAY);
      && s2.streak == 2 && s2.disabled
      && var s3 := Evaluate(s2, t + 5 * MS_PER_DAY);
      && s3.streak == 0 && s3.lastClick == "" && !s3.disabled
  {
    var s0 := Initial(map[]);
    ClickWhileEnabled(s0, t, t);
    var s1 := Evaluate(Click(s0, t), t);
    ClickRearmsNextDay(s0, t, t + MS_PER_DAY);
    var s1' := Evaluate(s1, t + MS_PER_DAY);
    ClickWhileEnabled(s1', t + MS_PER_DAY, t + MS_PER_DAY);
    var s2 := Evaluate(Click(s1', t + MS_PER_DAY), t + MS_PER_DAY);
    StampRoundTrip(t + MS_PER_DAY);
    EvaluateResets(s2, t + 5 * MS_PER_DAY, t + MS_PER_DAY);
  }

  // ----- the countdown to midnight -----

  /** The quotient `q` rounded toward zero: at most `q` and within one of it when `q >= 0`, at least `q` and within one of it below. */
  function Truncate(q: real): (t: int)
    ensures q >= 0.0 ==> t as real <= q < t as real + 1.0
    ensures q < 0.0 ==> t as real - 1.0 < q <= t as real
  {
    if q >= 0.0 then q.Floor else -((-q).Floor)
  }

  /**
   * JavaScript's `% 60` on numbers: what is left of `x` after taking away a
   * whole multiple of 60 (the quotient truncated toward zero), so it has the
   * sign of `x` and is smaller than 60 in magnitude.
   */
  function Rem60(x: real): (r: real)
    ensures x >= 0.0 ==> 0.0 <= r < 60.0
    ensures x < 0.0 ==> -60.0 < r <= 0.0
    ensures ((x - r) / 60.0).Floor as real == (x - r) / 60.0
  {
    x - 60.0 * Truncate(x / 60.0) as real
  }

  datatype Hms = Hms(hours: int, minutes: int, seconds: int)

  /**
   * Hours, minutes and seconds of a difference of `diff` milliseconds, as
   * `Math.floor(diff / 3600000)`, `Math.floor((diff / 60000) % 60)` and
   * `Math.floor((diff / 1000) % 60)`, over exact reals.
   */
  function Countdown(diff: int): (r: Hms)
    ensures diff >= 0 ==> r.hours >= 0 && 0 <= r.minutes < 60 && 0 <= r.seconds < 60
    ensures diff < 0 ==> r.hours < 0 && -60 <= r.minutes <= 0 && -60 <= r.seconds <= 0
  {
    Hms((diff as real / MS_PER_HOUR as real).Floor,
        Rem60(diff as real / MS_PER_MINUTE as real).Floor,
        Rem60(diff as real / MS_PER_SECOND as real).Floor)
  }

  /** The floor of an exact quotient is the integer quotient. */
  lemma FloorOfQuotient(n: int, d: int)
    requires d > 0
    ensures (n as real / d as real).Floor == n / d
  {
    var q, r := n / d, n % d;
    assert n as real == q as real * d as real + r as real;
    assert n as real / d as real == q as real + r as real / d as real;
  }

  /** A quotient of a smaller non-negative integer by a larger one lies in [0, 1). */
  lemma ProperFraction(b: int, u: int)
    requires 0 <= b < u
    ensures 0.0 <= b as real / u as real < 1.0
  {
    var f := b as real / u as real;
    assert f * u as real == b as real;
  }

  /** For a non-negative quotient, the floor of its JavaScript remainder by 60 is the integer quotient modulo 60. */
  lemma FloorOfRemainder(n: int, u: int)
    requires n >= 0 && u > 0
    ensures Rem60(n as real / u as real).Floor == (n / u) % 60
  {
    QuotientParts(n, u);
    ProperFraction(n % u, u);
    WholePlusFraction(n / u, (n % u) as real / u as real);
  }

  /** An exact quotient is the integer quotient plus the remainder's share of the divisor. */
  lemma QuotientParts(n: int, u: int)
    requires u > 0
    ensures n as real / u as real == (n / u) as real + (n % u) as real / u as real
  {
    assert n as real == (n / u) as real * u as real + (n % u) as real;
  }

  /** A whole number `a >= 0` plus a fraction in [0, 1): the floor of its remainder by 60 is `a` modulo 60. */
  lemma WholePlusFraction(a: int, frac: real)
    requires a >= 0 && 0.0 <= frac < 1.0
    ensures Rem60(a as real + frac).Floor == a % 60
  {
    var x := a as real + frac;
    var t, m := a / 60, a % 60;
    assert x / 60.0 == t as real + (m as real + frac) / 60.0;
    assert Truncate(x / 60.0) == t;
    assert Rem60(x) == m as real + frac;
  }

  /** A positive multiple of a positive number is at least that number. */
  lemma {:induction false} MultipleAtLeast(k: int, d: int)
    requires k >= 1 && d > 0
    ensures k * d >= d
    decreases k
  {
    if k > 1 {
      MultipleAtLeast(k - 1, d);
      assert k * d == (k - 1) * d + d;
    }
  }

  /** The quotient is the one `q` with `n == q * d + r` and `0 <= r < d`. */
  lemma DivUnique(n: int, d: int, q: int, r: int)
    requires d > 0 && n == q * d + r && 0 <= r < d
    ensures n / d == q
  {
    var q', r' := n / d, n % d;
    assert n == q' * d + r';
    assert (q' - q) * d == q' * d - q * d;
    assert (q - q') * d == q * d - q' * d;
    if q' > q {
      MultipleAtLeast(q' - q, d);
    } else if q' < q {
      MultipleAtLeast(q - q', d);
    }
  }

  /** Multiplying by a positive number keeps order. */
  lemma {:induction false} MultiplyKeepsOrder(x: int, y: int, a: int)
    requires x <= y && a > 0
    ensures x * a <= y * a
  {
    if x < y {
      MultipleAtLeast(y - x, a);
      assert y * a - x * a == (y - x) * a;
    }
  }

  /** Dividing in two steps is dividing by the product. */
  lemma DivDiv(n: int, a: int, b: int)
    requires n >= 0 && a > 0 && b > 0
    ensures n / (a * b) == (n / a) / b
  {
    var q1, r1 := n / a, n % a;
    var q2, r2 := q1 / b, q1 % b;
    assert n == q1 * a + r1;
    assert q1 == q2 * b + r2;
    assert q1 * a == q2 * (a * b) + r2 * a by {
      assert q1 * a == (q2 * b + r2) * a;
      assert (q2 * b + r2) * a == q2 * b * a + r2 * a;
      assert q2 * b * a == q2 * (a * b);
    }
    MultiplyKeepsOrder(r2, b - 1, a);
    assert (b - 1) * a == a * b - a;
    DivUnique(n, a * b, q2, r2 * a + r1);
  }

  /**
   * For a non-negative difference the three fields are the integer quotients
   * `diff div 3600000`, `(diff div 60000) mod 60` and `(diff div 1000) mod 60`;
   * minutes and seconds lie in 0..59, and together with the hours they make
   * up exactly the whole seconds of the difference.
   */
  lemma CountdownFields(diff: int)
    requires diff >= 0
    ensures var r := Countdown(diff);
      && r.hours == diff / MS_PER_HOUR
      && r.minutes == (diff / MS_PER_MINUTE) % 60
      && r.seconds == (diff / MS_PER_SECOND) % 60
      && r.hours >= 0 && 0 <= r.minutes < 60 && 0 <= r.seconds < 60
      && r.hours * 3600 + r.minutes * 60 + r.seconds == diff / MS_PER_SECOND
  {
    FloorOfQuotient(diff, MS_PER_HOUR);
    FloorOfRemainder(diff, MS_PER_MINUTE);
    FloorOfRemainder(diff, MS_PER_SECOND);
    var secs := diff / 1000;
    DivDiv(diff, 1000, 60);
    DivDiv(diff, 1000 * 60, 60);
    var mins := secs / 60;
    assert diff / MS_PER_MINUTE == mins;
    assert diff / MS_PER_HOUR == mins / 60;
    assert mins == (mins / 60) * 60 + mins % 60;
    assert secs == mins * 60 + secs % 60;
  }

  /** Left-pads `s` with copies of `fill` up to `width` characters; a longer `s` is kept as it is. */
  function PadStart(s: string, width: nat, fill: char): (r: string)
    ensures |r| == if |s| < width then width else |s|
    ensures r[|r| - |s|..] == s
    ensures forall i :: 0 <= i < |r| - |s| ==> r[i] == fill
  {
    if |s| < width then seq(width - |s|, _ => fill) + s else s
  }

  /** The numeral of `n`, left-padded with '0' to two characters: at least two characters, ending in the numeral. */
  function Pad(n: int): (r: string)
    ensures |r| >= 2 && |r| >= |Decimal.IntToString(n)|
    ensures r[|r| - |Decimal.IntToString(n)|..] == Decimal.IntToString(n)
  {
    PadStart(Decimal.IntToString(n), 2, '0')
  }

  /**
   * For 0..99 the padded numeral has two digits, starts with '0' exactly
   * below 10 and reads as `n`; from 10 on nothing is added.
   */
  lemma PadDigits(n: int)
    ensures 0 <= n <= 99 ==>
      && |Pad(n)| == 2 && Decimal.AllDigits(Pad(n))
      && (Pad(n)[0] == '0' <==> n < 10)
      && Decimal.DigitsValue(Pad(n)) == n
    ensures n >= 10 ==> Pad(n) == Decimal.IntToString(n)
  {
    if 0 <= n {
      Decimal.NatToStringValue(n);
      var s := Decimal.NatToString(n);
      if n < 10 {
        assert Pad(n) == ['0'] + s;
        assert Pad(n)[..1] == ['0'];
        assert Pad(n)[..1][..0] == [];
      }
    }
  }

  /** The text shown under the button: `hh:mm:ss`. */
  function TimeLeft(diff: int): (r: string)
    ensures |r| >= 8
  {
    var r := Countdown(diff);
    Pad(r.hours) + ":" + Pad(r.minutes) + ":" + Pad(r.seconds)
  }

  /**
   * Three values in 0..99 padded and joined by colons make eight characters,
   * colons at positions 2 and 5, and the digit pairs read back as the values.
   */
  lemma JoinedPads(h: int, m: int, sec: int)
    requires 0 <= h <= 99 && 0 <= m <= 99 && 0 <= sec <= 99
    ensures var s := Pad(h) + ":" + Pad(m) + ":" + Pad(sec);
      && |s| == 8 && s[2] == ':' && s[5] == ':'
      && Decimal.AllDigits(s[0..2]) && Decimal.DigitsValue(s[0..2]) == h
      && Decimal.AllDigits(s[3..5]) && Decimal.DigitsValue(s[3..5]) == m
      && Decimal.AllDigits(s[6..8]) && Decimal.DigitsValue(s[6..8]) == sec
  {
    PadDigits(h);
    PadDigits(m);
    PadDigits(sec);
    JoinedParts(Pad(h), Pad(m), Pad(sec));
  }

  /** Joining three two-character strings with colons puts each back at a fixed slice. */
  lemma JoinedParts(ph: string, pm: string, ps: string)
    requires |ph| == 2 && |pm| == 2 && |ps| == 2
    ensures var s := ph + ":" + pm + ":" + ps;
      |s| == 8 && s[2] == ':' && s[5] == ':' && s[0..2] == ph && s[3..5] == pm && s[6..8] == ps
  {
  }

  /**
   * Below 100 hours the text is eight characters, colons at positions 2 and
   * 5, and its three digit pairs read as the hours, minutes and seconds of
   * the difference.
   */
  lemma TimeLeftShape(diff: int)
    requires 0 <= diff < 100 * MS_PER_HOUR
    ensures var s, r := TimeLeft(diff), Countdown(diff);
      && |s| == 8 && s[2] == ':' && s[5] == ':'
      && Decimal.AllDigits(s[0..2]) && Decimal.DigitsValue(s[0..2]) == r.hours
      && Decimal.AllDigits(s[3..5]) && Decimal.DigitsValue(s[3..5]) == r.minutes
      && Decimal.AllDigits(s[6..8]) && Decimal.DigitsValue(s[6..8]) == r.seconds
  {
    CountdownFields(diff);
    var r := Countdown(diff);
    assert r.hours < 100 by {
      DivUnique(diff, MS_PER_HOUR, r.hours, diff % MS_PER_HOUR);
    }
    JoinedPads(r.hours, r.minutes, r.seconds);
  }

  /**
   * At the stroke of midnight the next midnight is a whole day away, so the
   * fields are 24, 0, 0 and the text reads 24:00:00.
   */
  lemma TimeLeftAtMidnight()
    ensures Countdown(MS_PER_DAY) == Hms(24, 0, 0)
    ensures TimeLeft(MS_PER_DAY) == "24:00:00"
  {
    PadOf(24, "24");
    PadOf(0, "00");
    FieldsText(MS_PER_DAY, 24, 0, 0, 0, "24", "00", "00");
  }

  /** One second after midnight the fields are 23, 59, 59 and the text reads 23:59:59. */
  lemma TimeLeftSecondAfterMidnight()
    ensures Countdown(MS_PER_DAY - MS_PER_SECOND) == Hms(23, 59, 59)
    ensures TimeLeft(MS_PER_DAY - MS_PER_SECOND) == "23:59:59"
  {
    PadOf(23, "23");
    PadOf(59, "59");
    FieldsText(MS_PER_DAY - MS_PER_SECOND, 23, 59, 59, 0, "23", "59", "59");
  }

  /** The text reads 00:00:00 only in the last second before midnight. */
  lemma TimeLeftLastSecond(diff: int)
    requires 0 <= diff < MS_PER_SECOND
    ensures Countdown(diff) == Hms(0, 0, 0)
    ensures TimeLeft(diff) == "00:00:00"
  {
    PadOf(0, "00");
    FieldsText(diff, 0, 0, 0, diff, "00", "00", "00");
  }

  /**
   * A difference made of `h` hours, `m` minutes, `sec` seconds and `ms`
   * milliseconds, each below its unit's range, has the fields `h`, `m` and
   * `sec`.
   */
  lemma FieldsOf(diff: int, h: int, m: int, sec: int, ms: int)
    requires h >= 0 && 0 <= m < 60 && 0 <= sec < 60 && 0 <= ms < MS_PER_SECOND
    requires diff == h * MS_PER_HOUR + m * MS_PER_MINUTE + sec * MS_PER_SECOND + ms
    ensures Countdown(diff) == Hms(h, m, sec)
  {
    var mins := h * 60 + m;
    var secs := mins * 60 + sec;
    assert diff == h * MS_PER_HOUR + (m * MS_PER_MINUTE + sec * MS_PER_SECOND + ms);
    assert diff == mins * MS_PER_MINUTE + (sec * MS_PER_SECOND + ms);
    assert diff == secs * MS_PER_SECOND + ms;
    DivUnique(diff, MS_PER_HOUR, h, m * MS_PER_MINUTE + sec * MS_PER_SECOND + ms);
    DivUnique(diff, MS_PER_MINUTE, mins, sec * MS_PER_SECOND + ms);
    DivUnique(diff, MS_PER_SECOND, secs, ms);
    DivUnique(mins, 60, h, m);
    DivUnique(secs, 60, mins, sec);
    CountdownFields(diff);
  }

  /** Such a difference shows the padded fields joined by colons. */
  lemma FieldsText(diff: int, h: int, m: int, sec: int, ms: int, ph: string, pm: string, ps: string)
    requires h >= 0 && 0 <= m < 60 && 0 <= sec < 60 && 0 <= ms < MS_PER_SECOND
    requires diff == h * MS_PER_HOUR + m * MS_PER_MINUTE + sec * MS_PER_SECOND + ms
    requires Pad(h) == ph && Pad(m) == pm && Pad(sec) == ps
    ensures Countdown(diff) == Hms(h, m, sec)
    ensures TimeLeft(diff) == ph + ":" + pm + ":" + ps
  {
    FieldsOf(diff, h, m, sec, ms);
  }

  /** A value in 0..99 pads to its two digits, tens first. */
  lemma PadOf(n: int, text: string)
    requires 0 <= n < 100
    requires text == [Decimal.DigitChar(n / 10), Decimal.DigitChar(n % 10)]
    ensures Pad(n) == text
  {
    var tens, units := n / 10, n % 10;
    assert n == 10 * tens + units && 0 <= units < 10;
    assert 0 <= tens < 10;
    if n < 10 {
      assert tens == 0;
      assert Decimal.IntToString(n) == [Decimal.DigitChar(units)];
      assert Pad(n) == ['0'] + [Decimal.DigitChar(units)];
    } else {
      assert Decimal.NatToString(tens) == [Decimal.DigitChar(tens)];
      assert Decimal.IntToString(n) == [Decimal.DigitChar(tens)] + [Decimal.DigitChar(units)];
    }
  }

  // ----- the widget, as the object the source updates -----

  /** The widget's state variables and the store it writes to, updated in place. */
  class StreakWidget {
    var streak: int
    var lastClick: string
    var disabled: bool
    var timeLeft: string
    var store: map<string, string>

    /** The part of the widget the streak logic reads and writes. */
    function State(): Counter
      reads this
    {
      Counter(streak, lastClick, disabled, store)
    }

    /** The first render: streak 0, no last click, enabled, empty countdown, over the browser's store. */
    constructor (storage: map<string, string>)
      ensures State() == Initial(storage) && timeLeft == ""
    {
      streak, lastClick, disabled, timeLeft, store := 0, "", false, "", storage;
    }

    /** The mount effect: reads the two keys back into the state. */
    method LoadStored()
      modifies this
      ensures State() == Load(old(State())) && timeLeft == old(timeLeft)
    {
      if STREAK_KEY in store && store[STREAK_KEY] != "" {
        var parsed := Decimal.ParseDecimal(store[STREAK_KEY]);
        if parsed.Some? {
          streak := parsed.value;
        }
      }
      if LAST_CLICK_KEY in store && store[LAST_CLICK_KEY] != "" {
        lastClick := store[LAST_CLICK_KEY];
      }
    }

    /** The effect that resets the streak or sets the button, at instant `now`. */
    method EvaluateAt(now: int)
      modifies this
      ensures State() == Evaluate(old(State()), now) && timeLeft == old(timeLeft)
    {
      if lastClick == "" {
        return;
      }
      var last := ReadStamp(lastClick);
      if last.None? {
        disabled := false;
        return;
      }
      var days := DayDiff(now, last.value);
      if days >= RESET_DAYS {
        streak := 0;
        lastClick := "";
        store := store[STREAK_KEY := "0"];
        store := store - {LAST_CLICK_KEY};
        disabled := false;
        return;
      }
      if days == 0 {
        disabled := true;
      } else {
        disabled := false;
      }
    }

    /** The click handler, at instant `now`. */
    method HandleClick(now: int)
      modifies this
      ensures State() == Click(old(State()), now) && timeLeft == old(timeLeft)
    {
      if disabled {
        return;
      }
      var stamp := Stamp(now);
      var next := streak + 1;
      streak := next;
      lastClick := stamp;
      store := store[STREAK_KEY := Decimal.IntToString(next)];
      store := store[LAST_CLICK_KEY := stamp];
      disabled := true;
    }

    /** One tick of the countdown, `untilMidnight` milliseconds before the next local midnight. */
    method UpdateCountdown(untilMidnight: int)
      modifies this
      ensures timeLeft == TimeLeft(untilMidnight) && State() == old(State())
    {
      timeLeft := TimeLeft(untilMidnight);
    }
  }
}
