/** The synthetic-calendar cursor `Date_Generator` of data_mockery.py.

    Dates are day ordinals (the numbering of Python's `date.toordinal`), so adding
    `timedelta(days=n)` to a date is adding `n` to its ordinal. Each call hands out the
    current date; once the current day's capacity (`records_per_increment`, a constant or a
    function of the date) has been handed out, the next call moves to the following day. */
module DateCursor {
  import opened Outcomes

  /** `records_per_increment`: a plain int, or a function from the current date to an int. */
  datatype Capacity = Const(n: int) | PerDate(f: int -> int)

  /** `increment_bar`: the capacity in force on date `d`, the plain int itself or the
      function applied to the date. */
  function Bar(cap: Capacity, d: int): (bar: int)
    ensures cap.Const? ==> bar == cap.n
    ensures cap.PerDate? ==> bar == cap.f(d)
  {
    match cap
    case Const(n) => n
    case PerDate(f) => f(d)
  }

  /** Every day has room for at least one record. */
  ghost predicate PositiveCapacity(cap: Capacity) {
    forall d :: Bar(cap, d) > 0
  }

  function Abs(x: int): nat {
    if x < 0 then -x else x
  }

  /** Python's `int(a / b)` for a non-negative `a`: true division, truncated toward zero.
      For a non-negative numerator that is exactly Dafny's Euclidean division. */
  function TruncDiv(a: nat, b: int): int
    requires b != 0
  {
    if b > 0 then a / b else -(a / -b)
  }

  /** The truncated quotient: its magnitude is the number of whole |b|s in `a`, and it has
      the sign of `b` unless it is 0. */
  lemma TruncDivSpec(a: nat, b: int)
    requires b != 0
    ensures var q := TruncDiv(a, b);
      && Abs(q) * Abs(b) <= a < (Abs(q) + 1) * Abs(b)
      && (q == 0 || (q > 0 <==> b > 0))
  {
    var m := Abs(b);
    var q := a / m;
    assert q * m <= a < (q + 1) * m;
  }

  /** The three fields `start_date`, `current_date` and `indx`. */
  datatype Cursor = Cursor(start: int, current: int, indx: nat)

  /** The fields as `__init__` leaves them. */
  function Fresh(start: int): Cursor {
    Cursor(start, start, 0)
  }

  /** The state every call keeps: the two dates agree, and the counter never passes the
      current day's capacity (in magnitude) while that capacity is usable. */
  ghost predicate Consistent(cap: Capacity, c: Cursor) {
    && c.start == c.current
    && (Bar(cap, c.current) != 0 ==> c.indx <= Abs(Bar(cap, c.current)))
  }

  /** What one successful call returns, and the fields it leaves behind. */
  datatype Emission = Emission(date: int, next: Cursor)

  /** One zero-argument call of `date_generator`. A zero capacity raises at the division,
      before any field is written. Otherwise the result is the new current date, and from a
      consistent state the date moves by at most one day, in the direction of the capacity's
      sign, with the counter restarting at 1 on a move and counting up by one otherwise. */
  function Advance(cap: Capacity, c: Cursor): (r: Result<Emission>)
    ensures r.Err? <==> Bar(cap, c.current) == 0
    ensures r.Err? ==> r.error == ZeroDivisionError
    ensures r.Ok? ==> r.value.date == r.value.next.current && r.value.next.indx >= 1
    ensures r.Ok? && Consistent(cap, c) ==>
      var n := r.value.next;
      && Consistent(cap, n)
      && (n.current == c.current ==> n.indx == c.indx + 1)
      && (n.current != c.current ==>
            n.indx == 1 && n.current == c.current + (if Bar(cap, c.current) > 0 then 1 else -1))
  {
    var bar := Bar(cap, c.current);
    if bar == 0 then
      Err(ZeroDivisionError)
    else
      var numDays := TruncDiv(c.indx, bar);
      TruncDivSpec(c.indx, bar);
      var currentDate := c.start + numDays;
      var moved := if currentDate != c.current then Cursor(currentDate, currentDate, 0) else c;
      Ok(Emission(moved.current, moved.(indx := moved.indx + 1)))
  }

  /** The dates handed out by a run of calls, and the fields after it. */
  datatype Trace = Trace(dates: seq<int>, final: Cursor)

  /** `k` successive calls from `c`; the first error ends the run, as the raise would. */
  function Calls(cap: Capacity, c: Cursor, k: nat): (r: Result<Trace>)
    ensures r.Ok? ==> |r.value.dates| == k
    decreases k
  {
    if k == 0 then
      Ok(Trace([], c))
    else
      match Advance(cap, c)
      case Err(e) => Err(e)
      case Ok(first) =>
        match Calls(cap, first.next, k - 1)
        case Err(e) => Err(e)
        case Ok(rest) => Ok(Trace([first.date] + rest.dates, rest.final))
  }

  /** One call that succeeds, then `k - 1` more that succeed. */
  lemma CallsCons(cap: Capacity, c: Cursor, k: nat, first: Emission, rest: Trace)
    requires k > 0 && Advance(cap, c) == Ok(first) && Calls(cap, first.next, k - 1) == Ok(rest)
    ensures Calls(cap, c, k) == Ok(Trace([first.date] + rest.dates, rest.final))
  {
  }

  /** A successful run of `k > 0` calls is one successful call and then `k - 1` more. */
  lemma CallsUncons(cap: Capacity, c: Cursor, k: nat, t: Trace)
    requires k > 0 && Calls(cap, c, k) == Ok(t)
    ensures Advance(cap, c).Ok?
    ensures var first := Advance(cap, c).value;
      && Calls(cap, first.next, k - 1).Ok?
      && t == Trace([first.date] + Calls(cap, first.next, k - 1).value.dates, Calls(cap, first.next, k - 1).value.final)
  {
  }

  lemma ConsAppend(x: int, xs: seq<int>, ys: seq<int>)
    ensures [x] + (xs + ys) == ([x] + xs) + ys
  {
  }

  /** A run of `a` calls followed by a run of `b` calls is a run of `a + b` calls. */
  lemma {:induction false} CallsSplit(cap: Capacity, c: Cursor, a: nat, b: nat, t1: Trace, t2: Trace)
    requires Calls(cap, c, a) == Ok(t1) && Calls(cap, t1.final, b) == Ok(t2)
    ensures Calls(cap, c, a + b) == Ok(Trace(t1.dates + t2.dates, t2.final))
    decreases a
  {
    if a == 0 {
      assert t1 == Trace([], c);
      assert [] + t2.dates == t2.dates;
    } else {
      CallsUncons(cap, c, a, t1);
      var first := Advance(cap, c).value;
      var t1' := Calls(cap, first.next, a - 1).value;
      CallsSplit(cap, first.next, a - 1, b, t1', t2);
      CallsCons(cap, c, a + b, first, Trace(t1'.dates + t2.dates, t2.final));
      ConsAppend(first.date, t1'.dates, t2.dates);
    }
  }

  /** CallsSplit with the combined count and trace named by the caller. */
  lemma CallsJoin(cap: Capacity, c: Cursor, a: nat, b: nat, t1: Trace, t2: Trace, n: nat, t: Trace)
    requires Calls(cap, c, a) == Ok(t1) && Calls(cap, t1.final, b) == Ok(t2)
    requires n == a + b && t == Trace(t1.dates + t2.dates, t2.final)
    ensures Calls(cap, c, n) == Ok(t)
  {
    CallsSplit(cap, c, a, b, t1, t2);
  }

  // ----- Constant capacity: the k-th call returns start + (k - 1) / n -----

  /** The fields after `m` calls from `Fresh(s)` with constant capacity `n`. */
  function AfterConst(s: int, n: nat, m: nat): (c: Cursor)
    requires n > 0
  {
    if m == 0 then Fresh(s)
    else
      var d := s + (m - 1) / n;
      Cursor(d, d, (m - 1) % n + 1)
  }

  lemma DivModUnique(m: int, n: int, q: int, r: int)
    requires n > 0 && 0 <= r < n && m == q * n + r
    ensures m / n == q && m % n == r
  {
    var q', r' := m / n, m % n;
    assert (q' - q) * n == r - r' by {
      assert q' * n + r' == q * n + r;
    }
    if q' > q {
      MulAtLeast(q' - q, n);
    } else if q' < q {
      MulAtLeast(q - q', n);
    }
  }

  lemma MulAtLeast(a: int, n: int)
    requires a >= 1 && n > 0
    ensures a * n >= n
  {
  }

  /** Call `m + 1` from a fresh cursor returns `s + m / n` and leaves the state for `m + 1`. */
  lemma StepConst(s: int, n: nat, m: nat)
    requires n > 0
    ensures Advance(Const(n), AfterConst(s, n, m)) == Ok(Emission(s + m / n, AfterConst(s, n, m + 1)))
  {
    if m == 0 {
      DivModUnique(0, n, 0, 0);
    } else {
      var q, r := (m - 1) / n, (m - 1) % n;
      assert m - 1 == q * n + r;
      if r + 1 < n {
        DivModUnique(m, n, q, r + 1);
        DivModUnique(r + 1, n, 0, r + 1);
      } else {
        DivModUnique(m, n, q + 1, 0);
        DivModUnique(r + 1, n, 1, 0);
      }
    }
  }

  lemma {:induction false} CallsConstFrom(s: int, n: nat, m: nat, k: nat)
    requires n > 0
    ensures var r := Calls(Const(n), AfterConst(s, n, m), k);
      && r.Ok?
      && r.value.final == AfterConst(s, n, m + k)
      && forall i :: 0 <= i < k ==> r.value.dates[i] == s + (m + i) / n
    decreases k
  {
    if k > 0 {
      StepConst(s, n, m);
      CallsConstFrom(s, n, m + 1, k - 1);
      var rest := Calls(Const(n), AfterConst(s, n, m + 1), k - 1).value;
      var dates := [s + m / n] + rest.dates;
      assert Calls(Const(n), AfterConst(s, n, m), k) == Ok(Trace(dates, rest.final));
      forall i | 0 <= i < k
        ensures dates[i] == s + (m + i) / n
      {
        if i > 0 {
          assert rest.dates[i - 1] == s + (m + 1 + (i - 1)) / n;
        }
      }
    }
  }

  /** With a constant capacity n > 0, from a fresh generator, call number i + 1 returns
      `start + i / n`: each date is handed out n times in a row, then the next day's. */
  lemma ConstCapacityDates(s: int, n: nat, k: nat)
    requires n > 0
    ensures var r := Calls(Const(n), Fresh(s), k);
      && r.Ok?
      && (forall i :: 0 <= i < k ==> r.value.dates[i] == s + i / n)
      && (k > 0 ==> r.value.final == Cursor(s + (k - 1) / n, s + (k - 1) / n, (k - 1) % n + 1))
  {
    CallsConstFrom(s, n, 0, k);
  }

  // ----- Date-dependent capacity: day d fills exactly Bar(cap, d) calls -----

  /** `count` copies of `d`. */
  function Repeat(d: int, count: nat): (r: seq<int>)
    ensures |r| == count && forall i :: 0 <= i < count ==> r[i] == d
  {
    if count == 0 then [] else [d] + Repeat(d, count - 1)
  }

  /** The total capacity of the `days` days from `d` on. */
  function Total(cap: Capacity, d: int, days: nat): nat
    requires PositiveCapacity(cap)
    decreases days
  {
    if days == 0 then 0 else Bar(cap, d) + Total(cap, d + 1, days - 1)
  }

  /** The reference schedule: day `d` repeated its capacity's number of times, then day
      `d + 1` likewise, for `days` days. */
  function Blocks(cap: Capacity, d: int, days: nat): seq<int>
    requires PositiveCapacity(cap)
    decreases days
  {
    if days == 0 then [] else Repeat(d, Bar(cap, d)) + Blocks(cap, d + 1, days - 1)
  }

  /** Having handed out day `d` j times, the next `Bar(cap, d) - j` calls return `d`. */
  lemma {:induction false} RestOfDay(cap: Capacity, d: int, j: nat)
    requires Bar(cap, d) > 0 && j <= Bar(cap, d)
    ensures Calls(cap, Cursor(d, d, j), Bar(cap, d) - j)
         == Ok(Trace(Repeat(d, Bar(cap, d) - j), Cursor(d, d, Bar(cap, d))))
    decreases Bar(cap, d) - j
  {
    var bar := Bar(cap, d);
    if j < bar {
      var left := bar - j;
      DivModUnique(j, bar, 0, j);
      var first := Emission(d, Cursor(d, d, j + 1));
      assert Advance(cap, Cursor(d, d, j)) == Ok(first);
      RestOfDay(cap, d, j + 1);
      assert bar - (j + 1) == left - 1;
      var rest := Trace(Repeat(d, left - 1), Cursor(d, d, bar));
      CallsCons(cap, Cursor(d, d, j), left, first, rest);
      assert [d] + Repeat(d, left - 1) == Repeat(d, left);
    } else {
      assert Repeat(d, 0) == [];
    }
  }

  /** Once day `d` is full, the next call moves to `d + 1` and counts it once. */
  lemma DayFull(cap: Capacity, d: int)
    requires Bar(cap, d) > 0
    ensures Advance(cap, Cursor(d, d, Bar(cap, d))) == Ok(Emission(d + 1, Cursor(d + 1, d + 1, 1)))
  {
    DivModUnique(Bar(cap, d), Bar(cap, d), 1, 0);
  }

  /** From a full day `d`, the next `Bar(cap, d + 1)` calls hand out `d + 1` each time. */
  lemma NextDayRun(cap: Capacity, d: int)
    requires Bar(cap, d) > 0 && Bar(cap, d + 1) > 0
    ensures Calls(cap, Cursor(d, d, Bar(cap, d)), Bar(cap, d + 1))
         == Ok(Trace(Repeat(d + 1, Bar(cap, d + 1)), Cursor(d + 1, d + 1, Bar(cap, d + 1))))
  {
    var full := Cursor(d, d, Bar(cap, d));
    DayFull(cap, d);
    RestOfDay(cap, d + 1, 1);
    assert Calls(cap, Cursor(d + 1, d + 1, 1), 0) == Ok(Trace([], Cursor(d + 1, d + 1, 1)));
    assert [d + 1] + [] == [d + 1];
    assert Calls(cap, full, 1) == Ok(Trace([d + 1], Cursor(d + 1, d + 1, 1)));
    CallsSplit(cap, full, 1, Bar(cap, d + 1) - 1, Trace([d + 1], Cursor(d + 1, d + 1, 1)),
      Trace(Repeat(d + 1, Bar(cap, d + 1) - 1), Cursor(d + 1, d + 1, Bar(cap, d + 1))));
    assert [d + 1] + Repeat(d + 1, Bar(cap, d + 1) - 1) == Repeat(d + 1, Bar(cap, d + 1));
  }

  /** The schedule after a full day `d`, for `days` days. */
  ghost predicate ScheduleAfter(cap: Capacity, d: int, days: nat)
    requires PositiveCapacity(cap)
  {
    Calls(cap, Cursor(d, d, Bar(cap, d)), Total(cap, d + 1, days))
      == Ok(Trace(Blocks(cap, d + 1, days), Cursor(d + days, d + days, Bar(cap, d + days))))
  }

  /** One more day in front of a schedule: day `d + 1` in full, then the rest. */
  lemma ScheduleAfterStep(cap: Capacity, d: int, days: nat)
    requires PositiveCapacity(cap) && days > 0 && ScheduleAfter(cap, d + 1, days - 1)
    ensures ScheduleAfter(cap, d, days)
  {
    var full := Cursor(d, d, Bar(cap, d));
    var day := Bar(cap, d + 1);
    var end := d + 1 + (days - 1);
    var first := Trace(Repeat(d + 1, day), Cursor(d + 1, d + 1, day));
    var rest := Trace(Blocks(cap, d + 2, days - 1), Cursor(end, end, Bar(cap, end)));
    assert Total(cap, d + 1, days) == day + Total(cap, d + 2, days - 1);
    assert Blocks(cap, d + 1, days) == first.dates + rest.dates;
    NextDayRun(cap, d);
    CallsJoin(cap, full, day, Total(cap, d + 2, days - 1), first, rest,
      Total(cap, d + 1, days), Trace(Blocks(cap, d + 1, days), rest.final));
  }

  /** From a full day `d`, the next `Total(cap, d + 1, days)` calls follow the schedule. */
  lemma {:induction false} AfterFullDay(cap: Capacity, d: int, days: nat)
    requires PositiveCapacity(cap)
    ensures Calls(cap, Cursor(d, d, Bar(cap, d)), Total(cap, d + 1, days))
         == Ok(Trace(Blocks(cap, d + 1, days), Cursor(d + days, d + days, Bar(cap, d + days))))
    decreases days
  {
    if days == 0 {
      assert Total(cap, d + 1, 0) == 0 && Blocks(cap, d + 1, 0) == [];
      assert Calls(cap, Cursor(d, d, Bar(cap, d)), 0) == Ok(Trace([], Cursor(d, d, Bar(cap, d))));
    } else {
      AfterFullDay(cap, d + 1, days - 1);
      assert ScheduleAfter(cap, d + 1, days - 1);
      ScheduleAfterStep(cap, d, days);
      assert ScheduleAfter(cap, d, days);
    }
  }

  /** With a positive capacity (constant or date-dependent), a fresh generator hands out its
      start date exactly `Bar(cap, start)` times, then each following day `d` exactly
      `Bar(cap, d)` times, one day after the other. */
  lemma PerDayCapacitySchedule(cap: Capacity, s: int, days: nat)
    requires PositiveCapacity(cap) && days > 0
    ensures Calls(cap, Fresh(s), Total(cap, s, days))
         == Ok(Trace(Blocks(cap, s, days), Cursor(s + (days - 1), s + (days - 1), Bar(cap, s + (days - 1)))))
  {
    var end := s + (days - 1);
    var first := Trace(Repeat(s, Bar(cap, s)), Cursor(s, s, Bar(cap, s)));
    var rest := Trace(Blocks(cap, s + 1, days - 1), Cursor(end, end, Bar(cap, end)));
    RestOfDay(cap, s, 0);
    assert Fresh(s) == Cursor(s, s, 0) && Bar(cap, s) - 0 == Bar(cap, s);
    AfterFullDay(cap, s, days - 1);
    assert Total(cap, s, days) == Bar(cap, s) + Total(cap, s + 1, days - 1);
    assert Blocks(cap, s, days) == first.dates + rest.dates;
    CallsJoin(cap, Fresh(s), Bar(cap, s), Total(cap, s + 1, days - 1), first, rest,
      Total(cap, s, days), Trace(Blocks(cap, s, days), rest.final));
  }

  /** A zero capacity on the current day makes every call raise, leaving the state as it was. */
  lemma ZeroCapacityRaises(cap: Capacity, c: Cursor, k: nat)
    requires Bar(cap, c.current) == 0 && k > 0
    ensures Calls(cap, c, k) == Err(ZeroDivisionError)
  {
  }

  /** The stateful generator. `records_per_increment` is never reassigned. */
  class DateGenerator {
    var startDate: int
    var currentDate: int
    var indx: nat
    const recordsPerIncrement: Capacity

    function State(): Cursor
      reads this
    {
      Cursor(startDate, currentDate, indx)
    }

    ghost predicate Valid()
      reads this
    {
      Consistent(recordsPerIncrement, State())
    }

    constructor (startDate: int, recordsPerIncrement: Capacity)
      ensures Valid()
      ensures State() == Fresh(startDate) && this.recordsPerIncrement == recordsPerIncrement
    {
      this.startDate := startDate;
      this.recordsPerIncrement := recordsPerIncrement;
      this.indx := 0;
      this.currentDate := startDate;
    }

    /** `date_generator`: hand out the current date, moving to the next day when the
        current one is full. A raised error leaves every field unchanged. */
    method Next() returns (r: Result<int>)
      requires Valid()
      modifies this
      ensures Valid()
      ensures match Advance(recordsPerIncrement, old(State()))
        case Ok(e) => r == Ok(e.date) && State() == e.next
        case Err(err) => r == Err(err) && State() == old(State())
    {
      var incrementBar := Bar(recordsPerIncrement, currentDate);
      if incrementBar == 0 {
        return Err(ZeroDivisionError);
      }
      var numDays := TruncDiv(indx, incrementBar);
      var current := startDate + numDays;
      if current != currentDate {
        startDate := current;
        currentDate := current;
        indx := 0;
      }
      indx := indx + 1;
      r := Ok(currentDate);
    }

    /** `get_date_generator`: the bound method `date_generator`, i.e. this very object, whose
        `Next` is what the returned callable runs; every holder shares the same fields. */
    method GetDateGenerator() returns (gen: DateGenerator)
      ensures gen == this
    {
      gen := this;
    }
  }
}
