/** The timer driver of hw2/module/new_timer_driver.c: its configuration word, its tick and finish handlers,
    and what a whole run of them shows. */
module Timer {
  import opened CText

  const NAME := "LJY"
  const LINE := 16

  // ---------------------------------------------------------------- configuration

  /** The word the application packs for IOCTL_SET_OPTION. */
  function Pack(init: bv32, count: bv32, interval: bv32): bv32 {
    (init & 0x3FFF) | ((count & 0x7F) << 14) | ((interval & 0x7F) << 21)
  }

  function InitField(arg: bv32): bv32 { arg & 0x3FFF }
  function CountField(arg: bv32): bv32 { (arg >> 14) & 0x7F }
  function IntervalField(arg: bv32): bv32 { (arg >> 21) & 0x7F }

  lemma FieldsApart(a: bv32, b: bv32, c: bv32)
    requires a < 0x4000 && b < 0x80 && c < 0x80
    ensures (a | (b << 14) | (c << 21)) & 0x3FFF == a
    ensures ((a | (b << 14) | (c << 21)) >> 14) & 0x7F == b
    ensures ((a | (b << 14) | (c << 21)) >> 21) & 0x7F == c
  {
  }

  lemma Masked(x: bv32)
    ensures x & 0x3FFF < 0x4000 && x & 0x7F < 0x80
    ensures x < 0x4000 ==> x & 0x3FFF == x
    ensures x < 0x80 ==> x & 0x7F == x
  {
  }

  /** The driver takes out what the application put in, of any value the low bits that fit its field. */
  lemma PackUnpack(init: bv32, count: bv32, interval: bv32)
    ensures InitField(Pack(init, count, interval)) == init & 0x3FFF
    ensures CountField(Pack(init, count, interval)) == count & 0x7F
    ensures IntervalField(Pack(init, count, interval)) == interval & 0x7F
    ensures init < 0x4000 ==> InitField(Pack(init, count, interval)) == init
    ensures count < 0x80 ==> CountField(Pack(init, count, interval)) == count
    ensures interval < 0x80 ==> IntervalField(Pack(init, count, interval)) == interval
  {
    Masked(init);
    Masked(count);
    Masked(interval);
    FieldsApart(init & 0x3FFF, count & 0x7F, interval & 0x7F);
  }

  predicate Digits(v: seq<int>) {
    |v| == 4 && forall i :: 0 <= i < 4 ==> 0 <= v[i] <= 9
  }

  /** The number four digits denote. */
  function Number(v: seq<int>): int
    requires |v| == 4
  {
    1000 * v[0] + 100 * v[1] + 10 * v[2] + v[3]
  }

  predicate Leftmost(v: seq<int>, i: int)
    requires |v| == 4
  {
    0 <= i < 4 && v[i] != 0 && forall j :: 0 <= j < i ==> v[j] == 0
  }

  /** What write_fnd puts out for four values, in 16 bits. */
  function FndWord(v: seq<int>): int
    requires |v| == 4
  {
    (4096 * v[0] + 256 * v[1] + 16 * v[2] + v[3]) % 0x10000
  }

  /** Four digits need no more than 16 bits, one nibble each. */
  lemma FndNibbles(v: seq<int>)
    requires Digits(v)
    ensures FndWord(v) == 16 * (16 * (16 * v[0] + v[1]) + v[2]) + v[3]
  {
    var (a, b, c, d) := (v[0], v[1], v[2], v[3]);
    assert 0 <= 4096 * a + 256 * b + 16 * c + d < 0x10000;
  }

  /** The display word tells the four digits apart. */
  lemma FndWordInjective(v: seq<int>, w: seq<int>)
    requires Digits(v) && Digits(w) && FndWord(v) == FndWord(w)
    ensures v == w
  {
    hide FndWord;
    FndNibbles(v);
    FndNibbles(w);
    SameNibble(16 * (16 * v[0] + v[1]) + v[2], v[3], 16 * (16 * w[0] + w[1]) + w[2], w[3]);
    SameNibble(16 * v[0] + v[1], v[2], 16 * w[0] + w[1], w[2]);
    SameNibble(v[0], v[1], w[0], w[1]);
  }

  lemma SameNibble(x: int, d: int, y: int, e: int)
    requires 0 <= d < 16 && 0 <= e < 16 && 16 * x + d == 16 * y + e
    ensures x == y && d == e
  {
  }

  /** Exactly one of the eight LEDs is lit. */
  predicate OneLed(word: int) {
    word in {1, 2, 4, 8, 16, 32, 64, 128}
  }

  /** 0x80 >> (number - 1): LED 1 is the highest bit, and each further number the next lower one. */
  function LedWord(number: int): (word: int)
    requires number >= 1
    ensures OneLed(word) <==> number <= 8
  {
    if number > 8 then 0
    else [128, 64, 32, 16, 8, 4, 2, 1][number - 1]
  }

  /** Number 1 lights the LED of the highest bit, each further number that of the next lower one, and a number
      beyond 8 none. */
  lemma LedOrder(number: int)
    ensures LedWord(1) == 0x80
    ensures 1 <= number < 8 ==> LedWord(number) == 2 * LedWord(number + 1)
    ensures number > 8 ==> LedWord(number) == 0
  {
    if 1 <= number < 8 {
      assert number in [1, 2, 3, 4, 5, 6, 7];
    }
  }

  // ---------------------------------------------------------------- one tick as a value

  /** The fields of struct timer_data that the handlers change. */
  datatype Td = Td(count: int, digits: seq<int>, active: int, current: int, rotation: int, finish: int, lcd: int)

  predicate ValidTd(t: Td) {
    Digits(t.digits) && 0 <= t.active < 4 && 0 <= t.lcd < LINE && 0 <= t.current <= 9 && 1 <= t.rotation <= 8
  }

  /** Which handler the pending timer calls. */
  datatype Pending = Idle | Tick | Finish

  /** The driver with its devices: the four-digit display, the LEDs, the digit on the dot matrix, the LCD. */
  datatype Driver = Driver(td: Td, pending: Pending, fnd: int, led: int, dot: Option<int>, lcd: string)

  const BLANK: string := "                                "

  predicate Cleared(d: Driver) {
    d.fnd == 0 && d.led == 0 && d.dot == None && d.lcd == BLANK
  }

  /** printf("%8d") */
  function Pad8(n: int): string {
    Spaces(8 - |PrintInt(n)|) + PrintInt(n)
  }

  function Spaces(n: int): string {
    if n <= 0 then "" else " " + Spaces(n - 1)
  }

  /** How far position p lies behind an offset, going round the line. */
  function Behind(p: int, offset: int): (k: int)
    ensures 0 <= k < LINE
  {
    (p - offset) % LINE
  }

  /** The second line of the LCD: the name from an offset on, going round the end. */
  function NameLine(offset: int): (s: string)
    requires 0 <= offset < LINE
    ensures |s| == LINE
    ensures forall p :: 0 <= p < LINE ==>
              s[p] == if Behind(p, offset) < |NAME| then NAME[Behind(p, offset)] else ' '
  {
    seq(LINE, p requires 0 <= p < LINE => if Behind(p, offset) < |NAME| then NAME[Behind(p, offset)] else ' ')
  }

  function TickScreen(count: int, offset: int): string
    requires 0 <= offset < LINE
  {
    "20191630" + Pad8(count) + NameLine(offset)
  }

  function FinishScreen(n: int): string {
    "Time's up!     0Shutdown in " + PrintInt(n) + "..."
  }

  /** update_digit_and_rotation, on the fields left by the tick. */
  function Rotated(t: Td): Td
    requires ValidTd(t)
  {
    var cleared := if t.rotation == 1 then t.(digits := t.digits[t.active := 0], active := (t.active + 1) % 4) else t;
    cleared.(digits := cleared.digits[cleared.active := t.current])
  }

  function TickedTd(t: Td): (r: Td)
    requires ValidTd(t)
    ensures ValidTd(r)
  {
    Rotated(t.(count := t.count - 1, current := t.current % 8 + 1, rotation := t.rotation % 8 + 1,
               lcd := (t.lcd + 1) % LINE))
  }

  /** The pending handler runs. A tick with number 0 would shift by -1. */
  predicate CanFire(d: Driver) {
    d.pending != Idle && ValidTd(d.td) && (d.pending == Tick && d.td.count > 0 ==> d.td.current >= 1)
  }

  function Fired(d: Driver): Driver
    requires CanFire(d)
  {
    var t := d.td;
    match d.pending
    case Tick =>
      if t.count <= 0 then d.(fnd := 0, led := 0, dot := None, pending := Finish)
      else Driver(TickedTd(t), Tick, FndWord(t.digits), LedWord(t.current), Some(t.current), TickScreen(t.count, t.lcd))
    case _ =>
      if t.finish <= 0 then d.(fnd := 0, led := 0, dot := None, lcd := BLANK, pending := Idle)
      else d.(lcd := FinishScreen(t.finish), td := t.(finish := t.finish - 1), pending := Finish)
  }

  // ---------------------------------------------------------------- closed form

  predicate CanFireTimes(d: Driver, n: nat)
    decreases n, 0
  {
    n == 0 || (CanFireTimes(d, n - 1) && CanFire(FiredTimes(d, n - 1)))
  }

  function FiredTimes(d: Driver, n: nat): Driver
    requires CanFireTimes(d, n)
    decreases n, 1
  {
    if n == 0 then d else Fired(FiredTimes(d, n - 1))
  }

  /** The number after n ticks: it counts round 1..8 whatever it starts from. */
  function NumberAt(start: int, n: nat): int {
    if n == 0 then start else (start + n - 1) % 8 + 1
  }

  function ActiveAt(active: int, n: nat): int {
    (active + n / 8) % 4
  }

  /** Digit p after n ticks: the number where the display is active, 0 where it has been, and the configured
      digit where it has not come yet. */
  function DigitAt(t: Td, p: int, n: nat): int
    requires |t.digits| == 4 && 0 <= p < 4
  {
    if p == ActiveAt(t.active, n) then NumberAt(t.current, n)
    else if (p - t.active) % 4 < n / 8 then 0
    else t.digits[p]
  }

  function TdAt(t: Td, n: nat): Td
    requires |t.digits| == 4
  {
    Td(t.count - n, seq(4, p requires 0 <= p < 4 => DigitAt(t, p, n)), ActiveAt(t.active, n),
       NumberAt(t.current, n), n % 8 + 1, t.finish, (t.lcd + n) % LINE)
  }

  /** A configuration as SET_OPTION leaves it. */
  predicate Configured(t: Td) {
    ValidTd(t) && t.rotation == 1 && t.current == t.digits[t.active]
  }

  lemma Ranges(t: Td, n: nat)
    requires Configured(t)
    ensures |t.digits| == 4 && 0 <= ActiveAt(t.active, n) < 4 && 0 <= NumberAt(t.current, n) <= 9
    ensures forall p :: 0 <= p < 4 ==> 0 <= DigitAt(t, p, n) <= 9
  {
  }

  lemma TdAtValid(t: Td, n: nat)
    requires Configured(t)
    ensures ValidTd(TdAt(t, n))
    ensures TdAt(t, 0) == t
  {
    Ranges(t, n);
    StartDigits(t);
    hide NumberAt, ActiveAt, DigitAt;
  }

  lemma StartDigits(t: Td)
    requires Configured(t)
    ensures TdAt(t, 0) == t
  {
    assert TdAt(t, 0).digits == t.digits;
  }

  lemma ValidFields(t: Td)
    requires ValidTd(t)
    ensures |t.digits| == 4 && 0 <= t.lcd < LINE && 0 <= t.active < 4
  {
  }

  /** The counters move on within their ranges. */
  lemma TickedValid(t: Td)
    requires ValidTd(t)
    ensures ValidTd(t.(count := t.count - 1, current := t.current % 8 + 1, rotation := t.rotation % 8 + 1,
                       lcd := (t.lcd + 1) % LINE))
  {
  }

  /** What a tick does to the fields. */
  lemma TickedFields(t: Td)
    requires ValidTd(t)
    ensures var r := TickedTd(t);
            && |r.digits| == 4 && r.count == t.count - 1 && r.current == t.current % 8 + 1 && r.finish == t.finish
            && r.rotation == t.rotation % 8 + 1 && r.lcd == (t.lcd + 1) % LINE
            && r.active == (if t.rotation == 8 then (t.active + 1) % 4 else t.active)
            && forall p :: 0 <= p < 4 ==>
                 r.digits[p] == if p == r.active then r.current
                                else if t.rotation == 8 && p == t.active then 0 else t.digits[p]
  {
  }

  /** One tick takes the closed form to the next. */
  lemma TickedCloses(t: Td, n: nat)
    requires Configured(t)
    ensures ValidTd(TdAt(t, n)) && TickedTd(TdAt(t, n)) == TdAt(t, n + 1)
  {
    hide NumberAt, ActiveAt, DigitAt, TickedTd, ValidTd, TdAt, Configured;
    TdAtValid(t, n);
    ConfiguredIs(t);
    TickedFields(TdAt(t, n));
    TdAtFields(t, n);
    TdAtFields(t, n + 1);
    NextNumber(t.current, n);
    NextActive(t.active, n);
    NextCounters(t.lcd, n);
    var s, r := TickedTd(TdAt(t, n)), TdAt(t, n + 1);
    NumberWhereActive(t, n);
    forall p | 0 <= p < 4 ensures s.digits[p] == r.digits[p] {
      NextDigit(t, p, n);
    }
    assert s.digits == r.digits;
  }

  lemma TdAtFields(t: Td, n: nat)
    requires |t.digits| == 4
    ensures var r := TdAt(t, n);
            && |r.digits| == 4 && r.count == t.count - n && r.active == ActiveAt(t.active, n)
            && r.current == NumberAt(t.current, n) && r.rotation == n % 8 + 1 && r.finish == t.finish
            && r.lcd == (t.lcd + n) % LINE
            && forall p :: 0 <= p < 4 ==> r.digits[p] == DigitAt(t, p, n)
  {
  }

  lemma NextCounters(lcd: int, n: nat)
    ensures (n % 8 + 1 == 8) <==> (n + 1) % 8 == 0
    ensures (n % 8 + 1) % 8 + 1 == (n + 1) % 8 + 1
    ensures ((lcd + n) % LINE + 1) % LINE == (lcd + n + 1) % LINE
  {
  }

  lemma ConfiguredIs(t: Td)
    requires Configured(t)
    ensures |t.digits| == 4 && 0 <= t.active < 4 && 0 <= t.current <= 9
  {
  }

  lemma NumberWhereActive(t: Td, n: nat)
    requires Configured(t)
    ensures DigitAt(t, ActiveAt(t.active, n), n) == NumberAt(t.current, n)
  {
  }

  lemma NextNumber(start: int, n: nat)
    requires 0 <= start <= 9
    ensures NumberAt(start, n + 1) == NumberAt(start, n) % 8 + 1
  {
  }

  lemma NextActive(active: int, n: nat)
    requires 0 <= active < 4
    ensures ActiveAt(active, n + 1) == if (n + 1) % 8 == 0 then (ActiveAt(active, n) + 1) % 4 else ActiveAt(active, n)
    ensures (n + 1) / 8 == if (n + 1) % 8 == 0 then n / 8 + 1 else n / 8
  {
  }

  lemma NextDigit(t: Td, p: int, n: nat)
    requires Configured(t) && 0 <= p < 4
    ensures DigitAt(t, p, n + 1) ==
              if p == ActiveAt(t.active, n + 1) then NumberAt(t.current, n + 1)
              else if (n + 1) % 8 == 0 && p == ActiveAt(t.active, n) then 0
              else DigitAt(t, p, n)
  {
    NextActive(t.active, n);
  }

  /** A driver configured by SET_OPTION and started by COMMAND. */
  predicate Started(d: Driver) {
    Configured(d.td) && d.pending == Tick && d.td.count >= 0 && d.td.finish == 3
  }

  /** After n ticks of the run: the fields are those of the closed form, and the devices show the fields as
      they were before the last tick. */
  predicate TickState(d: Driver, t: Td, n: nat) {
    && |t.digits| == 4 && d.td == TdAt(t, n) && d.pending == Tick
    && (n > 0 ==>
          && d.fnd == FndWord(TdAt(t, n - 1).digits)
          && NumberAt(t.current, n - 1) >= 1 && d.led == LedWord(NumberAt(t.current, n - 1))
          && d.dot == Some(NumberAt(t.current, n - 1))
          && d.lcd == TickScreen(t.count - (n - 1), (t.lcd + (n - 1)) % LINE))
  }

  /** Ticks: for every n up to the count the n-th display is the closed form's. */
  lemma {:induction false} TicksAreClosedForm(d: Driver, n: nat)
    requires Started(d) && n <= d.td.count && d.td.current >= 1
    ensures CanFireTimes(d, n) && TickState(FiredTimes(d, n), d.td, n)
  {
    hide TickState, TdAt, Fired, CanFire;
    if n == 0 {
      NoTickYet(d);
    } else {
      TicksAreClosedForm(d, n - 1);
      NextTick(FiredTimes(d, n - 1), d.td, n - 1);
    }
  }

  lemma NoTickYet(d: Driver)
    requires Started(d)
    ensures TickState(d, d.td, 0)
  {
    TdAtValid(d.td, 0);
  }

  lemma NextTick(d: Driver, t: Td, n: nat)
    requires Configured(t) && t.current >= 1 && n < t.count && TickState(d, t, n)
    ensures CanFire(d) && TickState(Fired(d), t, n + 1)
  {
    hide FndWord, LedWord, TickScreen, TickedTd, DigitAt, ActiveAt;
    TickedCloses(t, n);
  }

  /** When only one digit is configured, the display is zero but for the number at the active digit. */
  lemma OneDigitShows(t: Td, n: nat, p: int)
    requires Configured(t) && 0 <= p < 4
    requires forall j :: 0 <= j < 4 && j != t.active ==> t.digits[j] == 0
    ensures TdAt(t, n).digits[p] == if p == ActiveAt(t.active, n) then NumberAt(t.current, n) else 0
  {
  }

  /** For a start in 1..8 the number after n ticks is the start n further round. */
  lemma NumberGoesRound(start: int, n: nat)
    requires 1 <= start <= 8
    ensures NumberAt(start, n) == (start - 1 + n) % 8 + 1
  {
  }

  /** A tick lights exactly one LED, except a first tick whose digit is 9. */
  lemma OneLedPerTick(start: int, n: nat)
    requires 1 <= start <= 9
    ensures NumberAt(start, n) >= 1
    ensures OneLed(LedWord(NumberAt(start, n))) <==> !(n == 0 && start == 9)
  {
  }

  /** After the tick that finds nothing to count and k - 1 finish handlers: the displays are off, the screen stays as
      it was and then counts down from 3, and the fifth handler clears it and adds no timer. */
  predicate FinishState(d: Driver, t: Td, k: nat, shown: string)
    requires |t.digits| == 4 && t.count >= 0
  {
    && d.fnd == 0 && d.led == 0 && d.dot == None
    && d.pending == (if k < 5 then Finish else Idle)
    && d.td == TdAt(t, t.count).(finish := if k < 5 then 4 - k else 0)
    && (k == 1 ==> d.lcd == shown)
    && (1 < k < 5 ==> d.lcd == FinishScreen(5 - k))
    && (k == 5 ==> Cleared(d))
  }

  /** A run from a configuration is over: no timer is pending, every device is cleared, and the fields are those
      after the last tick. */
  predicate RunDone(d: Driver, t: Td) {
    && d.pending == Idle && Cleared(d)
    && |t.digits| == 4 && t.count >= 0 && d.td == TdAt(t, t.count).(finish := 0)
  }

  lemma OutOfTicks(d: Driver, t: Td)
    requires Configured(t) && t.count >= 0 && t.finish == 3 && TickState(d, t, t.count)
    ensures CanFire(d) && FinishState(Fired(d), t, 1, d.lcd)
  {
    hide FndWord, LedWord, TickScreen, FinishScreen, TickedTd, NumberAt, ActiveAt, DigitAt;
    TdAtValid(t, t.count);
  }

  lemma NextFinish(d: Driver, t: Td, k: nat, shown: string)
    requires Configured(t) && t.count >= 0 && 1 <= k < 5 && FinishState(d, t, k, shown)
    ensures CanFire(d) && FinishState(Fired(d), t, k + 1, shown)
  {
    hide FndWord, LedWord, TickScreen, FinishScreen, TickedTd, NumberAt, ActiveAt, DigitAt;
    TdAtValid(t, t.count);
  }

  lemma {:induction false} RunStates(d: Driver, n: nat)
    requires Started(d) && (d.td.count > 0 ==> d.td.current >= 1)
    requires n <= d.td.count + 5
    ensures CanFireTimes(d, n) && |d.td.digits| == 4
    ensures n <= d.td.count ==> TickState(FiredTimes(d, n), d.td, n)
    ensures d.td.count < n ==>
              && CanFireTimes(d, d.td.count)
              && FinishState(FiredTimes(d, n), d.td, n - d.td.count, FiredTimes(d, d.td.count).lcd)
  {
    hide TickState, FinishState, TdAt, Fired, CanFire;
    if n == 0 {
      NoTickYet(d);
    } else if n <= d.td.count {
      TicksAreClosedForm(d, n);
    } else {
      RunStates(d, n - 1);
      if n == d.td.count + 1 {
        OutOfTicks(FiredTimes(d, n - 1), d.td);
      } else {
        NextFinish(FiredTimes(d, n - 1), d.td, n - 1 - d.td.count, FiredTimes(d, d.td.count).lcd);
      }
    }
  }

  /** The whole run: exactly count + 1 tick handlers, then four finish handlers; one timer is pending until the
      last, and then none, with every device cleared. */
  lemma RunLength(d: Driver, n: nat)
    requires Started(d) && (d.td.count > 0 ==> d.td.current >= 1)
    requires n <= d.td.count + 5
    ensures CanFireTimes(d, n)
    ensures FiredTimes(d, n).pending ==
              if n <= d.td.count then Tick else if n < d.td.count + 5 then Finish else Idle
    ensures n == d.td.count + 5 ==>
              Cleared(FiredTimes(d, n)) && FiredTimes(d, n).td == TdAt(d.td, d.td.count).(finish := 0)
    ensures d.td.count < n < d.td.count + 5 ==>
              FiredTimes(d, n).td == TdAt(d.td, d.td.count).(finish := 4 - (n - d.td.count))
    ensures d.td.count + 1 < n < d.td.count + 5 ==>
              FiredTimes(d, n).lcd == FinishScreen(5 - (n - d.td.count))
    ensures n == d.td.count + 1 ==>
              CanFireTimes(d, d.td.count) && FiredTimes(d, n).lcd == FiredTimes(d, d.td.count).lcd
    ensures d.td.count < n ==>
              FiredTimes(d, n).fnd == 0 && FiredTimes(d, n).led == 0 && FiredTimes(d, n).dot == None
  {
    hide FndWord, LedWord, TickScreen, FinishScreen, TdAt, Fired, CanFire, CanFireTimes, FiredTimes, NumberAt;
    RunStates(d, n);
  }

  lemma {:induction false} CanFireFewer(d: Driver, n: nat, m: nat)
    requires CanFireTimes(d, n) && m <= n
    ensures CanFireTimes(d, m)
  {
    if m < n {
      CanFireFewer(d, n - 1, m);
    }
  }

  /** A started run goes through to its end if and only if nothing is to be counted or the digit it starts from
      is not 0; otherwise the first tick shifts by -1. */
  lemma RunsThroughIff(d: Driver)
    requires Started(d)
    ensures CanFireTimes(d, d.td.count + 5) <==> (d.td.count == 0 || d.td.current != 0)
  {
    if d.td.count == 0 || d.td.current != 0 {
      RunLength(d, d.td.count + 5);
    } else if CanFireTimes(d, d.td.count + 5) {
      CanFireFewer(d, d.td.count + 5, 1);
      FirstFire(d);
    }
  }

  lemma FirstFire(d: Driver)
    requires CanFireTimes(d, 1)
    ensures CanFire(d)
  {
    assert CanFireTimes(d, 0) && FiredTimes(d, 0) == d;
  }

  /** What SET_OPTION leaves of a packed word and of the active digit before. */
  predicate SetUp(t: Td, arg: bv32, active: int) {
    && Configured(t)
    && t.count == CountField(arg) as int && t.finish == 3
    && Number(t.digits) == (InitField(arg) as int) % 10000
    && if (InitField(arg) as int) % 10000 == 0 then t.active == active else Leftmost(t.digits, t.active)
  }

  lemma StartDigitIff(t: Td, arg: bv32, active: int)
    requires SetUp(t, arg, active)
    ensures t.current != 0 <==> (InitField(arg) as int) % 10000 != 0
  {
    hide InitField, CountField;
    NoDigits(t.digits);
  }

  lemma NoDigits(v: seq<int>)
    requires Digits(v)
    ensures Number(v) == 0 <==> forall j :: 0 <= j < 4 ==> v[j] == 0
  {
  }

  /** In terms of the packed word: a run goes through if and only if the count is 0 or the start value is not a
      multiple of 10000. */
  lemma StartValueIff(d: Driver, arg: bv32, active: int)
    requires d.pending == Tick && SetUp(d.td, arg, active)
    ensures CanFireTimes(d, d.td.count + 5) <==>
              CountField(arg) as int == 0 || (InitField(arg) as int) % 10000 != 0
  {
    hide CanFireTimes, InitField, CountField, ValidTd, Number;
    StartDigitIff(d.td, arg, active);
    RunsThroughIff(d);
  }

  /** The first digit of a start value is 9. */
  predicate LeadingNine(value: int) {
    value == 9 || value / 10 == 9 || value / 100 == 9 || value / 1000 == 9
  }

  lemma StartsWithNine(v: seq<int>, i: int)
    requires Digits(v) && Leftmost(v, i)
    ensures v[i] == 9 <==> LeadingNine(Number(v))
  {
    assert i == 0 || i == 1 || i == 2 || i == 3;
  }

  /** In terms of the packed word: each tick of a run lights one LED, except the first one after a start value that
      begins with 9. */
  lemma LedsOfRun(d: Driver, arg: bv32, active: int, n: nat)
    requires d.pending == Tick && SetUp(d.td, arg, active) && n < d.td.count
    requires (InitField(arg) as int) % 10000 != 0
    ensures CanFireTimes(d, n + 1)
    ensures OneLed(FiredTimes(d, n + 1).led) <==> !(n == 0 && LeadingNine((InitField(arg) as int) % 10000))
  {
    hide InitField, CountField, CanFireTimes, FiredTimes, Number, LedWord, TickScreen, TdAt, FndWord, LeadingNine,
         OneLed;
    StartDigitIff(d.td, arg, active);
    TicksAreClosedForm(d, n + 1);
    OneLedPerTick(d.td.current, n);
    StartsWithNine(d.td.digits, d.td.active);
  }

  /** The light runs from the highest bit to the lowest, one place for each tick, and starts again after eight. */
  lemma LedRuns(d: Driver, n: nat)
    requires Started(d) && n + 1 < d.td.count && d.td.current >= 1 && (n > 0 || d.td.current <= 8)
    ensures CanFireTimes(d, n + 1) && CanFireTimes(d, n + 2)
    ensures var now, next := FiredTimes(d, n + 1).led, FiredTimes(d, n + 2).led;
            if NumberAt(d.td.current, n) == 8 then now == 1 && next == 0x80 else now == 2 * next
    ensures n + 8 < d.td.count ==> CanFireTimes(d, n + 9) && FiredTimes(d, n + 9).led == FiredTimes(d, n + 1).led
  {
    hide CanFireTimes, FiredTimes, LedWord, TickScreen, TdAt, FndWord, NumberAt, OneLed;
    var t := d.td;
    TicksAreClosedForm(d, n + 1);
    TicksAreClosedForm(d, n + 2);
    NumberRange(t.current, n);
    NextNumber(t.current, n);
    LedStep(NumberAt(t.current, n));
    if n + 8 < t.count {
      TicksAreClosedForm(d, n + 9);
      NumberComesBack(t.current, n);
    }
  }

  lemma NumberRange(start: int, n: nat)
    requires 1 <= start <= 9 && (n > 0 || start <= 8)
    ensures 1 <= NumberAt(start, n) <= 8
  {
  }

  lemma NumberComesBack(start: int, n: nat)
    requires 1 <= start <= 9 && (n > 0 || start <= 8)
    ensures NumberAt(start, n + 8) == NumberAt(start, n)
  {
  }

  lemma LedStep(number: int)
    requires 1 <= number <= 8
    ensures if number == 8 then LedWord(8) == 1 && LedWord(number % 8 + 1) == 0x80
            else LedWord(number) == 2 * LedWord(number % 8 + 1)
  {
    LedOrder(number);
  }

  // ---------------------------------------------------------------- what stands on the screen

  lemma {:induction false} SpacesBlank(n: int)
    ensures |Spaces(n)| == (if n <= 0 then 0 else n) && forall i :: 0 <= i < |Spaces(n)| ==> Spaces(n)[i] == ' '
  {
    if n > 0 {
      SpacesBlank(n - 1);
    }
  }

  lemma ShortNumber(n: nat)
    requires n < 1000
    ensures 1 <= |PrintInt(n)| <= 3
  {
    assert Pow10(3) == 10 * 10 * Pow10(1);
    PrintNatLength(n, 3);
  }

  lemma Pad8Shape(n: nat)
    requires n < 1000
    ensures |Pad8(n)| == 8 && Pad8(n)[8 - |PrintInt(n)|..] == PrintInt(n) && |PrintInt(n)| <= 8
    ensures forall i :: 0 <= i < 8 - |PrintInt(n)| ==> Pad8(n)[i] == ' '
  {
    hide PrintInt;
    ShortNumber(n);
    SpacesBlank(8 - |PrintInt(n)|);
  }

  /** The screen of a tick: two lines of sixteen, the student number and the count, right-aligned, on the first, and
      the name on the second. */
  lemma TickScreenShows(count: nat, offset: int)
    requires count < 1000 && 0 <= offset < LINE
    ensures var s := TickScreen(count, offset);
            && |s| == 2 * LINE && s[..8] == "20191630" && s[LINE..] == NameLine(offset)
            && ScanInt(s, 8) == AnInt(count, LINE)
            && forall i :: 0 <= i < |NAME| ==> s[LINE + (offset + i) % LINE] == NAME[i]
  {
    hide PrintInt, NameLine, Pad8;
    var s, at := TickScreen(count, offset), LINE - |PrintInt(count)|;
    Pad8Shape(count);
    assert s[8..16] == Pad8(count);
    assert s[at..LINE] == Pad8(count)[8 - |PrintInt(count)|..];
    forall i | 8 <= i < at ensures IsSpace(s[i]) {
      assert s[i] == Pad8(count)[i - 8];
    }
    NameStart(offset);
    assert s[LINE] == NameLine(offset)[0];
    forall i | 0 <= i < |NAME| ensures s[LINE + (offset + i) % LINE] == NAME[i] {
      NameStands(offset, i);
      assert s[LINE + (offset + i) % LINE] == NameLine(offset)[(offset + i) % LINE];
    }
    ScanIntPrinted(s, 8, at, count);
  }

  lemma NameStands(offset: int, i: nat)
    requires 0 <= offset < LINE && i < |NAME|
    ensures NameLine(offset)[(offset + i) % LINE] == NAME[i]
  {
    SamePlace(offset, i);
  }

  lemma NameStart(offset: int)
    requires 0 <= offset < LINE
    ensures NameLine(offset)[0] in {' ', 'L', 'J', 'Y'}
  {
  }

  /** The screens of the finish handlers: the number of seconds left stands before the dots. */
  lemma FinishScreenShows(n: int)
    requires 1 <= n <= 9
    ensures var s := FinishScreen(n);
            && |s| == 2 * LINE && s[..LINE] == "Time's up!     0" && s[LINE..LINE + 12] == "Shutdown in "
            && s[LINE + 12] == '0' + n as char && s[LINE + 13..] == "..."
  {
    assert PrintInt(n) == ['0' + n as char];
  }

  lemma BlankScreen()
    ensures |BLANK| == 2 * LINE && forall i :: 0 <= i < |BLANK| ==> BLANK[i] == ' '
  {
  }

  // ---------------------------------------------------------------- the driver, in place

  /** What is left of the value when the digits behind a place are taken off, 0 being the thousands. */
  function Shifted(value: int, place: int): int {
    match place
    case 3 => value
    case 2 => value / 10
    case 1 => value / 10 / 10
    case 0 => value / 10 / 10 / 10
    case _ => value / 10 / 10 / 10 / 10
  }

  function DigitOf(value: int, place: int): (d: int)
    ensures 0 <= d <= 9
  {
    Shifted(value, place) % 10
  }

  lemma ShiftedStep(value: int, place: int)
    requires 0 <= place < 4
    ensures Shifted(value, place) % 10 == DigitOf(value, place)
    ensures Shifted(value, place) / 10 == Shifted(value, place - 1)
  {
  }

  /** Four digits recombine to the value, without what lies beyond the thousands. */
  lemma DigitsRecombine(value: int, v: seq<int>)
    requires |v| == 4 && forall j :: 0 <= j < 4 ==> v[j] == DigitOf(value, j)
    ensures Number(v) == value % 10000
  {
    var q1 := value / 10;
    var q2 := q1 / 10;
    var q3 := q2 / 10;
    Recombine(value, q1, q2, q3, q3 / 10, v[3], v[2], v[1], v[0]);
  }

  lemma Recombine(value: int, q1: int, q2: int, q3: int, q4: int, d3: int, d2: int, d1: int, d0: int)
    requires value == 10 * q1 + d3 && q1 == 10 * q2 + d2 && q2 == 10 * q3 + d1 && q3 == 10 * q4 + d0
    requires 0 <= d3 <= 9 && 0 <= d2 <= 9 && 0 <= d1 <= 9 && 0 <= d0 <= 9
    ensures 1000 * d0 + 100 * d1 + 10 * d2 + d3 == value % 10000
  {
    var s := 1000 * d0 + 100 * d1 + 10 * d2 + d3;
    assert value == 10000 * q4 + s && 0 <= s < 10000;
  }

  lemma ShiftedStart(value: int)
    ensures Shifted(value, 3) == value
  {
  }

  lemma SamePlace(offset: int, i: int)
    requires 0 <= offset < LINE && 0 <= i < LINE
    ensures forall p :: 0 <= p < LINE ==> (p == (offset + i) % LINE <==> Behind(p, offset) == i)
  {
  }

  class TimerDriver {
    const initValues: array<int>
    var count: int
    var interval: int
    var activeDigit: int
    var currentNumber: int
    var rotationCount: int
    var finishCount: int
    var lcdIndex: int
    var pending: Pending
    var fnd: int
    var led: int
    var dot: Option<int>
    var lcd: string

    ghost function State(): Driver
      reads this, initValues
    {
      Driver(Td(count, initValues[..], activeDigit, currentNumber, rotationCount, finishCount, lcdIndex),
             pending, fnd, led, dot, lcd)
    }

    /** A freshly loaded module: static fields are zero. */
    constructor ()
      ensures fresh(initValues) && initValues.Length == 4
      ensures pending == Idle && activeDigit == 0 && lcdIndex == 0
    {
      initValues := new int[4](_ => 0);
      count, interval, activeDigit, currentNumber, rotationCount, finishCount, lcdIndex := 0, 0, 0, 0, 0, 0, 0;
      pending, fnd, led, dot, lcd := Idle, 0, 0, None, "";
    }

    /** IOCTL_SET_OPTION */
    method SetOption(arg: bv32)
      requires initValues.Length == 4 && 0 <= activeDigit < 4 && 0 <= lcdIndex < LINE
      modifies this`count, this`interval, this`activeDigit, this`currentNumber, this`rotationCount, this`finishCount,
               initValues
      ensures count == CountField(arg) as int && interval == IntervalField(arg) as int && finishCount == 3
      ensures Digits(initValues[..]) && Number(initValues[..]) == (InitField(arg) as int) % 10000
      ensures if (InitField(arg) as int) % 10000 == 0 then activeDigit == old(activeDigit)
              else Leftmost(initValues[..], activeDigit)
      ensures SetUp(State().td, arg, old(activeDigit))
      ensures pending == old(pending) && lcdIndex == old(lcdIndex)
    {
      var initialValue := InitField(arg) as int;
      SplitDigits(initialValue);
      count := CountField(arg) as int;
      interval := IntervalField(arg) as int;
      currentNumber := initValues[activeDigit];
      rotationCount := 1;
      finishCount := 3;
    }

    /** The digit loop of IOCTL_SET_OPTION, from the last digit to the first. */
    method SplitDigits(value: int)
      requires initValues.Length == 4 && 0 <= activeDigit < 4
      modifies this`activeDigit, initValues
      ensures Digits(initValues[..]) && Number(initValues[..]) == value % 10000
      ensures if value % 10000 == 0 then activeDigit == old(activeDigit) else Leftmost(initValues[..], activeDigit)
    {
      hide DigitOf, Shifted, Number;
      var initialValue := value;
      ShiftedStart(value);
      var i := 3;
      while i >= 0
        invariant -1 <= i <= 3 && initialValue == Shifted(value, i) && 0 <= activeDigit < 4
        invariant forall j :: i < j < 4 ==> initValues[j] == DigitOf(value, j)
        invariant if forall j :: i < j < 4 ==> initValues[j] == 0 then activeDigit == old(activeDigit)
                  else i < activeDigit < 4 && initValues[activeDigit] != 0
                       && forall j :: i < j < activeDigit ==> initValues[j] == 0
      {
        ShiftedStep(value, i);
        initValues[i] := initialValue % 10;
        initialValue := initialValue / 10;
        if initValues[i] != 0 {
          activeDigit := i;
        }
        i := i - 1;
      }
      DigitsRecombine(value, initValues[..]);
      NoDigits(initValues[..]);
    }

    /** IOCTL_COMMAND: the timer is added. One that is pending must not be added again. */
    method Start() returns (added: bool)
      requires initValues.Length == 4
      modifies this`pending
      ensures added <==> old(pending) == Idle
      ensures State() == if added then old(State()).(pending := Tick) else old(State())
    {
      added := pending == Idle;
      if added {
        pending := Tick;
      }
    }

    /** The pending timer expires. */
    method Fire()
      requires CanFire(State())
      modifies this, initValues
      ensures State() == Fired(old(State())) && interval == old(interval)
    {
      var handler := pending;
      pending := Idle;
      if handler == Tick {
        TimerHandler();
      } else {
        FinishHandler();
      }
    }

    /** fpga_timer_handler */
    method TimerHandler()
      requires pending == Idle && CanFire(State().(pending := Tick))
      modifies this, initValues
      ensures State() == Fired(old(State()).(pending := Tick)) && interval == old(interval)
    {
      hide FndWord, LedWord, TickScreen, Rotated, ValidTd;
      ValidFields(State().td);
      TickedValid(State().td);
      if count <= 0 {
        fnd, led, dot := 0, 0, None;
        pending := Finish;
        return;
      }
      fnd := FndWord(initValues[..]);
      led := LedWord(currentNumber);
      dot := Some(currentNumber);
      UpdateLcdDisplay();
      count := count - 1;
      currentNumber := currentNumber % 8 + 1;
      rotationCount := rotationCount % 8 + 1;
      UpdateDigitAndRotation();
      pending := Tick;
    }

    /** update_digit_and_rotation */
    method UpdateDigitAndRotation()
      requires ValidTd(State().td)
      modifies this`activeDigit, initValues
      ensures State() == old(State()).(td := Rotated(old(State()).td))
    {
      if rotationCount == 1 {
        initValues[activeDigit] := 0;
        activeDigit := (activeDigit + 1) % 4;
      }
      initValues[activeDigit] := currentNumber;
    }

    /** update_lcd_display */
    method UpdateLcdDisplay()
      requires initValues.Length == 4 && 0 <= lcdIndex < LINE
      modifies this`lcdIndex, this`lcd
      ensures lcd == TickScreen(count, old(lcdIndex)) && lcdIndex == (old(lcdIndex) + 1) % LINE
    {
      var line1 := "20191630" + Pad8(count);
      var line2 := PlaceName(lcdIndex);
      lcdIndex := (lcdIndex + 1) % LINE;
      lcd := line1 + line2[..];
    }

    /** The loop that writes the name into the second line. */
    static method PlaceName(offset: int) returns (line2: array<char>)
      requires 0 <= offset < LINE
      ensures fresh(line2) && line2[..] == NameLine(offset)
    {
      line2 := new char[LINE](_ => ' ');
      var temp := offset;
      for i := 0 to |NAME|
        invariant temp == (offset + i) % LINE
        invariant forall p :: 0 <= p < LINE ==>
                    line2[p] == if Behind(p, offset) < i then NAME[Behind(p, offset)] else ' '
      {
        SamePlace(offset, i);
        line2[temp] := NAME[i];
        temp := (temp + 1) % LINE;
      }
    }

    /** finish_handler */
    method FinishHandler()
      requires pending == Idle && CanFire(State().(pending := Finish))
      modifies this`fnd, this`led, this`dot, this`lcd, this`finishCount, this`pending
      ensures State() == Fired(old(State()).(pending := Finish))
    {
      if finishCount <= 0 {
        fnd, led, dot, lcd := 0, 0, None, BLANK;
        return;
      }
      lcd := FinishScreen(finishCount);
      finishCount := finishCount - 1;
      pending := Finish;
    }

    /** A whole run: handlers fire until no timer is pending. A first tick with digit 0 would shift by -1, which C
        leaves undefined; the run goes no further then. */
    method RunOut() returns (through: bool, ticks: nat, finishes: nat)
      requires Started(State())
      modifies this, initValues
      ensures through <==> old(count) == 0 || old(currentNumber) != 0
      ensures through ==> ticks == old(count) + 1 && finishes == 4 && RunDone(State(), old(State().td))
      ensures !through ==> ticks == finishes == 0 && State() == old(State())
      ensures interval == old(interval)
    {
      hide Fired, TdAt, CanFire, FndWord, LedWord, TickScreen, FinishScreen;
      ghost var d := State();
      ghost var n: nat := 0;
      through, ticks, finishes := count == 0 || currentNumber != 0, 0, 0;
      if !through {
        return;
      }
      RunLength(d, 0);
      while pending != Idle
        invariant n <= d.td.count + 5 && CanFireTimes(d, n) && State() == FiredTimes(d, n)
        invariant interval == old(interval)
        invariant ticks == if n <= d.td.count then n else d.td.count + 1
        invariant finishes == n - ticks
        decreases d.td.count + 5 - n
      {
        RunLength(d, n);
        RunLength(d, n + 1);
        if pending == Tick {
          ticks := ticks + 1;
        } else {
          finishes := finishes + 1;
        }
        Fire();
        n := n + 1;
      }
      RunLength(d, n);
    }
  }

  /** The application: with an interval or a count outside 1..100 nothing is started. Otherwise the driver is
      configured with these values, also in the middle of another run, whose pending handler stays; and if no
      timer was pending, the run goes through exactly if the low 14 bits of the start value are no multiple of 10000,
      and then it takes count + 1 ticks and four finish handlers. */
  method RunApplication(driver: TimerDriver, interval: bv32, count: bv32, init: bv32)
    returns (started: bool, through: bool, ticks: nat, finishes: nat, ghost config: Td)
    requires driver.initValues.Length == 4 && 0 <= driver.activeDigit < 4 && 0 <= driver.lcdIndex < LINE
    modifies driver, driver.initValues
    ensures started <==> 1 <= interval <= 100 && 1 <= count <= 100
    ensures through <==> started && old(driver.pending) == Idle && ((init & 0x3FFF) as int) % 10000 != 0
    ensures started ==>
              && driver.interval == interval as int && config.count == count as int
              && config.lcd == old(driver.lcdIndex)
              && SetUp(config, Pack(init, count, interval), old(driver.activeDigit))
    ensures through ==>
              ticks == count as int + 1 && finishes == 4 && RunDone(driver.State(), config)
    ensures !through ==> ticks == finishes == 0
    ensures !started ==> driver.State() == old(driver.State())
    ensures started && !through ==>
              && driver.State().td == config
              && driver.pending == if old(driver.pending) == Idle then Tick else old(driver.pending)
  {
    hide InitField, CountField, IntervalField, Pack, Fired, Number, Leftmost;
    started, through, ticks, finishes := false, false, 0, 0;
    config := driver.State().td;
    if interval < 1 || interval > 100 || count < 1 || count > 100 {
      return;
    }
    started := true;
    PackUnpack(init, count, interval);
    driver.SetOption(Pack(init, count, interval));
    config := driver.State().td;
    var added := driver.Start();
    if added {
      StartDigitIff(driver.State().td, Pack(init, count, interval), old(driver.activeDigit));
      through, ticks, finishes := driver.RunOut();
    }
  }
}
