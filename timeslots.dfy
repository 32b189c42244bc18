/** The time picker of the create-post form: 36 half-hour slots from 06:00 to 23:30,
    each shown and submitted as "HH:MM", and the choice of a slot, which splits the value
    on ':' , converts both parts with `Number` and sets the hours and minutes of a copy
    of the scheduled date. Dates here are local calendar times; time zones and daylight
    saving are not part of this model. */
module TimeSlots {
  import opened Common

  const SlotCount := 36
  const FirstHour := 6

  // -------------------------------------------------------------------------------
  // Decimal digits: `String(n)` and `Number(s)`

  predicate IsDigit(c: char) {
    '0' <= c <= '9'
  }

  function DigitChar(d: nat): (c: char)
    requires d < 10
    ensures IsDigit(c) && DigitValue(c) == d
  {
    ('0' as int + d) as char
  }

  function DigitValue(c: char): nat
    requires IsDigit(c)
  {
    c as int - '0' as int
  }

  /** `String(n)` of a natural number: its decimal digits, without leading zeros. */
  function Decimal(n: nat): (s: string)
    ensures |s| >= 1
    ensures forall i :: 0 <= i < |s| ==> IsDigit(s[i])
    ensures n < 10 <==> |s| == 1
  {
    if n < 10 then [DigitChar(n)] else Decimal(n / 10) + [DigitChar(n % 10)]
  }

  predicate AllDigits(s: string) {
    forall i :: 0 <= i < |s| ==> IsDigit(s[i])
  }

  /** The number a string of decimal digits spells; leading zeros add nothing. */
  function DigitsValue(s: string): nat
    requires AllDigits(s)
  {
    if s == [] then 0 else DigitsValue(s[..|s| - 1]) * 10 + DigitValue(s[|s| - 1])
  }

  /** `Number(s)` on the strings the picker produces: a string of decimal digits, the
      empty one included, converts to its value; anything else is `NaN` (`None`). */
  function Number(s: string): Option<nat> {
    if AllDigits(s) then Some(DigitsValue(s)) else None
  }

  /** `Number(String(n)) == n`. */
  lemma {:induction false} DecimalRoundTrip(n: nat)
    ensures Number(Decimal(n)) == Some(n)
  {
    var s := Decimal(n);
    if n < 10 {
      assert s == [DigitChar(n)] && s[..0] == [];
      assert DigitsValue(s) == DigitsValue(s[..0]) * 10 + DigitValue(s[0]);
    } else {
      DecimalRoundTrip(n / 10);
      assert s[..|s| - 1] == Decimal(n / 10);
      assert DigitValue(s[|s| - 1]) == n % 10;
    }
  }

  /** `s.padStart(2, "0")`. */
  function PadStart2(s: string): string {
    if |s| >= 2 then s else seq(2 - |s|, _ => '0') + s
  }

  /** Padding a number of at most two digits gives two digits that still spell it. */
  lemma PaddedRoundTrip(n: nat)
    requires n < 100
    ensures |PadStart2(Decimal(n))| == 2 && AllDigits(PadStart2(Decimal(n)))
    ensures Number(PadStart2(Decimal(n))) == Some(n)
  {
    var p := PadStart2(Decimal(n));
    if n < 10 {
      assert p == ['0', DigitChar(n)];
      assert p[..1] == ['0'];
      assert DigitsValue(p[..1]) == 0 by {
        assert p[..1][..0] == [];
      }
    } else {
      DecimalRoundTrip(n);
    }
  }

  // -------------------------------------------------------------------------------
  // `value.split(":")`

  /** The pieces of `s` between occurrences of `sep`, as `String.prototype.split`. */
  function Split(s: string, sep: char): (parts: seq<string>)
    ensures |parts| >= 1
  {
    if s == [] then [[]]
    else if s[0] == sep then [[]] + Split(s[1..], sep)
    else var rest := Split(s[1..], sep); [[s[0]] + rest[0]] + rest[1..]
  }

  lemma {:induction false} SplitWithoutSeparator(s: string, sep: char)
    requires sep !in s
    ensures Split(s, sep) == [s]
  {
    if s != [] {
      SplitWithoutSeparator(s[1..], sep);
      assert [s[0]] + s[1..] == s;
    }
  }

  /** Splitting two separator-free pieces joined by the separator gives them back. */
  lemma {:induction false} SplitJoined(a: string, b: string, sep: char)
    requires sep !in a && sep !in b
    ensures Split(a + [sep] + b, sep) == [a, b]
  {
    var s := a + [sep] + b;
    if a == [] {
      assert s[1..] == b;
      SplitWithoutSeparator(b, sep);
    } else {
      assert s[1..] == a[1..] + [sep] + b;
      SplitJoined(a[1..], b, sep);
      assert [a[0]] + a[1..] == a;
    }
  }

  // -------------------------------------------------------------------------------
  // The slots

  function SlotHour(i: nat): nat {
    i / 2 + FirstHour
  }

  function SlotMinute(i: nat): nat {
    if i % 2 == 0 then 0 else 30
  }

  /** Slot `i`: the hour `floor(i/2) + 6` padded to two digits, a colon, and "00" for
      even `i` or "30" for odd `i`. */
  function Slot(i: nat): string
    requires i < SlotCount
  {
    PadStart2(Decimal(SlotHour(i))) + ":" + (if i % 2 == 0 then "00" else "30")
  }

  /** `Array.from({ length: 36 }, ...)`. */
  function Slots(): (r: seq<string>)
    ensures |r| == SlotCount
    ensures forall i :: 0 <= i < SlotCount ==> r[i] == Slot(i)
  {
    seq(SlotCount, i requires 0 <= i < SlotCount => Slot(i))
  }

  /** `const [hours, minutes] = value.split(":").map(Number)`: a missing second piece
      leaves `minutes` undefined (`None`). */
  function ParseSlot(value: string): (r: (Option<nat>, Option<nat>))
    ensures ':' !in value ==> r == (Number(value), None)
  {
    var parts := Split(value, ':');
    assert ':' !in value ==> parts == [value] by {
      if ':' !in value { SplitWithoutSeparator(value, ':'); }
    }
    (Number(parts[0]), if |parts| >= 2 then Number(parts[1]) else None)
  }

  /** Every slot is "HH:MM": five characters, digits around a colon. */
  lemma SlotShape(i: nat)
    requires i < SlotCount
    ensures |Slot(i)| == 5 && Slot(i)[2] == ':'
    ensures forall j :: 0 <= j < 5 && j != 2 ==> IsDigit(Slot(i)[j])
  {
    PaddedRoundTrip(SlotHour(i));
  }

  /** Splitting slot `i` and converting its pieces gives back the hour and the minute it
      was built from. */
  lemma SlotParses(i: nat)
    requires i < SlotCount
    ensures ParseSlot(Slot(i)) == (Some(SlotHour(i)), Some(SlotMinute(i)))
  {
    var hh := PadStart2(Decimal(SlotHour(i)));
    var mm := if i % 2 == 0 then "00" else "30";
    PaddedRoundTrip(SlotHour(i));
    assert ':' !in hh by {
      assert forall j :: 0 <= j < |hh| ==> IsDigit(hh[j]);
    }
    SplitJoined(hh, mm, ':');
    assert Slot(i) == hh + [':'] + mm;
    assert mm == [mm[0], '0'] && mm[..1] == [mm[0]] && mm[..1][..0] == [];
    assert DigitsValue(mm[..1]) == DigitsValue(mm[..1][..0]) * 10 + DigitValue(mm[0]);
    assert DigitsValue(mm) == DigitsValue(mm[..1]) * 10 + DigitValue(mm[1]);
    assert DigitValue(mm[0]) * 10 == SlotMinute(i);
  }

  /** The list starts at 06:00, ends at 23:30, and each slot is 30 minutes after the one
      before it, as read back by the parse. */
  lemma SlotsAscend()
    ensures Slots()[0] == "06:00" && Slots()[SlotCount - 1] == "23:30"
    ensures forall i :: 0 <= i < SlotCount ==>
      ParseSlot(Slots()[i]).0.Some? && ParseSlot(Slots()[i]).1.Some? &&
      ParseSlot(Slots()[i]).0.value * 60 + ParseSlot(Slots()[i]).1.value == FirstHour * 60 + 30 * i
  {
    assert Decimal(6) == "6";
    assert Decimal(23) == Decimal(2) + [DigitChar(3)];
    forall i | 0 <= i < SlotCount
      ensures ParseSlot(Slots()[i]).0.Some? && ParseSlot(Slots()[i]).1.Some? &&
        ParseSlot(Slots()[i]).0.value * 60 + ParseSlot(Slots()[i]).1.value == FirstHour * 60 + 30 * i
    {
      SlotParses(i);
    }
  }

  // -------------------------------------------------------------------------------
  // Choosing a slot

  /** A local date and time of day. */
  datatype LocalTime = LocalTime(day: int, hours: nat, minutes: nat, seconds: nat, millis: nat)

  const MinutesPerDay := 1440

  /** `date.setHours(h, m)` on a copy of `date`, for natural `h` and `m`: hours and
      minutes beyond the day roll over into the following days. */
  function SetHours(date: LocalTime, h: nat, m: nat): LocalTime {
    var total := h * 60 + m;
    date.(day := date.day + total / MinutesPerDay, hours := (total % MinutesPerDay) / 60, minutes := total % 60)
  }

  /** The `onValueChange` handler: `None` stands for the invalid date that a `NaN` hour
      or minute produces. */
  function ChooseSlot(date: LocalTime, value: string): (r: Option<LocalTime>)
    ensures r.Some? <==> ParseSlot(value).0.Some? && ParseSlot(value).1.Some?
    ensures r.Some? ==>
      && r.value.seconds == date.seconds && r.value.millis == date.millis
      && r.value.hours < 24 && r.value.minutes < 60
      && r.value.day * MinutesPerDay + r.value.hours * 60 + r.value.minutes
         == date.day * MinutesPerDay + ParseSlot(value).0.value * 60 + ParseSlot(value).1.value
  {
    var (h, m) := ParseSlot(value);
    if h.Some? && m.Some? then Some(SetHours(date, h.value, m.value)) else None
  }

  /** Choosing slot `i` keeps the day, the seconds and the milliseconds and sets exactly
      the slot's hour and minute. */
  lemma ChooseSlotSetsTime(date: LocalTime, i: nat)
    requires i < SlotCount
    ensures ChooseSlot(date, Slot(i)) == Some(date.(hours := SlotHour(i), minutes := SlotMinute(i)))
  {
    SlotParses(i);
  }
}
