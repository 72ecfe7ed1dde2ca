/** DURATION values of RFC 5545 (section 3.3.6), in seconds, and the 64-bit
    nanoseconds they become. */
module ICalDuration {
  import opened Options

  const MAX_INT := 0x7FFF_FFFF_FFFF_FFFF

  predicate IsDigit(c: char) {
    '0' <= c <= '9'
  }

  predicate IsUnit(c: char) {
    c == 'W' || c == 'D' || c == 'H' || c == 'M' || c == 'S'
  }

  /** Seconds in a unit. */
  function Seconds(unit: char): nat {
    match unit
    case 'W' => 7 * 24 * 3600
    case 'D' => 24 * 3600
    case 'H' => 3600
    case 'M' => 60
    case _ => 1
  }

  /** What an amount adds to a duration. */
  function Worth(digits: string, unit: char): nat
    requires AllDigits(digits)
  {
    Decimal(digits) * Seconds(unit)
  }

  predicate AllDigits(s: string) {
    forall i :: 0 <= i < |s| ==> IsDigit(s[i])
  }

  function Decimal(digits: string): nat
    requires AllDigits(digits)
  {
    if digits == "" then 0 else 10 * Decimal(digits[..|digits| - 1]) + (digits[|digits| - 1] as int - '0' as int)
  }

  /** How many digits s begins with. */
  function DigitCount(s: string): (n: nat)
    ensures n <= |s| && AllDigits(s[..n]) && (n < |s| ==> !IsDigit(s[n]))
  {
    if s == "" || !IsDigit(s[0]) then 0
    else
      var n := DigitCount(s[1..]);
      assert s[..n + 1] == [s[0]] + s[1..][..n];
      n + 1
  }

  /** The sum of the amounts in s, added to total; None for an error. */
  function ParseAmounts(s: string, total: int): Option<int>
    decreases |s|
  {
    if s == "" then Some(total)
    else if s[0] == 'T' then ParseAmounts(s[1..], total)
    else
      var i := DigitCount(s);
      if i == 0 || i >= |s| || Decimal(s[..i]) > MAX_INT || !IsUnit(s[i]) then None
      else ParseAmounts(s[i + 1..], total + Worth(s[..i], s[i]))
  }

  /** After the sign. */
  function ParsePeriod(s: string): Option<int> {
    if s == "" || s[0] != 'P' then None else ParseAmounts(s[1..], 0)
  }

  function Negated(seconds: Option<int>): Option<int> {
    if seconds.Some? then Some(-seconds.value) else None
  }

  /** After a leading plus. */
  function ParseMinus(s: string): Option<int> {
    if s != "" && s[0] == '-' then Negated(ParsePeriod(s[1..])) else ParsePeriod(s)
  }

  function Parse(s: string): Option<int> {
    ParseMinus(if s != "" && s[0] == '+' then s[1..] else s)
  }

  // ------------------------------------------------------------------------- loop

  lemma {:induction false} DigitCountIs(s: string, i: nat)
    requires i <= |s| && AllDigits(s[..i]) && (i < |s| ==> !IsDigit(s[i]))
    ensures DigitCount(s) == i
  {
    if i > 0 {
      assert s[..i][0] == s[0];
      assert s[1..][..i - 1] == s[..i][1..];
      DigitCountIs(s[1..], i - 1);
    }
  }

  /** One round of the loop: a time mark, an amount, or an error. */
  lemma ParseStep(s: string, i: nat, total: int)
    requires s != "" && i <= |s| && AllDigits(s[..i]) && (i < |s| ==> !IsDigit(s[i]))
    ensures s[0] == 'T' ==> ParseAmounts(s, total) == ParseAmounts(s[1..], total)
    ensures s[0] != 'T' && (i == 0 || i == |s| || Decimal(s[..i]) > MAX_INT || !IsUnit(s[i])) ==>
        ParseAmounts(s, total).None?
    ensures s[0] != 'T' && 0 < i < |s| && Decimal(s[..i]) <= MAX_INT && IsUnit(s[i]) ==>
              ParseAmounts(s, total) == ParseAmounts(s[i + 1..], total + Decimal(s[..i]) * Seconds(s[i]))
  {
    DigitCountIs(s, i);
    hide Decimal, Seconds;
  }

  // ------------------------------------------------------------------ nanoseconds

  const NANOS := 1_000_000_000
  const WORD := 0x1_0000_0000_0000_0000
  const LEAST := -0x8000_0000_0000_0000

  /** Arithmetic on time.Duration wraps around. */
  function Wrap(x: int): int {
    (x - LEAST) % WORD + LEAST
  }

  function Nanoseconds(seconds: Option<int>): Option<int> {
    if seconds.Some? then Some(Wrap(seconds.value * NANOS)) else None
  }

  lemma WrapShifts(x: int, q: int)
    ensures Wrap(x + q * WORD) == Wrap(x)
  {
    var y := x - LEAST;
    assert y + q * WORD == (y / WORD + q) * WORD + y % WORD;
  }

  /** Wrapping early makes no difference to a sum, a multiple or a negation. */
  lemma WrapEarly(a: int, b: int, k: int)
    ensures Wrap(Wrap(a) + Wrap(b)) == Wrap(a + b)
    ensures Wrap(Wrap(a) * k) == Wrap(a * k)
    ensures Wrap(-Wrap(a)) == Wrap(-a)
  {
    var p, q := (a - LEAST) / WORD, (b - LEAST) / WORD;
    assert Wrap(a) == a - p * WORD && Wrap(b) == b - q * WORD;
    Multiple(a, p, k);
    WrapShifts(a + b, -p - q);
    WrapShifts(a * k, -(p * k));
    WrapShifts(-a, p);
  }

  lemma Multiple(a: int, p: int, k: int)
    ensures (a - p * WORD) * k == a * k + -(p * k) * WORD
  {
  }

  /** The source multiplies a count step by step and adds it to the total. */
  lemma WrapAmount(exact: int, n: nat)
    ensures var total := Wrap(exact * NANOS);
      && Wrap(total + Wrap(Wrap(Wrap(n * 7) * 24) * (3600 * NANOS))) == Wrap((exact + n * (7 * 24 * 3600)) * NANOS)
      && Wrap(total + Wrap(Wrap(n * 24) * (3600 * NANOS))) == Wrap((exact + n * (24 * 3600)) * NANOS)
      && Wrap(total + Wrap(n * (3600 * NANOS))) == Wrap((exact + n * 3600) * NANOS)
      && Wrap(total + Wrap(n * (60 * NANOS))) == Wrap((exact + n * 60) * NANOS)
      && Wrap(total + Wrap(n * NANOS)) == Wrap((exact + n) * NANOS)
  {
    hide Wrap;
    WrapEarly(n * 7, 0, 24);
    WrapEarly(n * 7 * 24, 0, 3600 * NANOS);
    WrapEarly(n * 24, 0, 3600 * NANOS);
    WrapEarly(exact * NANOS, n * (7 * 24 * 3600) * NANOS, 1);
    WrapEarly(exact * NANOS, n * (24 * 3600) * NANOS, 1);
    WrapEarly(exact * NANOS, n * 3600 * NANOS, 1);
    WrapEarly(exact * NANOS, n * 60 * NANOS, 1);
    WrapEarly(exact * NANOS, n * NANOS, 1);
  }

  /** parseICalDuration. */
  method ParseICalDuration(text: string) returns (duration: Option<int>)
    ensures duration == Nanoseconds(Parse(text))
  {
    hide ParseAmounts, Decimal, DigitCount, Wrap;
    var neg := false;
    var s := text;
    if s != "" && s[0] == '+' { s := s[1..]; }
    if s != "" && s[0] == '-' {
      neg := true;
      s := s[1..];
    }
    if s == "" || s[0] != 'P' { return None; }
    s := s[1..];
    ghost var parsed, exact := ParseAmounts(s, 0), 0;
    var total := 0;
    WrapZero();
    while |s| > 0
      invariant ParseAmounts(s, exact) == parsed && total == Wrap(exact * NANOS)
      decreases |s|
    {
      if s[0] == 'T' {
        ParseStep(s, DigitCount(s), exact);
        s := s[1..];
        continue;
      }
      var i := 0;
      while i < |s| && IsDigit(s[i])
        invariant 0 <= i <= |s| && AllDigits(s[..i])
      {
        assert s[..i + 1] == s[..i] + [s[i]];
        i := i + 1;
      }
      ParseStep(s, i, exact);
      if i == 0 || i >= |s| { return None; }
      var n := Decimal(s[..i]);
      if n > MAX_INT { return None; }
      var unit := s[i];
      s := s[i + 1..];
      WrapAmount(exact, n);
      match unit {
        case 'W' => total := Wrap(total + Wrap(Wrap(Wrap(n * 7) * 24) * (3600 * NANOS)));
        case 'D' => total := Wrap(total + Wrap(Wrap(n * 24) * (3600 * NANOS)));
        case 'H' => total := Wrap(total + Wrap(n * (3600 * NANOS)));
        case 'M' => total := Wrap(total + Wrap(n * (60 * NANOS)));
        case 'S' => total := Wrap(total + Wrap(n * NANOS));
        case _ => return None;
      }
      exact := exact + n * Seconds(unit);
    }
    NothingLeft(s, exact);
    if neg {
      WrapEarly(exact * NANOS, 0, 1);
      total := Wrap(-total);
    }
    return Some(total);
  }

  lemma WrapZero()
    ensures Wrap(0) == 0
  {
  }

  lemma NothingLeft(s: string, total: int)
    requires s == ""
    ensures ParseAmounts(s, total) == Some(total)
  {
  }

  // ---------------------------------------------------------------------- grammar

  /** A written duration: time marks and amounts with their units, in any order. */
  datatype Item = TimeMark | Amount(digits: string, unit: char)

  /** Digits and a unit, however large the number. */
  predicate Shaped(item: Item) {
    item.Amount? ==> item.digits != "" && AllDigits(item.digits) && IsUnit(item.unit)
  }

  /** A number the source can hold. */
  predicate WellFormed(item: Item) {
    Shaped(item) && (item.Amount? ==> Decimal(item.digits) <= MAX_INT)
  }

  predicate AllShaped(items: seq<Item>) {
    forall i :: 0 <= i < |items| ==> Shaped(items[i])
  }

  predicate AllWellFormed(items: seq<Item>) {
    forall i :: 0 <= i < |items| ==> WellFormed(items[i])
  }

  function Written(items: seq<Item>): string {
    if items == [] then ""
    else (if items[0].TimeMark? then "T" else items[0].digits + [items[0].unit]) + Written(items[1..])
  }

  function Total(items: seq<Item>): int
    requires AllWellFormed(items)
  {
    if items == [] then 0
    else (if items[0].TimeMark? then 0 else Worth(items[0].digits, items[0].unit)) + Total(items[1..])
  }

  lemma OneMore(item: Item, more: seq<Item>)
    requires WellFormed(item) && AllWellFormed(more)
    ensures AllWellFormed([item] + more)
    ensures Written([item] + more) == (if item.TimeMark? then "T" else item.digits + [item.unit]) + Written(more)
    ensures Total([item] + more) == (if item.TimeMark? then 0 else Worth(item.digits, item.unit)) + Total(more)
  {
    hide Worth, WellFormed;
    assert ([item] + more)[1..] == more;
  }

  lemma NoItems()
    ensures AllShaped([]) && AllWellFormed([]) && Total([]) == 0 && Written([]) == ""
  {
  }

  lemma AmountIsParsed(digits: string, unit: char, rest: string, total: int)
    requires WellFormed(Amount(digits, unit))
    ensures ParseAmounts(digits + [unit] + rest, total) == ParseAmounts(rest, total + Worth(digits, unit))
  {
    hide ParseAmounts, DigitCount, Decimal, Seconds;
    var s, n := digits + [unit] + rest, |digits|;
    assert s[..n] == digits && s[n] == unit && s[n + 1..] == rest;
    assert s[0] == digits[0];
    ParseStep(s, n, total);
  }

  lemma MarkIsParsed(rest: string, total: int)
    ensures ParseAmounts("T" + rest, total) == ParseAmounts(rest, total)
  {
    assert ("T" + rest)[1..] == rest;
  }

  /** Every written duration is parsed to its total. */
  lemma {:induction false} WrittenIsParsed(items: seq<Item>, total: int)
    requires AllWellFormed(items)
    ensures ParseAmounts(Written(items), total) == Some(total + Total(items))
  {
    hide ParseAmounts, Worth, WellFormed;
    if items == [] {
      NothingLeft("", total);
    } else {
      var item, rest := items[0], Written(items[1..]);
      if item.TimeMark? {
        MarkIsParsed(rest, total);
        WrittenIsParsed(items[1..], total);
      } else {
        IsAmount(item);
        AmountIsParsed(item.digits, item.unit, rest, total);
        WrittenIsParsed(items[1..], total + Worth(item.digits, item.unit));
      }
    }
  }

  lemma IsAmount(item: Item)
    requires WellFormed(item) && item.Amount?
    ensures AllDigits(item.digits) && item == Amount(item.digits, item.unit)
  {
  }

  lemma LargeAmountIsRefused(digits: string, unit: char, rest: string, total: int)
    requires Shaped(Amount(digits, unit)) && Decimal(digits) > MAX_INT
    ensures ParseAmounts(digits + [unit] + rest, total).None?
  {
    hide ParseAmounts, DigitCount, Decimal, Seconds;
    var s, n := digits + [unit] + rest, |digits|;
    assert s[..n] == digits && s[n] == unit && s[n + 1..] == rest;
    assert s[0] == digits[0];
    ParseStep(s, n, total);
  }

  /** A written duration with one number too large is an error. */
  lemma {:induction false} LargeIsRefused(items: seq<Item>, total: int)
    requires AllShaped(items) && !AllWellFormed(items)
    ensures ParseAmounts(Written(items), total).None?
  {
    hide ParseAmounts, Worth, Decimal;
    var item, rest := items[0], Written(items[1..]);
    if item.TimeMark? {
      MarkIsParsed(rest, total);
      LargeIsRefused(items[1..], total);
    } else if WellFormed(item) {
      AmountIsParsed(item.digits, item.unit, rest, total);
      LargeIsRefused(items[1..], total + Worth(item.digits, item.unit));
    } else {
      LargeAmountIsRefused(item.digits, item.unit, rest, total);
    }
  }

  /** And nothing else is accepted. */
  lemma {:induction false} ParsedIsWritten(s: string, total: int) returns (items: seq<Item>)
    requires ParseAmounts(s, total).Some?
    ensures AllWellFormed(items) && Written(items) == s && ParseAmounts(s, total) == Some(total + Total(items))
    decreases |s|
  {
    hide ParseAmounts, Decimal, Worth, DigitCount, Written, Total, AllWellFormed;
    NoItems();
    if s == "" {
      NothingLeft(s, total);
      items := [];
    } else if s[0] == 'T' {
      ParseStep(s, DigitCount(s), total);
      var more := ParsedIsWritten(s[1..], total);
      OneMore(TimeMark, more);
      items := [TimeMark] + more;
      assert s == "T" + s[1..];
    } else {
      var i := DigitCount(s);
      ParseStep(s, i, total);
      AmountsWorth(s, i);
      var more := ParsedIsWritten(s[i + 1..], total + Worth(s[..i], s[i]));
      OneMore(Amount(s[..i], s[i]), more);
      items := [Amount(s[..i], s[i])] + more;
      assert s == s[..i] + [s[i]] + s[i + 1..];
    }
  }

  lemma AmountsWorth(s: string, i: nat)
    requires i < |s| && AllDigits(s[..i])
    ensures Worth(s[..i], s[i]) == Decimal(s[..i]) * Seconds(s[i])
  {
  }

  function Signed(plus: bool, minus: bool, items: seq<Item>): string {
    (if plus then "+" else "") + ((if minus then "-" else "") + ("P" + Written(items)))
  }

  /** s is a written duration of so many seconds. */
  ghost predicate Denotes(s: string, seconds: int) {
    exists plus, minus, items :: Spells(s, plus, minus, items)
        && seconds == if minus then -Total(items) else Total(items)
  }

  ghost predicate Spells(s: string, plus: bool, minus: bool, items: seq<Item>) {
    AllWellFormed(items) && s == Signed(plus, minus, items)
  }

  lemma PeriodIsParsed(items: seq<Item>)
    requires AllShaped(items)
    ensures ParsePeriod("P" + Written(items)) == if AllWellFormed(items) then Some(Total(items)) else None
  {
    if AllWellFormed(items) { WrittenIsParsed(items, 0); } else { LargeIsRefused(items, 0); }
    hide ParseAmounts, Written, Total, AllWellFormed;
    assert ("P" + Written(items))[1..] == Written(items);
  }

  lemma MinusIsParsed(minus: bool, period: string)
    requires period != "" && period[0] == 'P'
    ensures ParseMinus((if minus then "-" else "") + period)
         == if minus then Negated(ParsePeriod(period)) else ParsePeriod(period)
  {
    hide ParsePeriod;
    assert "" + period == period;
    assert ("-" + period)[1..] == period;
  }

  lemma PlusIsParsed(plus: bool, unsigned: string)
    requires unsigned != "" && unsigned[0] != '+'
    ensures Parse((if plus then "+" else "") + unsigned) == ParseMinus(unsigned)
  {
    hide ParseMinus;
    assert "" + unsigned == unsigned;
    assert ("+" + unsigned)[1..] == unsigned;
  }

  lemma SignedIsParsed(plus: bool, minus: bool, items: seq<Item>)
    requires AllShaped(items)
    ensures Parse(Signed(plus, minus, items)) ==
            if AllWellFormed(items) then Some(if minus then -Total(items) else Total(items)) else None
  {
    hide Parse, ParseMinus, ParsePeriod, Written, Total, AllWellFormed;
    PeriodIsParsed(items);
    MinusIsParsed(minus, "P" + Written(items));
    PlusIsParsed(plus, (if minus then "-" else "") + ("P" + Written(items)));
  }

  lemma ParsedIsSigned(s: string)
    requires Parse(s).Some?
    ensures Denotes(s, Parse(s).value)
  {
    hide ParseAmounts, Written, Total, AllWellFormed;
    var plus := s[0] == '+';
    var unsigned := if plus then s[1..] else s;
    var minus := unsigned[0] == '-';
    var period := if minus then unsigned[1..] else unsigned;
    var items := ParsedIsWritten(period[1..], 0);
    assert s == Signed(plus, minus, items);
    assert Spells(s, plus, minus, items);
  }

  /** The parser accepts exactly the written durations, with their meaning. */
  lemma ParseIsTheGrammar(s: string, seconds: int)
    ensures Parse(s) == Some(seconds) <==> Denotes(s, seconds)
  {
    hide Parse, Signed, Total, AllWellFormed;
    if Parse(s).Some? { ParsedIsSigned(s); }
    if Denotes(s, seconds) {
      var plus, minus, items :| Spells(s, plus, minus, items)
          && seconds == if minus then -Total(items) else Total(items);
      WellFormedIsShaped(items);
      SignedIsParsed(plus, minus, items);
    }
  }

  lemma WellFormedIsShaped(items: seq<Item>)
    requires AllWellFormed(items)
    ensures AllShaped(items)
  {
  }

  // -------------------------------------------------- the standard's own durations

  /** dur-hour, dur-minute and dur-second, as their digits are written. */
  datatype Time =
    | Hours(h: string, more: Option<Time>)
    | Minutes(m: string, more: Option<Time>)
    | SecondsOnly(s: string)

  /** dur-week, dur-date and dur-time of the grammar. */
  datatype Standard =
    | Weeks(weeks: string)
    | Date(days: string, time: Option<Time>)
    | TimeOnly(clock: Time)

  function TimeItems(t: Time): seq<Item> {
    match t
    case Hours(h, more) => [Amount(h, 'H')] + if more.Some? then TimeItems(more.value) else []
    case Minutes(m, more) => [Amount(m, 'M')] + if more.Some? then TimeItems(more.value) else []
    case SecondsOnly(s) => [Amount(s, 'S')]
  }

  function Items(d: Standard): seq<Item> {
    match d
    case Weeks(w) => [Amount(w, 'W')]
    case Date(days, time) => [Amount(days, 'D')] + if time.Some? then [TimeMark] + TimeItems(time.value) else []
    case TimeOnly(t) => [TimeMark] + TimeItems(t)
  }

  /** 1*DIGIT: leading zeros and any length are allowed. */
  predicate Number(digits: string) {
    digits != "" && AllDigits(digits)
  }

  predicate TimeWritten(t: Time) {
    match t
    case Hours(h, more) => Number(h) && (more.Some? ==> TimeWritten(more.value))
    case Minutes(m, more) => Number(m) && (more.Some? ==> TimeWritten(more.value))
    case SecondsOnly(s) => Number(s)
  }

  predicate StandardWritten(d: Standard) {
    match d
    case Weeks(w) => Number(w)
    case Date(days, time) => Number(days) && (time.Some? ==> TimeWritten(time.value))
    case TimeOnly(t) => TimeWritten(t)
  }

  function TimeSeconds(t: Time): int
    requires TimeWritten(t)
  {
    match t
    case Hours(h, more) => Decimal(h) * 3600 + if more.Some? then TimeSeconds(more.value) else 0
    case Minutes(m, more) => Decimal(m) * 60 + if more.Some? then TimeSeconds(more.value) else 0
    case SecondsOnly(s) => Decimal(s)
  }

  function StandardSeconds(d: Standard): int
    requires StandardWritten(d)
  {
    match d
    case Weeks(w) => Decimal(w) * 604800
    case Date(days, time) => Decimal(days) * 86400 + if time.Some? then TimeSeconds(time.value) else 0
    case TimeOnly(t) => TimeSeconds(t)
  }

  /** Every number is one the source can hold. */
  predicate TimeFits(t: Time)
    requires TimeWritten(t)
  {
    match t
    case Hours(h, more) => Decimal(h) <= MAX_INT && (more.Some? ==> TimeFits(more.value))
    case Minutes(m, more) => Decimal(m) <= MAX_INT && (more.Some? ==> TimeFits(more.value))
    case SecondsOnly(s) => Decimal(s) <= MAX_INT
  }

  predicate Fits(d: Standard)
    requires StandardWritten(d)
  {
    match d
    case Weeks(w) => Decimal(w) <= MAX_INT
    case Date(days, time) => Decimal(days) <= MAX_INT && (time.Some? ==> TimeFits(time.value))
    case TimeOnly(t) => TimeFits(t)
  }

  /** One more item: shape, size and total of the list follow. */
  lemma OneShaped(item: Item, more: seq<Item>)
    requires Shaped(item) && AllShaped(more)
    ensures AllShaped([item] + more)
    ensures AllWellFormed([item] + more) <==> WellFormed(item) && AllWellFormed(more)
    ensures WellFormed(item) && AllWellFormed(more) ==>
              Total([item] + more) == (if item.TimeMark? then 0 else Worth(item.digits, item.unit)) + Total(more)
  {
    hide Worth, Shaped, WellFormed, Total;
    var all := [item] + more;
    assert all[0] == item && all[1..] == more;
    if AllWellFormed(all) {
      forall i | 0 <= i < |more| ensures WellFormed(more[i]) {
        assert more[i] == all[i + 1];
      }
    }
    if WellFormed(item) && AllWellFormed(more) { OneMore(item, more); }
  }

  lemma {:induction false} TimeItemsTotal(t: Time)
    requires TimeWritten(t)
    ensures AllShaped(TimeItems(t)) && (AllWellFormed(TimeItems(t)) <==> TimeFits(t))
    ensures TimeFits(t) ==> Total(TimeItems(t)) == TimeSeconds(t)
  {
    hide Decimal, Total, AllWellFormed, AllShaped;
    NoItems();
    match t
    case Hours(h, more) =>
      if more.Some? { TimeItemsTotal(more.value); }
      OneShaped(Amount(h, 'H'), if more.Some? then TimeItems(more.value) else []);
    case Minutes(m, more) =>
      if more.Some? { TimeItemsTotal(more.value); }
      OneShaped(Amount(m, 'M'), if more.Some? then TimeItems(more.value) else []);
    case SecondsOnly(s) =>
      OneShaped(Amount(s, 'S'), []);
      assert [Amount(s, 'S')] + [] == [Amount(s, 'S')];
  }

  lemma ItemsTotal(d: Standard)
    requires StandardWritten(d)
    ensures AllShaped(Items(d)) && (AllWellFormed(Items(d)) <==> Fits(d))
    ensures Fits(d) ==> Total(Items(d)) == StandardSeconds(d)
  {
    hide Decimal, Total, AllWellFormed, AllShaped;
    NoItems();
    match d
    case Weeks(w) =>
      OneShaped(Amount(w, 'W'), []);
      assert [Amount(w, 'W')] + [] == Items(d);
    case Date(days, time) =>
      if time.Some? {
        TimeItemsTotal(time.value);
        OneShaped(TimeMark, TimeItems(time.value));
      }
      OneShaped(Amount(days, 'D'), if time.Some? then [TimeMark] + TimeItems(time.value) else []);
    case TimeOnly(t) =>
      TimeItemsTotal(t);
      OneShaped(TimeMark, TimeItems(t));
  }

  /** Every duration the standard can write, leading zeros included, is parsed to
      its seconds exactly when each of its numbers fits a 64-bit integer, and is
      an error otherwise. What is returned is exactly that long if and only if it
      stays within the range of 64-bit nanoseconds, some 292 years. */
  lemma StandardDurationIsParsed(d: Standard, plus: bool, minus: bool)
    requires StandardWritten(d) && !(plus && minus)
    ensures var parsed := Parse(Signed(plus, minus, Items(d)));
      var seconds := if minus then -StandardSeconds(d) else StandardSeconds(d);
      && parsed == (if Fits(d) then Some(seconds) else None)
      && (Nanoseconds(parsed) == Some(seconds * NANOS) <==> Fits(d) && -9_223_372_036 <= seconds <= 9_223_372_036)
  {
    hide Parse, Signed, Total, AllWellFormed, AllShaped, Items, StandardSeconds, Fits;
    ItemsTotal(d);
    SignedIsParsed(plus, minus, Items(d));
  }
}
