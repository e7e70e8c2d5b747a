/** Clock text: `time_to_words` and `minutes_to_time` of matiq.py. */
module Clock {
  import opened Wrappers

  /** The number words of `time_to_words`, indexed by value; index 0 and
      index 12 both read "twelve", 15 reads "quarter" and 30 "half". */
  const Nums: seq<string> := [
    "twelve", "one", "two", "three", "four",
    "five", "six", "seven", "eight", "nine",
    "ten", "eleven", "twelve", "thirteen",
    "fourteen", "quarter", "sixteen",
    "seventeen", "eighteen", "nineteen",
    "twenty", "twenty one", "twenty two",
    "twenty three", "twenty four",
    "twenty five", "twenty six", "twenty seven",
    "twenty eight", "twenty nine", "half"]

  /** The three ways a time is spoken, with the numbers the words stand for. */
  datatype Phrase =
    | OClock(hour: nat)
    | Past(minutes: nat, hour: nat)
    | To(minutes: nat, hour: nat)

  /** The numbers of a phrase all have a word, and a "past" or "to" phrase
      counts at least one and at most thirty minutes. */
  predicate Speakable(p: Phrase) {
    match p
    case OClock(hour) => hour <= 12
    case Past(minutes, hour) => 1 <= minutes <= 30 && hour <= 12
    case To(minutes, hour) => 1 <= minutes < 30 && hour <= 12
  }

  /** The position on a twelve-hour dial, in minutes after twelve o'clock,
      that a phrase describes. */
  function Dial(p: Phrase): int {
    match p
    case OClock(hour) => hour % 12 * 60
    case Past(minutes, hour) => (hour % 12 * 60 + minutes) % 720
    case To(minutes, hour) => (hour % 12 * 60 - minutes) % 720
  }

  /** How `time_to_words` phrases hour `h` and minute `m`: ValueError for
      an hour outside 0..12 or a minute outside 0..59; otherwise a phrase
      that describes the same dial position. */
  function Phrasing(h: int, m: int): (r: Result<Phrase>)
    ensures r.Err? <==> !(0 <= h <= 12 && 0 <= m < 60)
    ensures r.Err? ==> r.error == ValueError
    ensures r.Ok? ==> Speakable(r.value) && Dial(r.value) == (h * 60 + m) % 720
    ensures r.Ok? ==> (r.value.OClock? <==> m == 0) && (r.value.Past? <==> 1 <= m <= 30)
  {
    if !(0 <= h <= 12) then Err(ValueError)
    else if m == 0 then Ok(OClock(h))
    else if 0 < m <= 30 then Ok(Past(m, h))
    else if 30 < m < 60 then
      ToDial(h, m);
      Ok(To(60 - m, h % 12 + 1))
    else Err(ValueError)
  }

  /** The remainder modulo 720 of a number `k` whole turns past `x - 720 * k`. */
  lemma TurnRemainder(x: int, k: int)
    requires 0 <= x - 720 * k < 720
    ensures x % 720 == x - 720 * k
  {
  }

  lemma ToDial(h: int, m: int)
    requires 0 <= h <= 12 && 30 < m < 60
    ensures ((h % 12 + 1) % 12 * 60 - (60 - m)) % 720 == (h * 60 + m) % 720
  {
    var next := (h % 12 + 1) % 12;
    if h < 11 {
      assert next == h + 1;
    } else if h == 11 {
      assert next == 0;
      TurnRemainder(m - 60, -1);
      TurnRemainder(h * 60 + m, 0);
    } else {
      assert next == 1;
      TurnRemainder(m, 0);
      TurnRemainder(h * 60 + m, 1);
    }
  }

  /** Two readings that `time_to_words` accepts get the same phrase only
      when they are the same time on a twelve-hour dial. */
  lemma PhrasingDeterminesTime(h1: int, m1: int, h2: int, m2: int)
    requires Phrasing(h1, m1).Ok? && Phrasing(h2, m2).Ok?
    requires Phrasing(h1, m1) == Phrasing(h2, m2)
    ensures m1 == m2 && h1 % 12 == h2 % 12
  {
    var t1, t2 := h1 * 60 + m1, h2 * 60 + m2;
    assert t1 % 720 == t2 % 720;
    DialPosition(h1, m1);
    DialPosition(h2, m2);
  }

  lemma DialPosition(h: int, m: int)
    requires 0 <= h <= 12 && 0 <= m < 60
    ensures (h * 60 + m) % 720 == h % 12 * 60 + m
    ensures (h * 60 + m) % 720 % 60 == m && (h * 60 + m) % 720 / 60 == h % 12
  {
    if h == 12 {
      TurnRemainder(h * 60 + m, 1);
    } else {
      TurnRemainder(h * 60 + m, 0);
    }
  }

  /** The words of a phrase. */
  function Render(p: Phrase): string
    requires Speakable(p)
  {
    match p
    case OClock(hour) => Nums[hour] + " o'clock"
    case Past(minutes, hour) => Nums[minutes] + " past " + Nums[hour]
    case To(minutes, hour) => Nums[minutes] + " to " + Nums[hour]
  }

  /** `time_to_words(h, m)`: "H o'clock" on the hour, "M past H" up to
      half past, "M to H+1" after it, with the numbers taken from the word
      table; ValueError for an hour outside 0..12 or a minute outside 0..59. */
  function TimeToWords(h: int, m: int): (r: Result<string>)
    ensures r.Err? <==> !(0 <= h <= 12 && 0 <= m < 60)
    ensures r.Err? ==> r.error == ValueError
    ensures r.Ok? && m == 0 ==> r.value == Nums[h] + " o'clock"
    ensures r.Ok? && 1 <= m <= 30 ==> r.value == Nums[m] + " past " + Nums[h]
    ensures r.Ok? && 31 <= m ==> r.value == Nums[60 - m] + " to " + Nums[h % 12 + 1]
  {
    match Phrasing(h, m)
    case Err(e) => Err(e)
    case Ok(p) => Ok(Render(p))
  }

  /** Hour 0 and hour 12 read the same. */
  lemma MidnightIsTwelve(m: int)
    ensures TimeToWords(0, m) == TimeToWords(12, m)
  {
  }

  // ---------------------------------------------------------------------------
  // minutes_to_time

  function DigitChar(d: nat): (c: char)
    requires d < 10
    ensures '0' <= c <= '9'
  {
    ('0' as int + d) as char
  }

  function DigitValue(c: char): int {
    c as int - '0' as int
  }

  /** The number a string of decimal digits spells, most significant first. */
  function DigitsValue(s: string): int
    decreases |s|
  {
    if s == [] then 0 else DigitsValue(s[..|s| - 1]) * 10 + DigitValue(s[|s| - 1])
  }

  /** `str(n)` for a natural number: its decimal digits, most significant
      first, without leading zeros. */
  function Decimal(n: nat): (s: string)
    ensures 1 <= |s|
    ensures forall i :: 0 <= i < |s| ==> '0' <= s[i] <= '9'
    ensures DigitsValue(s) == n
    ensures |s| == 1 || s[0] != '0'
  {
    if n < 10 then
      [DigitChar(n)]
    else
      var t := Decimal(n / 10);
      var s := t + [DigitChar(n % 10)];
      assert s[..|s| - 1] == t;
      assert |t| == 1 ==> DigitValue(t[0]) == n / 10;
      s
  }

  /** Python's `'0' * (2 - len(s)) + s`: padded on the left to two
      characters, unchanged when already two or longer. */
  function ZeroPad(s: string): string {
    if |s| < 2 then seq(2 - |s|, _ => '0') + s else s
  }

  /** A two-digit field reads back as `n`. */
  lemma PaddedField(n: nat)
    requires n < 100
    ensures |ZeroPad(Decimal(n))| == 2
    ensures '0' <= ZeroPad(Decimal(n))[0] <= '9' && '0' <= ZeroPad(Decimal(n))[1] <= '9'
    ensures DigitValue(ZeroPad(Decimal(n))[0]) * 10 + DigitValue(ZeroPad(Decimal(n))[1]) == n
  {
    if n >= 10 {
      assert Decimal(n / 10) == [DigitChar(n / 10)];
    }
  }

  /** The number of minutes after midnight that an "HH:MM" text reads. */
  function ReadTime(s: string): int
    requires |s| == 5
  {
    (DigitValue(s[0]) * 10 + DigitValue(s[1])) * 60 + DigitValue(s[3]) * 10 + DigitValue(s[4])
  }

  /** `minutes_to_time(minutes)`: ValueError unless 0 <= minutes < 1440;
      otherwise five characters "HH:MM", two digits of hours and two of
      minutes, which read back as the same number of minutes. */
  function MinutesToTime(minutes: int): (r: Result<string>)
    ensures r.Err? <==> !(0 <= minutes < 1440)
    ensures r.Err? ==> r.error == ValueError
    ensures r.Ok? ==> |r.value| == 5 && r.value[2] == ':'
    ensures r.Ok? ==> forall i :: 0 <= i < 5 && i != 2 ==> '0' <= r.value[i] <= '9'
    ensures r.Ok? ==> DigitValue(r.value[0]) * 10 + DigitValue(r.value[1]) == minutes / 60
    ensures r.Ok? ==> DigitValue(r.value[3]) * 10 + DigitValue(r.value[4]) == minutes % 60
  {
    if !(0 <= minutes < 1440) then
      Err(ValueError)
    else
      var hours, mins := minutes / 60, minutes % 60;
      PaddedField(hours);
      PaddedField(mins);
      var hh, mm := ZeroPad(Decimal(hours)), ZeroPad(Decimal(mins));
      var s := hh + ":" + mm;
      assert s[0] == hh[0] && s[1] == hh[1] && s[2] == ':' && s[3] == mm[0] && s[4] == mm[1];
      Ok(s)
  }

  /** Reading the text back gives the number of minutes. */
  lemma MinutesToTimeRoundTrip(minutes: int)
    requires 0 <= minutes < 1440
    ensures ReadTime(MinutesToTime(minutes).value) == minutes
  {
    var s := MinutesToTime(minutes).value;
    assert (minutes / 60) * 60 + minutes % 60 == minutes;
  }

  /** Different numbers of minutes give different texts. */
  lemma MinutesToTimeInjective(a: int, b: int)
    requires 0 <= a < 1440 && 0 <= b < 1440
    requires MinutesToTime(a) == MinutesToTime(b)
    ensures a == b
  {
    MinutesToTimeRoundTrip(a);
    MinutesToTimeRoundTrip(b);
  }
}
