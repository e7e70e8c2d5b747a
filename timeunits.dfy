/** Time-unit conversion: `time_unit_converter` of matiq.py and its nested
    `unit_reader`. Numbers are exact reals; the text rendering of the
    number is not modelled, the converted value and the unit word are. */
module TimeUnits {
  import opened Wrappers

  datatype TimeUnit = Second | Minute | Hour | Day | Week | Month | Year

  /** The order in which `unit_reader` tries the units. */
  const Units: seq<TimeUnit> := [Second, Minute, Hour, Day, Week, Month, Year]

  function Position(u: TimeUnit): (i: nat)
    ensures i < |Units| && Units[i] == u
  {
    match u
    case Second => 0
    case Minute => 1
    case Hour => 2
    case Day => 3
    case Week => 4
    case Month => 5
    case Year => 6
  }

  function Name(u: TimeUnit): string {
    match u
    case Second => "second"
    case Minute => "minute"
    case Hour => "hour"
    case Day => "day"
    case Week => "week"
    case Month => "month"
    case Year => "year"
  }

  /** `str.lower` on ASCII letters. */
  function Lower(s: string): (r: string)
    ensures |r| == |s|
  {
    if s == [] then []
    else
      var c := s[0];
      [if 'A' <= c <= 'Z' then (c as int + 32) as char else c] + Lower(s[1..])
  }

  /** `needle` occurs in `hay` starting at position `i`. */
  predicate OccursAt(needle: string, hay: string, i: int) {
    0 <= i && i + |needle| <= |hay| && hay[i..i + |needle|] == needle
  }

  /** `needle in hay` for strings. */
  function Occurs(needle: string, hay: string): bool
    decreases |hay|
  {
    if |needle| > |hay| then false
    else hay[..|needle|] == needle || Occurs(needle, hay[1..])
  }

  /** `Occurs` is substring search: it holds exactly when the needle
      occurs at some position of the haystack. */
  lemma {:induction false} OccursAtSomePosition(needle: string, hay: string)
    ensures Occurs(needle, hay) <==> exists i :: OccursAt(needle, hay, i)
    decreases |hay|
  {
    if |needle| > |hay| {
    } else if hay[..|needle|] == needle {
      assert OccursAt(needle, hay, 0);
    } else {
      OccursAtSomePosition(needle, hay[1..]);
      assert forall i :: OccursAt(needle, hay[1..], i) ==> OccursAt(needle, hay, i + 1);
      assert forall i :: OccursAt(needle, hay, i) ==> i == 0 || OccursAt(needle, hay[1..], i - 1);
    }
  }

  /** `arg` names unit `u`: the word of `u` occurs in the lower-cased
      argument and the word of no unit tried before it does. */
  ghost predicate Resolves(arg: string, u: TimeUnit) {
    Occurs(Name(u), Lower(arg)) &&
    forall v :: Position(v) < Position(u) ==> !Occurs(Name(v), Lower(arg))
  }

  ghost predicate Unresolvable(arg: string) {
    forall u :: !Occurs(Name(u), Lower(arg))
  }

  /** `unit_reader(arg)`: the first unit whose word is a substring of the
      lower-cased argument; ValueError if there is none. */
  method UnitReader(arg: string) returns (r: Result<TimeUnit>)
    ensures r.Ok? ==> Resolves(arg, r.value)
    ensures r.Err? ==> r.error == ValueError && Unresolvable(arg)
  {
    var lowered := Lower(arg);
    for i := 0 to |Units|
      invariant forall j :: 0 <= j < i ==> !Occurs(Name(Units[j]), lowered)
    {
      if Occurs(Name(Units[i]), lowered) {
        forall v | Position(v) < i
          ensures !Occurs(Name(v), lowered)
        {
          assert Units[Position(v)] == v;
        }
        return Ok(Units[i]);
      }
    }
    forall u
      ensures !Occurs(Name(u), lowered)
    {
      assert Units[Position(u)] == u;
    }
    return Err(ValueError);
  }

  // ---------------------------------------------------------------------------
  // The conversion table

  /** Units of a fixed length in seconds. */
  predicate Clocked(u: TimeUnit) {
    u != Month && u != Year
  }

  function Seconds(u: TimeUnit): (s: real)
    requires Clocked(u)
    ensures s > 0.0
  {
    match u
    case Second => 1.0
    case Minute => 60.0
    case Hour => 3600.0
    case Day => 86400.0
    case Week => 604800.0
  }

  /** Calendar units counted per year. */
  predicate Calendar(u: TimeUnit) {
    u == Month || u == Week || u == Day
  }

  function PerYear(u: TimeUnit): (n: real)
    requires Calendar(u)
    ensures n > 0.0
  {
    match u
    case Month => 12.0
    case Week => 52.0
    case Day => 365.0
  }

  /** `x` units `a` expressed in units `b`, if the two are convertible:
      between clocked units by their lengths in seconds, from a year to a
      calendar unit by its count per year and back. Every other pair
      (anything to or from a month other than the year, a year to a year,
      a clocked unit shorter than a day to a year) is not convertible. */
  function Convert(x: real, a: TimeUnit, b: TimeUnit): Option<real> {
    if Clocked(a) && Clocked(b) then Some(x * Seconds(a) / Seconds(b))
    else if a == Year && Calendar(b) then Some(x * PerYear(b))
    else if b == Year && Calendar(a) then Some(x / PerYear(a))
    else None
  }

  lemma ConvertClocked(x: real, a: TimeUnit, b: TimeUnit)
    requires Clocked(a) && Clocked(b)
    ensures Convert(x, a, b) == Some(x * Seconds(a) / Seconds(b))
  {
  }

  lemma ConvertFromYear(x: real, b: TimeUnit, c: real)
    requires Calendar(b) && c == PerYear(b)
    ensures Convert(x, Year, b) == Some(x * c)
  {
  }

  lemma ConvertToYear(x: real, a: TimeUnit, c: real)
    requires Calendar(a) && c == PerYear(a)
    ensures Convert(x, a, Year) == Some(x / c)
  {
  }

  lemma Cancel(x: real, y: real, z: real, p: real)
    requires y > 0.0 && z > 0.0 && p == x * y / z
    ensures p * z / y == x
  {
    assert p * z == x * y;
  }

  lemma Through(x: real, y: real, z: real, w: real)
    requires z > 0.0 && w > 0.0
    ensures x * y / z * z / w == x * y / w
  {
    var p := x * y / z;
    assert p * z == x * y;
  }

  /** A unit converts to itself exactly when it is clocked; a month to a
      month or a year to a year is refused. */
  lemma ConvertSameUnit(x: real, u: TimeUnit)
    ensures Convert(x, u, u) == if Clocked(u) then Some(x) else None
  {
    if Clocked(u) {
      ConvertClocked(x, u, u);
      Undo(x * Seconds(u), Seconds(u));
      assert x * Seconds(u) / Seconds(u) == x;
    }
  }

  /** The pairs that are convertible. */
  lemma Convertible(x: real, a: TimeUnit, b: TimeUnit)
    ensures Convert(x, a, b).Some? <==>
      (Clocked(a) && Clocked(b)) || (a == Year && Calendar(b)) || (b == Year && Calendar(a))
  {
  }

  lemma Undo(x: real, k: real)
    requires k > 0.0
    ensures x * k / k == x && x / k * k == x
  {
  }

  lemma ClockedRoundTrip(x: real, a: TimeUnit, b: TimeUnit)
    requires Clocked(a) && Clocked(b)
    ensures Convert(Convert(x, a, b).value, b, a) == Some(x)
  {
    var y := x * Seconds(a) / Seconds(b);
    ConvertClocked(x, a, b);
    ConvertClocked(y, b, a);
    Cancel(x, Seconds(a), Seconds(b), y);
    assert Convert(x, a, b).value == y;
  }

  lemma CalendarRoundTrip(x: real, u: TimeUnit)
    requires Calendar(u)
    ensures Convert(Convert(x, Year, u).value, u, Year) == Some(x)
    ensures Convert(Convert(x, u, Year).value, Year, u) == Some(x)
  {
    ConvertFromYear(x, u, PerYear(u));
    ConvertToYear(x * PerYear(u), u, PerYear(u));
    ConvertToYear(x, u, PerYear(u));
    ConvertFromYear(x / PerYear(u), u, PerYear(u));
    Undo(x, PerYear(u));
  }

  /** Convertibility is symmetric, and converting back restores the number. */
  lemma ConvertRoundTrip(x: real, a: TimeUnit, b: TimeUnit)
    requires Convert(x, a, b).Some?
    ensures Convert(Convert(x, a, b).value, b, a) == Some(x)
  {
    Convertible(x, a, b);
    if Clocked(a) && Clocked(b) {
      ClockedRoundTrip(x, a, b);
    } else if a == Year {
      CalendarRoundTrip(x, b);
    } else {
      CalendarRoundTrip(x, a);
    }
  }

  /** Between clocked units, converting through a third unit is the same
      as converting directly. */
  lemma ConvertCompose(x: real, a: TimeUnit, b: TimeUnit, c: TimeUnit)
    requires Clocked(a) && Clocked(b) && Clocked(c)
    ensures Convert(Convert(x, a, b).value, b, c) == Convert(x, a, c)
  {
    var y := x * Seconds(a) / Seconds(b);
    ConvertClocked(x, a, b);
    ConvertClocked(y, b, c);
    ConvertClocked(x, a, c);
    Through(x, Seconds(a), Seconds(b), Seconds(c));
  }

  /** A converted number with its unit word. */
  datatype Reading = Reading(value: real, unit: string)

  /** The unit word is pluralised unless the number is exactly 1. */
  function Word(u: TimeUnit, value: real): string {
    if value != 1.0 then Name(u) + "s" else Name(u)
  }

  /** The outcome of converting `number` from unit `a` to unit `b`:
      ValueError for a pair that is not convertible, otherwise the
      converted number and its unit word. */
  function Outcome(number: real, a: TimeUnit, b: TimeUnit): Result<Reading> {
    match Convert(number, a, b)
    case None => Err(ValueError)
    case Some(v) => Ok(Reading(v, Word(b, v)))
  }

  /** `time_unit_converter(number, unit_in, unit_out)`: both units are
      resolved (the input first), then the number is converted or
      ValueError is raised. */
  method TimeUnitConverter(number: real, unitIn: string, unitOut: string) returns (r: Result<Reading>)
    ensures Unresolvable(unitIn) ==> r == Err(ValueError)
    ensures forall a :: Resolves(unitIn, a) && Unresolvable(unitOut) ==> r == Err(ValueError)
    ensures forall a, b :: Resolves(unitIn, a) && Resolves(unitOut, b) ==> r == Outcome(number, a, b)
  {
    var source := UnitReader(unitIn);
    if source.Err? {
      return Err(source.error);
    }
    var target := UnitReader(unitOut);
    if target.Err? {
      return Err(target.error);
    }
    var a, b := source.value, target.value;
    var n := Rescaled(number, a, b);
    if n.None? {
      r := Err(ValueError);
    } else {
      var word := Name(b);
      if n.value != 1.0 {
        word := word + "s";
      }
      r := Ok(Reading(n.value, word));
    }
    ResolvesUnique(unitIn, a);
    ResolvesUnique(unitOut, b);
  }

  /** The branches of `time_unit_converter` after both units are resolved:
      the number rescaled in place, or None where the source raises
      ValueError. The branches agree with the conversion table. */
  method Rescaled(number: real, a: TimeUnit, b: TimeUnit) returns (r: Option<real>)
    ensures r == Convert(number, a, b)
  {
    var n := number;
    if a == Year {
      if b == Month {
        n := n * 12.0;
        ConvertFromYear(number, b, 12.0);
        return Some(n);
      } else if b == Week {
        n := n * 52.0;
        ConvertFromYear(number, b, 52.0);
        return Some(n);
      } else if b == Day {
        n := n * 365.0;
        ConvertFromYear(number, b, 365.0);
        return Some(n);
      } else {
        return None;
      }
    } else if a == Month {
      if b == Year {
        n := n / 12.0;
        ConvertToYear(number, a, 12.0);
        return Some(n);
      } else {
        return None;
      }
    } else {
      if a == Week && b == Year {
        n := n / 52.0;
        ConvertToYear(number, a, 52.0);
        return Some(n);
      } else if a == Day && b == Year {
        n := n / 365.0;
        ConvertToYear(number, a, 365.0);
        return Some(n);
      } else if b == Month || b == Year {
        return None;
      } else {
        n := n * Seconds(a) / Seconds(b);
        ConvertClocked(number, a, b);
        return Some(n);
      }
    }
  }

  /** An argument names at most one unit, and a named argument is not
      unresolvable. */
  lemma ResolvesUnique(arg: string, u: TimeUnit)
    requires Resolves(arg, u)
    ensures forall v :: Resolves(arg, v) ==> v == u
    ensures !Unresolvable(arg)
  {
  }
}
