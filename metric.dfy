/** Metric and imperial conversion: `valid_metric`, `convert_measurement`
    and `convert_imperial` of matiq.py. Python floats become exact reals. */
module Metric {
  import opened Wrappers

  /** The prefixes `valid_metric` accepts, in its order. The two lists are
      kept as sequences to build the token table `MetricUnits` from;
      membership is tested with `IsPrefix` and `IsBaseUnit`, which spell the
      same sets out as comparisons (cheaper for the verifier than membership
      in a sequence display). `TableParts` ties the two forms together. */
  const Prefixes: seq<string> := ["m", "c", "d", "", "da", "h", "k"]
  /** The base units: metre, gram, litre. */
  const BaseUnits: seq<char> := ['m', 'g', 'l']

  /** Membership in `Prefixes`, spelled out. */
  predicate IsPrefix(p: string) {
    p == "m" || p == "c" || p == "d" || p == "" || p == "da" || p == "h" || p == "k"
  }

  /** Membership in `BaseUnits`, spelled out. */
  predicate IsBaseUnit(c: char) {
    c == 'm' || c == 'g' || c == 'l'
  }

  /** Every token `valid_metric` accepts: a prefix followed by a base unit
      letter (metre, gram, litre). */
  const MetricUnits: seq<string> := [
    "mm", "cm", "dm", "m", "dam", "hm", "km",
    "mg", "cg", "dg", "g", "dag", "hg", "kg",
    "ml", "cl", "dl", "l", "dal", "hl", "kl"]

  /** The base unit of a token: its last character. */
  function Base(unit: string): char
    requires unit != []
  {
    unit[|unit| - 1]
  }

  /** The prefix of a token: everything before its last character. */
  function Prefix(unit: string): string
    requires unit != []
  {
    unit[..|unit| - 1]
  }

  /** `valid_metric(unit)`: the last character is a base unit and the rest
      a prefix. Python evaluates `unit[-1]` first, which raises IndexError
      on the empty string. */
  function ValidMetric(unit: string): (r: Result<bool>)
    ensures r.Err? <==> unit == []
    ensures r.Err? ==> r.error == IndexError
  {
    if unit == [] then Err(IndexError)
    else Ok(IsBaseUnit(Base(unit)) && IsPrefix(Prefix(unit)))
  }

  predicate IsMetric(unit: string) {
    ValidMetric(unit) == Ok(true)
  }

  /** Every token of the table is a prefix followed by a base unit. */
  lemma TableEntry(i: nat, j: nat)
    requires i < 7 && j < 3
    ensures MetricUnits[7 * j + i] == Prefixes[i] + [BaseUnits[j]]
  {
  }

  lemma MetricIsTableToken(unit: string)
    requires IsMetric(unit)
    ensures unit in MetricUnits
  {
    var p, b := Prefix(unit), Base(unit);
    assert unit == p + [b];
    var i := if p == "m" then 0 else if p == "c" then 1 else if p == "d" then 2
      else if p == "" then 3 else if p == "da" then 4 else if p == "h" then 5 else 6;
    var j := if b == 'm' then 0 else if b == 'g' then 1 else 2;
    assert Prefixes[i] == p && BaseUnits[j] == b;
    TableEntry(i, j);
    assert MetricUnits[7 * j + i] == unit;
  }

  lemma TableParts(i: nat, j: nat)
    requires i < 7 && j < 3
    ensures IsPrefix(Prefixes[i]) && IsBaseUnit(BaseUnits[j])
    ensures Prefix(MetricUnits[7 * j + i]) == Prefixes[i] && Base(MetricUnits[7 * j + i]) == BaseUnits[j]
  {
    var unit := MetricUnits[7 * j + i];
    TableEntry(i, j);
    assert unit[..|unit| - 1] == Prefixes[i];
  }

  lemma TableTokenIsMetric(unit: string)
    requires unit in MetricUnits
    ensures IsMetric(unit)
  {
    var k :| 0 <= k < |MetricUnits| && MetricUnits[k] == unit;
    TableParts(k % 7, k / 7);
    assert 7 * (k / 7) + k % 7 == k;
  }

  /** The prefix/base split accepts exactly the 21 prefix-unit tokens; in
      particular "m" is the metre and "mm" the millimetre. */
  lemma ValidMetricTokens(unit: string)
    ensures IsMetric(unit) <==> unit in MetricUnits
  {
    if IsMetric(unit) {
      MetricIsTableToken(unit);
    }
    if unit in MetricUnits {
      TableTokenIsMetric(unit);
    }
  }

  /** The multiplier of each prefix. */
  function PrefixFactor(p: string): (f: real)
    requires IsPrefix(p)
    ensures f > 0.0
  {
    if p == "m" then 0.001
    else if p == "c" then 0.01
    else if p == "d" then 0.1
    else if p == "" then 1.0
    else if p == "da" then 10.0
    else if p == "h" then 100.0
    else 1000.0
  }

  /** How many base units one of `unit` is. */
  function Scale(unit: string): (f: real)
    requires IsMetric(unit)
    ensures f > 0.0
  {
    PrefixFactor(Prefix(unit))
  }

  /** `convert_measurement(number, unit_in, unit_out)`: NameError (or
      IndexError for an empty token) if a token is invalid, `unit_in`
      checked first; TypeError if the base units differ; otherwise the
      number rescaled by the ratio of the prefix multipliers. */
  function ConvertMeasurement(number: real, unitIn: string, unitOut: string): (r: Result<real>)
    ensures unitIn == [] ==> r == Err(IndexError)
    ensures ValidMetric(unitIn) == Ok(false) ==> r == Err(NameError)
    ensures IsMetric(unitIn) && unitOut == [] ==> r == Err(IndexError)
    ensures IsMetric(unitIn) && ValidMetric(unitOut) == Ok(false) ==> r == Err(NameError)
    ensures IsMetric(unitIn) && IsMetric(unitOut) ==>
      (r.Err? <==> Base(unitIn) != Base(unitOut)) && (r.Err? ==> r.error == TypeError)
    ensures r.Ok? ==> IsMetric(unitIn) && IsMetric(unitOut) && Base(unitIn) == Base(unitOut)
    ensures r.Ok? ==> r.value * Scale(unitOut) == number * Scale(unitIn)
  {
    match ValidMetric(unitIn)
    case Err(e) => Err(e)
    case Ok(false) => Err(NameError)
    case Ok(true) =>
      match ValidMetric(unitOut)
      case Err(e) => Err(e)
      case Ok(false) => Err(NameError)
      case Ok(true) =>
        if Base(unitIn) != Base(unitOut) then
          Err(TypeError)
        else
          Ok(number * Scale(unitIn) / Scale(unitOut))
  }

  lemma RescaleTwice(x: real, sa: real, sb: real, sc: real)
    requires sa > 0.0 && sb > 0.0 && sc > 0.0
    ensures x * sa / sb * sb / sc == x * sa / sc
    ensures x * sa / sb * sb / sa == x
  {
    assert x * sa / sb * sb == x * sa;
  }

  /** What a successful conversion computes. */
  lemma ConvertValue(x: real, a: string, b: string)
    requires ConvertMeasurement(x, a, b).Ok?
    ensures IsMetric(a) && IsMetric(b) && Base(a) == Base(b)
    ensures ConvertMeasurement(x, a, b).value == x * Scale(a) / Scale(b)
  {
  }

  /** Every conversion between metric units of one quantity succeeds. */
  lemma ConvertDefined(x: real, a: string, b: string)
    requires IsMetric(a) && IsMetric(b) && Base(a) == Base(b)
    ensures ConvertMeasurement(x, a, b) == Ok(x * Scale(a) / Scale(b))
  {
  }

  /** Converting back recovers the original number. */
  lemma ConvertRoundTrip(x: real, a: string, b: string)
    requires ConvertMeasurement(x, a, b).Ok?
    ensures ConvertMeasurement(ConvertMeasurement(x, a, b).value, b, a) == Ok(x)
  {
    ConvertValue(x, a, b);
    var y := ConvertMeasurement(x, a, b).value;
    ConvertDefined(y, b, a);
    RescaleTwice(x, Scale(a), Scale(b), Scale(a));
    assert y * Scale(b) / Scale(a) == x;
  }

  /** Converting in two steps is converting in one. */
  lemma ConvertCompose(x: real, a: string, b: string, c: string)
    requires ConvertMeasurement(x, a, b).Ok?
    requires ConvertMeasurement(ConvertMeasurement(x, a, b).value, b, c).Ok?
    ensures ConvertMeasurement(ConvertMeasurement(x, a, b).value, b, c) == ConvertMeasurement(x, a, c)
  {
    ConvertValue(x, a, b);
    ConvertDefined(ConvertMeasurement(x, a, b).value, b, c);
    ConvertDefined(x, a, c);
    RescaleTwice(x, Scale(a), Scale(b), Scale(c));
  }

  // ---------------------------------------------------------------------------
  // convert_imperial

  /** The imperial units `convert_imperial` recognises. */
  datatype Imperial = Inch | Pound | Pint | Mile

  /** The spellings of each imperial unit, checked in this order. */
  function ImperialOf(unit: string): Option<Imperial> {
    if unit == "inch" || unit == "inches" then Some(Inch)
    else if unit == "lb" || unit == "lbs" || unit == "pounds" then Some(Pound)
    else if unit == "pint" || unit == "pints" then Some(Pint)
    else if unit == "mile" || unit == "miles" then Some(Mile)
    else None
  }

  /** The metric unit each imperial unit is bridged through. */
  function Bridge(k: Imperial): string {
    match k
    case Inch => "cm"
    case Pound => "kg"
    case Pint => "ml"
    case Mile => "km"
  }

  /** How many bridge units one imperial unit is taken to be. */
  function Rate(k: Imperial): real {
    match k
    case Inch => 2.5
    case Pound => 1.0 / 2.2
    case Pint => 568.0
    case Mile => 1.6
  }

  /** One imperial unit in base units (metres, grams, litres), from the
      same constants: an inch is 0.025 m, a pound 1000/2.2 g, a pint
      0.568 l, a mile 1600 m. */
  function InBaseUnits(k: Imperial): real {
    match k
    case Inch => 0.025
    case Pound => 1000.0 / 2.2
    case Pint => 0.568
    case Mile => 1600.0
  }

  lemma BridgeIsMetric(k: Imperial)
    ensures IsMetric(Bridge(k)) && Scale(Bridge(k)) * Rate(k) == InBaseUnits(k)
    ensures Base(Bridge(k)) == Bridge(k)[1]
  {
    var u := Bridge(k);
    assert Prefix(u) == [u[0]] && Base(u) == u[1];
  }

  /** No spelling of an imperial unit is a metric token. */
  lemma ImperialNotMetric(unit: string)
    requires ImperialOf(unit).Some?
    ensures ValidMetric(unit) == Ok(false)
  {
  }

  /** The number of bridge units in `number` of imperial unit `k`, with
      the constants of `convert_imperial`'s input side. */
  function Inward(k: Imperial, number: real): (amount: real)
    ensures IsMetric(Bridge(k)) && amount * Scale(Bridge(k)) == number * InBaseUnits(k)
  {
    BridgeIsMetric(k);
    match k
    case Inch => number * 2.5
    case Pound => number / 2.2
    case Pint => number * 568.0
    case Mile => number * 1.6
  }

  /** The number of imperial units `k` in `number` bridge units, with the
      constants of `convert_imperial`'s output side. */
  function Outward(k: Imperial, number: real): (amount: real)
    ensures IsMetric(Bridge(k)) && amount * InBaseUnits(k) == number * Scale(Bridge(k))
  {
    BridgeIsMetric(k);
    match k
    case Inch => number / 2.5
    case Pound => number * 2.2
    case Pint => number / 568.0
    case Mile => number / 1.6
  }

  /** The input-side branches of `convert_imperial`: the number in the
      imperial unit `k` is turned into bridge units and then converted. */
  function FromImperial(k: Imperial, unitOut: string, number: real): Result<real> {
    ConvertMeasurement(Inward(k, number), Bridge(k), unitOut)
  }

  /** The output-side branches of `convert_imperial`: the number is converted
      to bridge units and then turned into the imperial unit `k`. */
  function ToImperial(unitIn: string, k: Imperial, number: real): Result<real> {
    ConvertMeasurement(Outward(k, number), unitIn, Bridge(k))
  }

  /** Converting from an imperial unit keeps the amount in base units. */
  lemma FromImperialConserves(k: Imperial, unitOut: string, number: real)
    requires FromImperial(k, unitOut, number).Ok?
    ensures IsMetric(unitOut)
    ensures FromImperial(k, unitOut, number).value * Scale(unitOut) == number * InBaseUnits(k)
  {
    var amount := Inward(k, number);
    var y := ConvertMeasurement(amount, Bridge(k), unitOut).value;
    assert y * Scale(unitOut) == amount * Scale(Bridge(k));
  }

  /** Converting to an imperial unit keeps the amount in base units. */
  lemma ToImperialConserves(unitIn: string, k: Imperial, number: real)
    requires ToImperial(unitIn, k, number).Ok?
    ensures IsMetric(unitIn)
    ensures ToImperial(unitIn, k, number).value * InBaseUnits(k) == number * Scale(unitIn)
  {
    var amount := Outward(k, number);
    var y := ConvertMeasurement(amount, unitIn, Bridge(k)).value;
    assert y * Scale(Bridge(k)) == amount * Scale(unitIn);
    assert amount * InBaseUnits(k) == number * Scale(Bridge(k));
  }

  /** `convert_imperial(unit_in, unit_out, number)`: the input side is
      checked against every imperial unit before the output side; the
      number is taken through the bridge unit with a fixed rate and the rest
      is `convert_measurement`. NameError when neither side is imperial. */
  function ConvertImperial(unitIn: string, unitOut: string, number: real := 1.0): (r: Result<real>)
    ensures ImperialOf(unitIn).None? && ImperialOf(unitOut).None? ==> r == Err(NameError)
    ensures r.Ok? ==> (ImperialOf(unitIn).Some? ==> IsMetric(unitOut))
    ensures r.Ok? ==> (ImperialOf(unitIn).None? ==> IsMetric(unitIn) && ImperialOf(unitOut).Some?)
    // an imperial input: the output side is judged by `convert_measurement`
    ensures ImperialOf(unitIn).Some? ==>
      (unitOut == [] ==> r == Err(IndexError)) &&
      (ValidMetric(unitOut) == Ok(false) ==> r == Err(NameError)) &&
      (IsMetric(unitOut) ==>
        (r.Ok? <==> Base(unitOut) == Base(Bridge(ImperialOf(unitIn).value))) &&
        (r.Err? ==> r.error == TypeError))
    // a metric input and an imperial output: the input side is judged likewise
    ensures ImperialOf(unitIn).None? && ImperialOf(unitOut).Some? ==>
      (unitIn == [] ==> r == Err(IndexError)) &&
      (ValidMetric(unitIn) == Ok(false) ==> r == Err(NameError)) &&
      (IsMetric(unitIn) ==>
        (r.Ok? <==> Base(unitIn) == Base(Bridge(ImperialOf(unitOut).value))) &&
        (r.Err? ==> r.error == TypeError))
  {
    var source, target := ImperialOf(unitIn), ImperialOf(unitOut);
    if source.Some? then
      FromImperial(source.value, unitOut, number)
    else if target.Some? then
      ToImperial(unitIn, target.value, number)
    else
      Err(NameError)
  }

  /** A successful conversion measures the same quantity on both sides:
      the amount in base units (metres, grams, litres) is unchanged. */
  lemma ImperialConserves(unitIn: string, unitOut: string, number: real, k: Imperial)
    requires ConvertImperial(unitIn, unitOut, number).Ok?
    ensures ImperialOf(unitIn) == Some(k) ==>
      IsMetric(unitOut) &&
      ConvertImperial(unitIn, unitOut, number).value * Scale(unitOut) == number * InBaseUnits(k)
    ensures ImperialOf(unitIn).None? && ImperialOf(unitOut) == Some(k) ==>
      IsMetric(unitIn) &&
      ConvertImperial(unitIn, unitOut, number).value * InBaseUnits(k) == number * Scale(unitIn)
  {
    var y := ConvertImperial(unitIn, unitOut, number);
    if ImperialOf(unitIn) == Some(k) {
      assert y == FromImperial(k, unitOut, number);
      FromImperialConserves(k, unitOut, number);
    } else if ImperialOf(unitIn).None? && ImperialOf(unitOut) == Some(k) {
      assert y == ToImperial(unitIn, k, number);
      ToImperialConserves(unitIn, k, number);
    }
  }

  /** Between two imperial units there is no conversion: the output side is
      handed to `convert_measurement`, which rejects it. */
  lemma ImperialToImperial(unitIn: string, unitOut: string, number: real)
    requires ImperialOf(unitIn).Some? && ImperialOf(unitOut).Some?
    ensures ConvertImperial(unitIn, unitOut, number) == Err(NameError)
  {
    ImperialNotMetric(unitOut);
  }

  /** Both bridge directions are multiplications by the rate: the input
      side multiplies by it, the output side undoes that. */
  lemma BridgeByRate(k: Imperial, x: real, t: real)
    ensures Rate(k) > 0.0
    ensures Inward(k, x) == x * Rate(k)
    ensures Outward(k, t) * Rate(k) == t
  {
  }

  lemma UndoRate(x: real, rate: real, sa: real, sb: real, w: real, y: real, v: real)
    requires rate > 0.0 && sa > 0.0 && sb > 0.0
    requires w == x * rate && y * sb == w * sa && v * rate == y
    ensures v * sb / sa == x
  {
    assert v * rate * sb == x * rate * sa;
    assert v * sb == x * sa;
  }

  /** Through one bridge unit and back. */
  lemma BridgeRoundTrip(k: Imperial, unit: string, x: real)
    requires FromImperial(k, unit, x).Ok?
    ensures ToImperial(unit, k, FromImperial(k, unit, x).value) == Ok(x)
  {
    var w := Inward(k, x);
    var y := ConvertMeasurement(w, Bridge(k), unit).value;
    ConvertValue(w, Bridge(k), unit);
    var v := Outward(k, y);
    BridgeByRate(k, x, y);
    assert v * Scale(unit) / Scale(Bridge(k)) == x by {
      UndoRate(x, Rate(k), Scale(Bridge(k)), Scale(unit), w, y, v);
    }
    ConvertDefined(v, unit, Bridge(k));
  }

  /** Converting to a metric unit and back recovers the original number. */
  lemma ImperialRoundTrip(unitIn: string, unitOut: string, x: real)
    requires ImperialOf(unitIn).Some? && ConvertImperial(unitIn, unitOut, x).Ok?
    ensures ConvertImperial(unitOut, unitIn, ConvertImperial(unitIn, unitOut, x).value) == Ok(x)
  {
    ImperialNotMetric(unitIn);
    var k := ImperialOf(unitIn).value;
    assert ImperialOf(unitOut).None? by {
      if ImperialOf(unitOut).Some? {
        ImperialNotMetric(unitOut);
      }
    }
    BridgeRoundTrip(k, unitOut, x);
  }
}
