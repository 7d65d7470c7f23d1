/**
  The currency pane's `compute`: the amount check, the same-currency short
  cut and the choice of the rate (a custom rate, else the preset for the
  currency pair, else an error). The figures are reals; `toFixed` rounding is
  not modelled.
 */
module CurrencyCalc {
  import opened Common

  /** The offline rates, keyed `FROM->TO`. */
  const Presets: map<string, real> := map[
    "USD->EUR" := 0.92,
    "EUR->USD" := 1.09,
    "USD->INR" := 83.0,
    "INR->USD" := 0.012,
    "USD->JPY" := 150.0,
    "JPY->USD" := 0.0067,
    "GBP->EUR" := 1.15,
    "EUR->GBP" := 0.87
  ]

  /** The currencies of the two dropdowns. */
  const Currencies: seq<string> := ["USD", "EUR", "GBP", "JPY", "INR", "AUD", "CAD"]

  /** A preset exists only for a pair of listed currencies, and every preset
      rate is positive, so a preset lookup is truthy exactly when the key is present. */
  lemma PresetsPositive(key: string)
    requires key in Presets
    ensures Presets[key] > 0.0
    ensures exists i, j :: 0 <= i < |Currencies| && 0 <= j < |Currencies| && i != j
                           && key == PresetKey(Currencies[i], Currencies[j])
  {
    if key == "USD->EUR" { assert key == PresetKey(Currencies[0], Currencies[1]); }
    else if key == "EUR->USD" { assert key == PresetKey(Currencies[1], Currencies[0]); }
    else if key == "USD->INR" { assert key == PresetKey(Currencies[0], Currencies[4]); }
    else if key == "INR->USD" { assert key == PresetKey(Currencies[4], Currencies[0]); }
    else if key == "USD->JPY" { assert key == PresetKey(Currencies[0], Currencies[3]); }
    else if key == "JPY->USD" { assert key == PresetKey(Currencies[3], Currencies[0]); }
    else if key == "GBP->EUR" { assert key == PresetKey(Currencies[2], Currencies[1]); }
    else { assert key == PresetKey(Currencies[1], Currencies[2]); }
  }

  /** The preset key of a currency pair. */
  function PresetKey(from: string, to: string): string {
    from + "->" + to
  }

  /** `x > 0` on a parsed number; false for NaN. */
  predicate Positive(x: Number) {
    x.Num? && x.value > 0.0
  }

  /** `amount >= 0` on a parsed number; false for NaN. */
  predicate ValidAmount(x: Number) {
    x.Num? && x.value >= 0.0
  }

  /** The rate the pane converts with: the custom rate when it is positive,
      otherwise the preset for the pair, if there is one. */
  function SelectRate(from: string, to: string, rateInput: Number): (r: Option<real>)
    ensures r.Some? ==> r.value > 0.0
    ensures Positive(rateInput) ==> r == Some(rateInput.value)
    ensures !Positive(rateInput) ==> (r.Some? <==> PresetKey(from, to) in Presets)
    ensures !Positive(rateInput) && PresetKey(from, to) in Presets ==> r == Some(Presets[PresetKey(from, to)])
  {
    if Positive(rateInput) then Some(rateInput.value)
    else if PresetKey(from, to) in Presets then
      PresetsPositive(PresetKey(from, to));
      Some(Presets[PresetKey(from, to)])
    else None
  }

  /** What the pane shows: the amount alone, or the amount and the rate it is
      multiplied by. */
  datatype Conversion =
    | SameCurrency(amount: real)
    | Converted(amount: real, rate: real)

  /** `currencyCalc.compute`. The preset dropdown only ever selects the rate
      the pair's preset would give anyway, so it does not appear in the result. */
  method Convert(amount: Number, from: string, to: string, rateInput: Number, preset: string)
    returns (r: Result<Conversion, string>)
    ensures !ValidAmount(amount) ==> r == Failure("Enter a valid amount.")
    ensures ValidAmount(amount) && from == to ==> r == Success(SameCurrency(amount.value))
    ensures ValidAmount(amount) && from != to && SelectRate(from, to, rateInput).None? ==>
              r == Failure("Provide a valid rate or choose a preset.")
    ensures ValidAmount(amount) && from != to && SelectRate(from, to, rateInput).Some? ==>
              r == Success(Converted(amount.value, SelectRate(from, to, rateInput).value))
  {
    if !ValidAmount(amount) {
      return Failure("Enter a valid amount.");
    }
    if from == to {
      return Success(SameCurrency(amount.value));
    }
    var rate := rateInput;
    if !Positive(rate) {
      var key := PresetKey(from, to);
      if preset != "" && preset in Presets && preset == key {
        rate := Num(Presets[key]);
      } else if key in Presets {
        rate := Num(Presets[key]);
      }
      if key in Presets {
        PresetsPositive(key);
      }
    }
    if !Positive(rate) {
      return Failure("Provide a valid rate or choose a preset.");
    }
    r := Success(Converted(amount.value, rate.value));
  }

  /** The table has no preset for the Australian and Canadian dollars: they
      convert only with a custom rate. */
  lemma NeedsCustomRate(from: string, to: string, rateInput: Number)
    requires !Positive(rateInput)
    requires from == "AUD" || from == "CAD" || to == "AUD" || to == "CAD"
    ensures SelectRate(from, to, rateInput) == None
  {
    var key := PresetKey(from, to);
    if key in Presets {
      PresetEnds(key);
    }
  }

  /** Every preset key starts and ends with a currency other than AUD and CAD. */
  lemma PresetEnds(key: string)
    requires key in Presets
    ensures |key| == 8
    ensures key[..3] != "AUD" && key[..3] != "CAD" && key[5..] != "AUD" && key[5..] != "CAD"
  {
    var from, to := key[..3], key[5..];
    assert from[0] == key[0] && to[0] == key[5];
  }
}
