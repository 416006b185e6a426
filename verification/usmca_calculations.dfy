/**
 * `src/utils/usmcaCalculations.js`: the regional-value-content engine. It sums the materials,
 * validates the declared total manufactured cost (TMC), computes the non-originating total, the
 * RVC percentage and the 60% verdict, builds the per-country breakdown with labour and overhead
 * folded into Mexico, and tags every component with a tariff-shift flag.
 */
module UsmcaCalculations {
  import opened Wrappers
  import opened JsStrings
  import opened Cells
  import opened Formatters
  import opened ExcelParser

  // ----- Plain JavaScript objects keyed by country -----

  /**
   * A plain object used as a dictionary: its own keys in insertion order and the value of each.
   * `Object.keys` is `keys`; `Object.values` is the values in that order.
   */
  datatype Dict<V> = Dict(keys: seq<string>, entries: map<string, V>)

  predicate Distinct(s: seq<string>) {
    forall i, j :: 0 <= i < j < |s| ==> s[i] != s[j]
  }

  /** What every object satisfies: each own key once, and exactly the keys that have a value. */
  ghost predicate WellFormed<V>(d: Dict<V>) {
    Distinct(d.keys) && forall k :: k in d.entries <==> k in d.keys
  }

  /** `d[k] = v`: a new key goes to the end of the key order, an existing one keeps its place. */
  function Put<V>(d: Dict<V>, k: string, v: V): Dict<V> {
    Dict(if k in d.entries then d.keys else d.keys + [k], d.entries[k := v])
  }

  /** Assignment keeps an object well formed: the key is listed once whether it was new or not. */
  lemma PutKeepsWellFormed<V>(d: Dict<V>, k: string, v: V)
    requires WellFormed(d)
    ensures WellFormed(Put(d, k, v))
    ensures Put(d, k, v).keys == if k in d.keys then d.keys else d.keys + [k]
    ensures forall j :: j in Put(d, k, v).entries ==> Put(d, k, v).entries[j] == if j == k then v else d.entries[j]
  {
  }

  /** The sum of `f` over the values of the given keys, added in key order. */
  function SumOver<V>(keys: seq<string>, m: map<string, V>, f: V -> real): real
    requires forall k :: k in keys ==> k in m
  {
    if keys == [] then 0.0
    else SumOver(keys[..|keys| - 1], m, f) + f(m[keys[|keys| - 1]])
  }

  // ----- Sums over the components -----

  /** `calculateTotalMaterials`: the sum of `costTotal`, accumulated from the first component. */
  function TotalMaterials(comps: seq<Component>): real {
    if comps == [] then 0.0
    else TotalMaterials(comps[..|comps| - 1]) + comps[|comps| - 1].costTotal
  }

  /** The materials bought from one country (the country text as normalised on extraction). */
  function CountrySum(comps: seq<Component>, country: string): real {
    if comps == [] then 0.0
    else
      var last := comps[|comps| - 1];
      CountrySum(comps[..|comps| - 1], country) + (if last.country == country then last.costTotal else 0.0)
  }

  /** The materials whose country is outside the trade bloc. */
  function NonOriginating(comps: seq<Component>): real {
    if comps == [] then 0.0
    else
      var last := comps[|comps| - 1];
      NonOriginating(comps[..|comps| - 1]) + (if !IsUSMCACountry(last.country) then last.costTotal else 0.0)
  }

  predicate NonNegativeCosts(comps: seq<Component>) {
    forall k :: 0 <= k < |comps| ==> comps[k].costTotal >= 0.0
  }

  /** With non-negative costs, the non-originating materials are between 0 and all materials. */
  lemma {:induction false} NonOriginatingBounds(comps: seq<Component>)
    requires NonNegativeCosts(comps)
    ensures 0.0 <= NonOriginating(comps) <= TotalMaterials(comps)
  {
    if comps != [] {
      var prefix := comps[..|comps| - 1];
      assert NonNegativeCosts(prefix) by {
        forall k | 0 <= k < |prefix| ensures prefix[k].costTotal >= 0.0 {
          assert prefix[k] == comps[k];
        }
      }
      NonOriginatingBounds(prefix);
    }
  }

  /** `calculateNonOriginatingTotal`: adds the cost of every component from outside the bloc. */
  method CalculateNonOriginatingTotal(comps: seq<Component>) returns (nonOriginatingTotal: real)
    ensures nonOriginatingTotal == NonOriginating(comps)
  {
    nonOriginatingTotal := 0.0;
    for i := 0 to |comps|
      invariant nonOriginatingTotal == NonOriginating(comps[..i])
    {
      var comp := comps[i];
      assert comps[..i + 1][..i] == comps[..i];
      if !IsUSMCACountry(comp.country) {
        nonOriginatingTotal := nonOriginatingTotal + comp.costTotal;
      }
    }
    assert comps[..|comps|] == comps;
  }

  // ----- Country breakdown -----

  /** The value `calculateCountryBreakdown` keeps per country. */
  datatype CountryTotal = CountryTotal(total: real, isUSMCA: bool)

  function TotalOf(e: CountryTotal): real {
    e.total
  }

  /** The distinct countries of the components, in order of first appearance. */
  function Countries(comps: seq<Component>): seq<string> {
    if comps == [] then []
    else
      var prev := Countries(comps[..|comps| - 1]);
      var c := comps[|comps| - 1].country;
      if c in prev then prev else prev + [c]
  }

  /** Each country of the components is listed, once, and nothing else is. */
  lemma {:induction false} CountriesListsEachOnce(comps: seq<Component>)
    ensures Distinct(Countries(comps))
    ensures forall c :: c in Countries(comps) <==> exists k :: 0 <= k < |comps| && comps[k].country == c
  {
    if comps != [] {
      var prefix := comps[..|comps| - 1];
      CountriesListsEachOnce(prefix);
      assert forall k :: 0 <= k < |prefix| ==> prefix[k] == comps[k];
      forall c | c in Countries(comps)
        ensures exists k :: 0 <= k < |comps| && comps[k].country == c
      {
        if c !in Countries(prefix) {
          assert comps[|comps| - 1].country == c;
        }
      }
      forall c | exists k :: 0 <= k < |comps| && comps[k].country == c
        ensures c in Countries(comps)
      {
        var k :| 0 <= k < |comps| && comps[k].country == c;
        if k < |prefix| {
          assert prefix[k].country == c;
        }
      }
    }
  }

  /**
   * The breakdown as a value: one entry per distinct country, in order of first appearance,
   * holding the materials bought there and whether the country belongs to the bloc.
   */
  function BreakdownOf(comps: seq<Component>): Dict<CountryTotal> {
    var keys := Countries(comps);
    Dict(keys, map c | c in keys :: CountryTotal(CountrySum(comps, c), IsUSMCACountry(c)))
  }

  /**
   * `d` is the breakdown of `comps`, stated entry by entry, for a given classification of
   * countries (the model's is `IsUSMCACountry`).
   */
  ghost predicate IsBreakdownOf(d: Dict<CountryTotal>, comps: seq<Component>, inBloc: string -> bool) {
    d.keys == Countries(comps) &&
    (forall c :: c in d.entries <==> c in d.keys) &&
    forall c :: c in d.entries ==> d.entries[c] == CountryTotal(CountrySum(comps, c), inBloc(c))
  }

  lemma BreakdownUnique(d: Dict<CountryTotal>, comps: seq<Component>)
    requires IsBreakdownOf(d, comps, IsUSMCACountry)
    ensures d == BreakdownOf(comps)
  {
    assert d.entries == BreakdownOf(comps).entries;
  }

  lemma CountrySumAbsent(comps: seq<Component>, country: string)
    requires country !in Countries(comps)
    ensures CountrySum(comps, country) == 0.0
  {
    if comps != [] {
      var prefix := comps[..|comps| - 1];
      assert forall k :: 0 <= k < |prefix| ==> prefix[k] == comps[k];
      CountrySumAbsent(prefix, country);
    }
  }

  lemma CountrySumSnoc(comps: seq<Component>, comp: Component, country: string)
    ensures CountrySum(comps + [comp], country) ==
      CountrySum(comps, country) + (if comp.country == country then comp.costTotal else 0.0)
  {
    var all := comps + [comp];
    assert all[..|all| - 1] == comps;
  }

  lemma CountriesSnoc(comps: seq<Component>, comp: Component)
    ensures Countries(comps + [comp]) ==
      if comp.country in Countries(comps) then Countries(comps) else Countries(comps) + [comp.country]
  {
    var all := comps + [comp];
    assert all[..|all| - 1] == comps;
  }

  lemma BreakdownOfIsBreakdown(comps: seq<Component>)
    ensures IsBreakdownOf(BreakdownOf(comps), comps, IsUSMCACountry)
  {
  }

  /**
   * One pass of the `forEach` body keeps the breakdown of the components visited so far:
   * `created` is the object once the country's entry exists (made at 0, with the country's bloc
   * flag, when it was missing), and adding the cost to that entry gives the breakdown of one
   * more component.
   */
  lemma LoopStepKeepsBreakdown(d: Dict<CountryTotal>, comps: seq<Component>, i: int, created: Dict<CountryTotal>,
                               inBloc: string -> bool)
    requires 0 <= i < |comps| && IsBreakdownOf(d, comps[..i], inBloc)
    requires comps[i].country !in d.entries ==>
      created == Put(d, comps[i].country, CountryTotal(0.0, inBloc(comps[i].country)))
    requires comps[i].country in d.entries ==> created == d
    ensures comps[i].country in created.entries
    ensures IsBreakdownOf(Put(created, comps[i].country, CountryTotal(created.entries[comps[i].country].total + comps[i].costTotal,
      created.entries[comps[i].country].isUSMCA)), comps[..i + 1], inBloc)
  {
    var comp, prefix := comps[i], comps[..i];
    var c := comp.country;
    var d' := Put(created, c, CountryTotal(created.entries[c].total + comp.costTotal, created.entries[c].isUSMCA));
    assert comps[..i + 1] == prefix + [comp];
    CountriesSnoc(prefix, comp);
    if c !in d.entries {
      CountrySumAbsent(prefix, c);
    }
    assert d'.keys == Countries(prefix + [comp]);
    assert forall k :: k in d'.entries <==> k in d'.keys;
    forall k | k in d'.entries
      ensures d'.entries[k] == CountryTotal(CountrySum(prefix + [comp], k), inBloc(k))
    {
      CountrySumSnoc(prefix, comp, k);
      if k != c {
        assert d'.entries[k] == d.entries[k];
      }
    }
    assert IsBreakdownOf(d', prefix + [comp], inBloc);
  }

  /** `calculateCountryBreakdown`: one `forEach` over the components, updating the object in place. */
  method CalculateCountryBreakdown(comps: seq<Component>) returns (byCountry: Dict<CountryTotal>)
    ensures byCountry == BreakdownOf(comps)
  {
    byCountry := Dict([], map[]);
    for i := 0 to |comps|
      invariant IsBreakdownOf(byCountry, comps[..i], IsUSMCACountry)
    {
      var comp := comps[i];
      var country := comp.country;
      ghost var before := byCountry;
      if country !in byCountry.entries {
        byCountry := Put(byCountry, country, CountryTotal(0.0, IsUSMCACountry(country)));
      }
      LoopStepKeepsBreakdown(before, comps, i, byCountry, IsUSMCACountry);
      var entry := byCountry.entries[country];
      byCountry := Put(byCountry, country, entry.(total := entry.total + comp.costTotal));
    }
    assert comps[..|comps|] == comps;
    BreakdownUnique(byCountry, comps);
  }

  /** The sum of the per-country materials over some keys. */
  function CountrySumOver(keys: seq<string>, comps: seq<Component>): real {
    if keys == [] then 0.0
    else CountrySumOver(keys[..|keys| - 1], comps) + CountrySum(comps, keys[|keys| - 1])
  }

  lemma {:induction false} CountrySumOverEmpty(keys: seq<string>)
    ensures CountrySumOver(keys, []) == 0.0
  {
    if keys != [] {
      CountrySumOverEmpty(keys[..|keys| - 1]);
    }
  }

  lemma {:induction false} CountrySumOverSnoc(keys: seq<string>, comps: seq<Component>, comp: Component)
    requires Distinct(keys)
    ensures CountrySumOver(keys, comps + [comp]) ==
      CountrySumOver(keys, comps) + (if comp.country in keys then comp.costTotal else 0.0)
  {
    var all := comps + [comp];
    assert all[..|all| - 1] == comps;
    if keys != [] {
      var ks := keys[..|keys| - 1];
      assert forall k :: k in keys <==> k in ks || k == keys[|keys| - 1];
      assert keys[|keys| - 1] !in ks;
      CountrySumOverSnoc(ks, comps, comp);
    }
  }

  /** Distinct keys covering every component's country split the materials without loss. */
  lemma {:induction false} CountrySumsCoverTotal(keys: seq<string>, comps: seq<Component>)
    requires Distinct(keys)
    requires forall k :: 0 <= k < |comps| ==> comps[k].country in keys
    ensures CountrySumOver(keys, comps) == TotalMaterials(comps)
  {
    if comps == [] {
      CountrySumOverEmpty(keys);
    } else {
      var prefix := comps[..|comps| - 1];
      var last := comps[|comps| - 1];
      assert comps == prefix + [last];
      assert forall k :: 0 <= k < |prefix| ==> prefix[k] == comps[k];
      CountrySumsCoverTotal(keys, prefix);
      CountrySumOverSnoc(keys, prefix, last);
    }
  }

  lemma {:induction false} BreakdownTotalsAreCountrySums(keys: seq<string>, comps: seq<Component>)
    requires forall k :: k in keys ==> k in Countries(comps)
    ensures SumOver(keys, BreakdownOf(comps).entries, TotalOf) == CountrySumOver(keys, comps)
  {
    if keys != [] {
      BreakdownTotalsAreCountrySums(keys[..|keys| - 1], comps);
    }
  }

  /**
   * The breakdown has one entry per distinct country of the components, flagged with the
   * country's membership of the bloc, and its totals add up to the total materials.
   */
  lemma BreakdownSumsToMaterials(comps: seq<Component>)
    ensures var b := BreakdownOf(comps);
      WellFormed(b) &&
      (forall c :: c in b.entries <==> exists k :: 0 <= k < |comps| && comps[k].country == c) &&
      (forall c :: c in b.entries ==> b.entries[c].isUSMCA == IsUSMCACountry(c)) &&
      SumOver(b.keys, b.entries, TotalOf) == TotalMaterials(comps)
  {
    var keys := Countries(comps);
    CountriesListsEachOnce(comps);
    forall k | 0 <= k < |comps|
      ensures comps[k].country in keys
    {
      assert comps[k].country == comps[k].country;
    }
    BreakdownTotalsAreCountrySums(keys, comps);
    CountrySumsCoverTotal(keys, comps);
  }

  // ----- Country percentages -----

  /** The value `calculateCountryPercentages` keeps per country. */
  datatype Share = Share(total: real, percentage: real, isUSMCA: bool)

  function ShareTotal(s: Share): real {
    s.total
  }

  function SharePercentage(s: Share): real {
    s.percentage
  }

  /** `total / TMC * 100`. */
  function Percent(total: real, tmc: real): real
    requires tmc != 0.0
  {
    total / tmc * 100.0
  }

  /** The object after the copying loop: every entry with its percentage of the TMC. */
  function Scaled(byCountry: Dict<CountryTotal>, tmc: real): Dict<Share>
    requires tmc != 0.0
  {
    Dict(byCountry.keys, map c | c in byCountry.entries ::
      Share(byCountry.entries[c].total, Percent(byCountry.entries[c].total, tmc), byCountry.entries[c].isUSMCA))
  }

  /** The fold into "MX": labour is added to its entry, which is created (in the bloc) if missing. */
  function FoldIntoMexico(d: Dict<Share>, laborAndOthers: real, tmc: real): Dict<Share>
    requires tmc != 0.0
  {
    if "MX" in d.entries then
      var mx := d.entries["MX"];
      var total := mx.total + laborAndOthers;
      Put(d, "MX", mx.(total := total, percentage := Percent(total, tmc)))
    else
      Put(d, "MX", Share(laborAndOthers, Percent(laborAndOthers, tmc), true))
  }

  /**
   * The percentages as a value: every breakdown entry scaled by the TMC, then labour and
   * overhead added to the "MX" entry, which is created (flagged as in the bloc) at the end of
   * the key order when no material came from "MX".
   */
  function SharesOf(byCountry: Dict<CountryTotal>, laborAndOthers: real, tmc: real): Dict<Share>
    requires tmc != 0.0
  {
    FoldIntoMexico(Scaled(byCountry, tmc), laborAndOthers, tmc)
  }

  /** The copying `forEach`: every entry with its percentage of the TMC, in key order. */
  method ScaleEntries(byCountry: Dict<CountryTotal>, tmc: real) returns (countryPercentages: Dict<Share>)
    requires WellFormed(byCountry)
    requires tmc != 0.0
    ensures countryPercentages == Scaled(byCountry, tmc)
  {
    countryPercentages := Dict([], map[]);
    for i := 0 to |byCountry.keys|
      invariant ScaledPrefix(countryPercentages, byCountry, i, tmc)
    {
      var country := byCountry.keys[i];
      var e := byCountry.entries[country];
      var percentage := (e.total / tmc) * 100.0;
      ScaleStep(byCountry, i, countryPercentages, tmc);
      countryPercentages := Put(countryPercentages, country, Share(e.total, percentage, e.isUSMCA));
    }
    ScaledComplete(byCountry, tmc, countryPercentages);
  }

  /**
   * `calculateCountryPercentages`: copies every entry with its percentage of the TMC, then folds
   * labour and overhead into "MX".
   */
  method CalculateCountryPercentages(byCountry: Dict<CountryTotal>, laborAndOthers: real, tmc: real)
    returns (countryPercentages: Dict<Share>)
    requires WellFormed(byCountry)
    requires tmc != 0.0
    ensures countryPercentages == SharesOf(byCountry, laborAndOthers, tmc)
  {
    countryPercentages := ScaleEntries(byCountry, tmc);
    if "MX" in countryPercentages.entries {
      var mx := countryPercentages.entries["MX"];
      var total := mx.total + laborAndOthers;
      countryPercentages := Put(countryPercentages, "MX", mx.(total := total, percentage := (total / tmc) * 100.0));
    } else {
      countryPercentages := Put(countryPercentages, "MX", Share(laborAndOthers, (laborAndOthers / tmc) * 100.0, true));
    }
  }

  /** Two objects with the same keys and the same value under each key are the same object. */
  lemma DictEq<V>(a: Dict<V>, b: Dict<V>)
    requires a.keys == b.keys
    requires forall k :: k in a.entries <==> k in b.entries
    requires forall k :: k in a.entries ==> a.entries[k] == b.entries[k]
    ensures a == b
  {
  }

  /** Every entry present is the breakdown entry scaled to a percentage of the TMC. */
  ghost predicate IsScaled(entries: map<string, Share>, byCountry: map<string, CountryTotal>, tmc: real)
    requires tmc != 0.0
  {
    forall c :: c in entries ==>
      c in byCountry && entries[c] == Share(byCountry[c].total, Percent(byCountry[c].total, tmc), byCountry[c].isUSMCA)
  }

  /** The copying loop's invariant: the first `n` keys, each with its scaled entry. */
  ghost predicate ScaledPrefix(d: Dict<Share>, byCountry: Dict<CountryTotal>, n: int, tmc: real)
    requires tmc != 0.0
  {
    0 <= n <= |byCountry.keys| && d.keys == byCountry.keys[..n] &&
    (forall c :: c in d.entries <==> c in d.keys) &&
    IsScaled(d.entries, byCountry.entries, tmc)
  }

  /** One pass of the copying loop: the next key is new, and its scaled entry keeps the invariant. */
  lemma ScaleStep(byCountry: Dict<CountryTotal>, i: int, d: Dict<Share>, tmc: real)
    requires WellFormed(byCountry) && tmc != 0.0 && i < |byCountry.keys|
    requires ScaledPrefix(d, byCountry, i, tmc)
    ensures ScaledPrefix(Put(d, byCountry.keys[i], Share(byCountry.entries[byCountry.keys[i]].total,
      (byCountry.entries[byCountry.keys[i]].total / tmc) * 100.0, byCountry.entries[byCountry.keys[i]].isUSMCA)),
      byCountry, i + 1, tmc)
  {
    var c := byCountry.keys[i];
    assert c !in byCountry.keys[..i];
    assert byCountry.keys[..i + 1] == byCountry.keys[..i] + [c];
  }

  /** After the copying loop the object is `Scaled`. */
  lemma ScaledComplete(byCountry: Dict<CountryTotal>, tmc: real, d: Dict<Share>)
    requires WellFormed(byCountry) && tmc != 0.0
    requires ScaledPrefix(d, byCountry, |byCountry.keys|, tmc)
    ensures d == Scaled(byCountry, tmc)
  {
    assert byCountry.keys[..|byCountry.keys|] == byCountry.keys;
    DictEq(d, Scaled(byCountry, tmc));
  }

  /**
   * The "MX" entry always exists and holds the Mexican materials (0 when there are none) plus
   * labour and overhead; every other entry keeps its breakdown total and flag; every
   * percentage is its total over the TMC.
   */
  lemma SharesOfEntries(byCountry: Dict<CountryTotal>, laborAndOthers: real, tmc: real)
    requires WellFormed(byCountry) && tmc != 0.0
    ensures var s := SharesOf(byCountry, laborAndOthers, tmc);
      WellFormed(s) &&
      "MX" in s.entries &&
      s.entries["MX"].total ==
        (if "MX" in byCountry.entries then byCountry.entries["MX"].total else 0.0) + laborAndOthers &&
      (forall c :: c in s.entries && c != "MX" ==>
        c in byCountry.entries &&
        s.entries[c].total == byCountry.entries[c].total && s.entries[c].isUSMCA == byCountry.entries[c].isUSMCA) &&
      (forall c :: c in s.entries ==> s.entries[c].percentage == Percent(s.entries[c].total, tmc))
  {
    var s := SharesOf(byCountry, laborAndOthers, tmc);
    if "MX" !in byCountry.entries {
      assert Distinct(byCountry.keys + ["MX"]);
    }
  }

  /**
   * No breakdown country is dropped: the keys are the breakdown's, in the same order, with "MX"
   * appended when it was missing. An existing "MX" entry keeps its flag; a created one is in the bloc.
   */
  lemma SharesOfKeys(byCountry: Dict<CountryTotal>, laborAndOthers: real, tmc: real)
    requires tmc != 0.0
    ensures var s := SharesOf(byCountry, laborAndOthers, tmc);
      s.keys == (if "MX" in byCountry.entries then byCountry.keys else byCountry.keys + ["MX"]) &&
      (forall c :: c in byCountry.entries ==> c in s.entries) &&
      ("MX" in byCountry.entries ==> s.entries["MX"].isUSMCA == byCountry.entries["MX"].isUSMCA) &&
      ("MX" !in byCountry.entries ==> s.entries["MX"].isUSMCA)
  {
  }

  lemma MexicoIsInBloc()
    ensures IsUSMCACountry("MX")
  {
    assert Trim("MX") == "MX";
    assert ToUpper("MX") == "MX";
    assert UsmcaCountries[0] == "MX";
  }

  /** For a breakdown built from components, the "MX" entry is flagged as in the bloc whether it was created or not. */
  lemma MexicoEntryInBloc(comps: seq<Component>, laborAndOthers: real, tmc: real)
    requires tmc != 0.0
    ensures "MX" in SharesOf(BreakdownOf(comps), laborAndOthers, tmc).entries
    ensures SharesOf(BreakdownOf(comps), laborAndOthers, tmc).entries["MX"].isUSMCA
  {
    BreakdownSumsToMaterials(comps);
    MexicoIsInBloc();
  }

  // ----- Sums over object values -----

  lemma {:induction false} SumOverSnoc<V>(keys: seq<string>, k: string, m: map<string, V>, f: V -> real)
    requires forall key :: key in keys ==> key in m
    requires k in m
    ensures SumOver(keys + [k], m, f) == SumOver(keys, m, f) + f(m[k])
  {
    assert (keys + [k])[..|keys|] == keys;
  }

  lemma {:induction false} SumOverCongruent<V, W>(keys: seq<string>, m1: map<string, V>, f: V -> real, m2: map<string, W>, g: W -> real)
    requires forall k :: k in keys ==> k in m1 && k in m2 && f(m1[k]) == g(m2[k])
    ensures SumOver(keys, m1, f) == SumOver(keys, m2, g)
  {
    if keys != [] {
      SumOverCongruent(keys[..|keys| - 1], m1, f, m2, g);
    }
  }

  /** Raising one key's value by `d` raises the sum by `d` when keys are distinct. */
  lemma {:induction false} SumOverBump<V, W>(keys: seq<string>, m1: map<string, V>, f: V -> real,
                                             m2: map<string, W>, g: W -> real, key: string, d: real)
    requires Distinct(keys) && key in keys
    requires forall k :: k in keys ==> k in m1 && k in m2
    requires forall k :: k in keys && k != key ==> g(m2[k]) == f(m1[k])
    requires g(m2[key]) == f(m1[key]) + d
    ensures SumOver(keys, m2, g) == SumOver(keys, m1, f) + d
  {
    var ks := keys[..|keys| - 1];
    var last := keys[|keys| - 1];
    if last == key {
      assert forall k :: k in ks ==> k != key;
      SumOverCongruent(ks, m1, f, m2, g);
    } else {
      assert key in ks;
      SumOverBump(ks, m1, f, m2, g, key, d);
    }
  }

  /** Scaling every value by 100/TMC scales the sum by 100/TMC. */
  lemma {:induction false} SumOverPercent<V, W>(keys: seq<string>, m1: map<string, V>, f: V -> real,
                                                m2: map<string, W>, g: W -> real, tmc: real)
    requires tmc != 0.0
    requires forall k :: k in keys ==> k in m1 && k in m2 && g(m2[k]) == Percent(f(m1[k]), tmc)
    ensures SumOver(keys, m2, g) == Percent(SumOver(keys, m1, f), tmc)
  {
    if keys != [] {
      var ks := keys[..|keys| - 1];
      var last := keys[|keys| - 1];
      SumOverPercent(ks, m1, f, m2, g, tmc);
      PercentAdds(SumOver(ks, m1, f), f(m1[last]), tmc);
    }
  }

  /** Percentages of the same TMC add up. */
  lemma PercentAdds(a: real, b: real, tmc: real)
    requires tmc != 0.0
    ensures Percent(a, tmc) + Percent(b, tmc) == Percent(a + b, tmc)
  {
    assert a / tmc + b / tmc == (a + b) / tmc;
  }

  /** After the fold into "MX", the totals add up to the breakdown's totals plus labour. */
  lemma SharesTotal(byCountry: Dict<CountryTotal>, laborAndOthers: real, tmc: real)
    requires WellFormed(byCountry) && tmc != 0.0
    ensures var s := SharesOf(byCountry, laborAndOthers, tmc);
      SumOver(s.keys, s.entries, ShareTotal) ==
        SumOver(byCountry.keys, byCountry.entries, TotalOf) + laborAndOthers
  {
    var s := SharesOf(byCountry, laborAndOthers, tmc);
    SharesOfEntries(byCountry, laborAndOthers, tmc);
    if "MX" in byCountry.entries {
      SumOverBump(byCountry.keys, byCountry.entries, TotalOf, s.entries, ShareTotal, "MX", laborAndOthers);
    } else {
      SumOverCongruent(byCountry.keys, byCountry.entries, TotalOf, s.entries, ShareTotal);
      SumOverSnoc(byCountry.keys, "MX", s.entries, ShareTotal);
    }
  }

  /**
   * When labour is the TMC minus the breakdown's total, the totals after the fold add up to the
   * TMC and the percentages to exactly 100.
   */
  lemma SharesSumTo100(byCountry: Dict<CountryTotal>, labor: real, tmc: real)
    requires WellFormed(byCountry) && tmc != 0.0
    requires labor == tmc - SumOver(byCountry.keys, byCountry.entries, TotalOf)
    ensures var s := SharesOf(byCountry, labor, tmc);
      SumOver(s.keys, s.entries, ShareTotal) == tmc &&
      SumOver(s.keys, s.entries, SharePercentage) == 100.0
  {
    var s := SharesOf(byCountry, labor, tmc);
    SharesTotal(byCountry, labor, tmc);
    assert SumOver(s.keys, s.entries, ShareTotal) == tmc;
    SharesOfEntries(byCountry, labor, tmc);
    SumOverPercent(s.keys, s.entries, ShareTotal, s.entries, SharePercentage, tmc);
    assert SumOver(s.keys, s.entries, SharePercentage) == Percent(tmc, tmc);
    WholeIsHundredPercent(tmc);
  }

  lemma WholeIsHundredPercent(tmc: real)
    requires tmc != 0.0
    ensures Percent(tmc, tmc) == 100.0
  {
    assert tmc / tmc == 1.0;
  }

  // ----- RVC and the verdict -----

  /** `calculateRVC`: the share of the TMC that is not non-originating material, in percent. */
  function CalculateRVC(tmc: real, nonOriginatingTotal: real): (rvc: real)
    ensures tmc <= 0.0 ==> rvc == 0.0
    ensures tmc > 0.0 ==> rvc * tmc == (tmc - nonOriginatingTotal) * 100.0
    ensures tmc > 0.0 && 0.0 <= nonOriginatingTotal <= tmc ==> 0.0 <= rvc <= 100.0
  {
    if tmc <= 0.0 then 0.0
    else
      var ratio := (tmc - nonOriginatingTotal) / tmc;
      assert ratio * tmc == tmc - nonOriginatingTotal;
      ((tmc - nonOriginatingTotal) / tmc) * 100.0
  }

  /** `determineUSMCACompliance`: "YES" from 60 percent inclusive, "NO" below. */
  function DetermineUSMCACompliance(rvc: real): (verdict: string)
    ensures verdict == "YES" || verdict == "NO"
    ensures verdict == "YES" <==> rvc >= 60.0
  {
    if rvc >= 60.0 then "YES" else "NO"
  }

  /** With a positive TMC the verdict is "YES" exactly when at most 40% of it is non-originating. */
  lemma ComplianceIffNonOriginatingAtMost40(tmc: real, nonOriginatingTotal: real)
    requires tmc > 0.0
    ensures DetermineUSMCACompliance(CalculateRVC(tmc, nonOriginatingTotal)) == "YES" <==>
      nonOriginatingTotal * 5.0 <= tmc * 2.0
  {
    var rvc := CalculateRVC(tmc, nonOriginatingTotal);
    assert rvc * tmc == (tmc - nonOriginatingTotal) * 100.0;
    if rvc >= 60.0 {
      assert rvc * tmc >= 60.0 * tmc;
    } else {
      assert rvc * tmc < 60.0 * tmc;
    }
  }

  /** A component of the worked example: only its country and total cost matter; the unit cost is left at 0. */
  function ExampleComponent(country: string, costTotal: real): Component {
    Component(Empty, Empty, Empty, "", Empty, 0.0, costTotal, country, None)
  }

  /**
   * Two components, 40 from "CN" and 60 from "MX", under a TMC of 150: materials 100 and a valid
   * TMC, labour 50, 40 non-originating, RVC 73.33... and "YES".
   */
  lemma WorkedExample()
    ensures var comps := [ExampleComponent("CN", 40.0), ExampleComponent("MX", 60.0)];
      TotalMaterials(comps) == 100.0 &&
      ValidateTotalManufacturedCost(Some(150.0), TotalMaterials(comps)).isValid &&
      150.0 - TotalMaterials(comps) == 50.0 &&
      NonOriginating(comps) == 40.0 &&
      CalculateRVC(150.0, NonOriginating(comps)) == 220.0 / 3.0 &&
      DetermineUSMCACompliance(CalculateRVC(150.0, NonOriginating(comps))) == "YES"
  {
    var comps := [ExampleComponent("CN", 40.0), ExampleComponent("MX", 60.0)];
    assert comps[..1] == [comps[0]];
    assert comps[..1][..0] == [];
    assert Trim("CN") == "CN";
    assert ToUpper("CN") == "CN";
    IncludesIsMembership(UsmcaCountries, "CN");
    MexicoIsInBloc();
  }

  /** Exactly 60 percent complies; the threshold is inclusive. */
  lemma ThresholdIsInclusive()
    ensures CalculateRVC(100.0, 40.0) == 60.0 && DetermineUSMCACompliance(60.0) == "YES"
  {
  }

  // ----- Tariff shift -----

  /** `s.substring(0, 4)`. */
  function Prefix4(s: string): string {
    if |s| <= 4 then s else s[..4]
  }

  /**
   * `calculateTariffShift`: "NA" when either code is empty or both share their first four
   * characters once full stops are removed, "YES" otherwise; "NO" is never returned.
   */
  function CalculateTariffShift(mainHtsus: string, componentHtsus: string): (shift: string)
    ensures shift == "NA" || shift == "YES"
    ensures shift == "YES" <==>
      mainHtsus != "" && componentHtsus != "" && Prefix4(RemoveDots(mainHtsus)) != Prefix4(RemoveDots(componentHtsus))
  {
    if mainHtsus == "" || componentHtsus == "" then "NA"
    else
      var mainFirst4 := Prefix4(RemoveDots(mainHtsus));
      var compFirst4 := Prefix4(RemoveDots(componentHtsus));
      if mainFirst4 == compFirst4 then "NA" else "YES"
  }

  /** On two formatted codes, the flag compares the headings: the first four code characters. */
  lemma TariffShiftComparesHeadings(main: Cell, component: Cell)
    requires Truthy(main) && Truthy(component)
    ensures CalculateTariffShift(FormatHTSUS(main), FormatHTSUS(component)) ==
      if TenDigits(Text(main))[..4] == TenDigits(Text(component))[..4] then "NA" else "YES"
  {
    var a, b := FormatHTSUS(main), FormatHTSUS(component);
    assert |a| == 12 && |b| == 12;
    assert RemoveDots(a) == TenDigits(Text(main));
    assert RemoveDots(b) == TenDigits(Text(component));
  }

  /**
   * `addTariffShiftToComponents`: a new list, as long as the input and in the same order,
   * whose every component differs from the input's only by its tariff-shift flag.
   */
  function AddTariffShiftToComponents(comps: seq<Component>, mainHtsus: string): (tagged: seq<Component>)
    ensures |tagged| == |comps|
    ensures forall i :: 0 <= i < |comps| ==>
      tagged[i].(tariffShift := None) == comps[i].(tariffShift := None) &&
      tagged[i].tariffShift == Some(CalculateTariffShift(mainHtsus, comps[i].htsus))
  {
    seq(|comps|, i requires 0 <= i < |comps| =>
      comps[i].(tariffShift := Some(CalculateTariffShift(mainHtsus, comps[i].htsus))))
  }

  // ----- Validation and the analysis -----

  const TmcNotPositive: string := "Total Manufactured Cost debe ser mayor a 0"
  const TmcBelowMaterials: string := "Total Manufactured Cost no puede ser menor que Total Materials"

  /** `{ isValid, error }`. */
  datatype Validation = Validation(isValid: bool, error: Option<string>)

  /**
   * `validateTotalManufacturedCost`. The TMC is `None` when it is not a number (NaN, undefined);
   * a missing or non-positive TMC is reported first, then a TMC below the materials.
   */
  function ValidateTotalManufacturedCost(tmc: Option<real>, totalMaterials: real): (v: Validation)
    ensures v.isValid <==> v.error == None
    ensures v.isValid <==> tmc.Some? && tmc.value > 0.0 && tmc.value >= totalMaterials
    ensures (tmc == None || tmc.value <= 0.0) ==> v.error == Some(TmcNotPositive)
    ensures tmc.Some? && 0.0 < tmc.value < totalMaterials ==> v.error == Some(TmcBelowMaterials)
  {
    if tmc == None || tmc.value <= 0.0 then Validation(false, Some(TmcNotPositive))
    else if tmc.value < totalMaterials then Validation(false, Some(TmcBelowMaterials))
    else Validation(true, None)
  }

  /** What `performUSMCAAnalysis` returns. */
  datatype Analysis =
    | AnalysisFailure(error: string)
    | AnalysisSuccess(
        totalMaterials: real,
        totalManufacturedCost: real,
        laborAndOthers: real,
        nonOriginatingTotal: real,
        rvc: real,
        contentRVC: string,
        countryPercentages: Dict<Share>,
        components: seq<Component>,
        warnings: seq<string>)

  function Abs(x: real): real {
    if x < 0.0 then -x else x
  }

  function PercentageWarning(totalPercentage: real): string {
    "Los porcentajes suman " + ToFixed2(totalPercentage) + "% en lugar de 100%"
  }

  /**
   * `performUSMCAAnalysis`: validates the TMC, then computes labour, the non-originating total,
   * the RVC and its verdict, the per-country percentages and the tagged components, and checks
   * that the percentages add up to 100. With exact arithmetic they always do, so no warning is
   * ever raised.
   */
  method PerformUSMCAAnalysis(comps: seq<Component>, tmc: Option<real>, htsusMain: string) returns (r: Analysis)
    ensures var v := ValidateTotalManufacturedCost(tmc, TotalMaterials(comps));
      !v.isValid ==> r == AnalysisFailure(v.error.value)
    ensures r.AnalysisSuccess? <==> ValidateTotalManufacturedCost(tmc, TotalMaterials(comps)).isValid
    ensures r.AnalysisSuccess? ==>
      tmc == Some(r.totalManufacturedCost) &&
      r.totalMaterials == TotalMaterials(comps) &&
      r.laborAndOthers == r.totalManufacturedCost - r.totalMaterials && r.laborAndOthers >= 0.0 &&
      r.nonOriginatingTotal == NonOriginating(comps) &&
      r.rvc == CalculateRVC(r.totalManufacturedCost, r.nonOriginatingTotal) &&
      r.contentRVC == DetermineUSMCACompliance(r.rvc) &&
      r.countryPercentages == SharesOf(BreakdownOf(comps), r.laborAndOthers, r.totalManufacturedCost) &&
      r.components == AddTariffShiftToComponents(comps, htsusMain)
    ensures r.AnalysisSuccess? ==>
      SumOver(r.countryPercentages.keys, r.countryPercentages.entries, ShareTotal) == r.totalManufacturedCost &&
      SumOver(r.countryPercentages.keys, r.countryPercentages.entries, SharePercentage) == 100.0
    ensures r.AnalysisSuccess? ==> r.warnings == []
    ensures r.AnalysisSuccess? && NonNegativeCosts(comps) ==> 0.0 <= r.rvc <= 100.0
  {
    var totalMaterials := TotalMaterials(comps);
    var validation := ValidateTotalManufacturedCost(tmc, totalMaterials);
    if !validation.isValid {
      return AnalysisFailure(validation.error.value);
    }
    var totalManufacturedCost := tmc.value;
    var laborAndOthers := totalManufacturedCost - totalMaterials;
    var nonOriginatingTotal := CalculateNonOriginatingTotal(comps);
    var rvc := CalculateRVC(totalManufacturedCost, nonOriginatingTotal);
    var contentRVC := DetermineUSMCACompliance(rvc);
    var byCountry := CalculateCountryBreakdown(comps);
    BreakdownSumsToMaterials(comps);
    var countryPercentages := CalculateCountryPercentages(byCountry, laborAndOthers, totalManufacturedCost);
    SharesSumTo100(byCountry, laborAndOthers, totalManufacturedCost);
    var componentsWithTS := AddTariffShiftToComponents(comps, htsusMain);
    var totalPercentage := SumOver(countryPercentages.keys, countryPercentages.entries, SharePercentage);
    var warnings: seq<string> := [];
    if Abs(totalPercentage - 100.0) > 0.1 {
      warnings := warnings + [PercentageWarning(totalPercentage)];
    }
    r := AnalysisSuccess(totalMaterials, totalManufacturedCost, laborAndOthers, nonOriginatingTotal,
                         rvc, contentRVC, countryPercentages, componentsWithTS, warnings);
    if NonNegativeCosts(comps) {
      NonOriginatingBounds(comps);
    }
  }
}
