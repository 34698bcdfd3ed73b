/**
 * `src/utils/costCalculator.ts`: the fare of a flight is its distance in km
 * times a per-km rate that depends on the cabin class.
 */
module CostCalculatorTs {

  /** `FlightClass = keyof typeof FLIGHT_RATES`. */
  datatype FlightClass = Economy | Business

  /** `FLIGHT_RATES[flightClass]`, rupees per km. */
  function FlightRate(flightClass: FlightClass): (rate: int)
    ensures rate > 0
    ensures flightClass == Economy <==> rate == 3
    ensures flightClass == Business <==> rate == 7
  {
    match flightClass
    case Economy => 3
    case Business => 7
  }

  /** `calculateFlightCost(distance, flightClass)`. */
  function CalculateFlightCost(distance: int, flightClass: FlightClass): (cost: int)
    ensures cost == 0 <==> distance == 0
    ensures distance >= 0 ==> cost >= distance
    ensures distance < 0 ==> cost < 0
  {
    distance * FlightRate(flightClass)
  }

  /** The fare of two legs is the sum of their fares. */
  lemma CostAdditive(d1: int, d2: int, flightClass: FlightClass)
    ensures CalculateFlightCost(d1 + d2, flightClass) == CalculateFlightCost(d1, flightClass) + CalculateFlightCost(d2, flightClass)
  {
    assert (d1 + d2) * FlightRate(flightClass) == d1 * FlightRate(flightClass) + d2 * FlightRate(flightClass);
  }

  /** A longer flight never costs less. */
  lemma CostMonotone(d1: int, d2: int, flightClass: FlightClass)
    requires d1 <= d2
    ensures CalculateFlightCost(d1, flightClass) <= CalculateFlightCost(d2, flightClass)
  {
    CostAdditive(d1, d2 - d1, flightClass);
  }

  /** Business class never costs less than economy for the same distance. */
  lemma BusinessAtLeastEconomy(distance: int)
    requires distance >= 0
    ensures CalculateFlightCost(distance, Business) >= CalculateFlightCost(distance, Economy)
    ensures distance > 0 ==> CalculateFlightCost(distance, Business) > CalculateFlightCost(distance, Economy)
  {
    assert distance * 7 - distance * 3 == distance * 4;
  }

  /** `getFlightClassDisplayName(flightClass)`. */
  function GetFlightClassDisplayName(flightClass: FlightClass): (name: string)
    ensures flightClass == Economy <==> name == "Economy Class"
    ensures flightClass == Business <==> name == "Business Class"
  {
    assert "Economy Class"[0] != "Business Class"[0];
    match flightClass
    case Economy => "Economy Class"
    case Business => "Business Class"
  }
}

/**
 * `src/utils/costCalculator.js`: the same fares keyed by any string, with
 * every class that is not a key of `COST_PER_KM` billed at the economy rate.
 * `COST_PER_KM` is modelled by its own two keys only: the names a JavaScript
 * object inherits (`constructor`, `toString`, `__proto__`, ...) are not part
 * of this model.
 */
module CostCalculatorJs {
  import Ts = CostCalculatorTs

  /** `FLIGHT_CLASSES`. */
  const ECONOMY: string := "economy"
  const BUSINESS: string := "business"

  /** `COST_PER_KM`. */
  const COST_PER_KM: map<string, int> := map[ECONOMY := 3, BUSINESS := 7]

  /**
   * `COST_PER_KM[flightClass] || COST_PER_KM[FLIGHT_CLASSES.ECONOMY]`: a
   * missing own entry is falsy.
   */
  function CostPerKm(flightClass: string): (rate: int)
    ensures flightClass == BUSINESS ==> rate == 7
    ensures flightClass != BUSINESS ==> rate == 3
  {
    if flightClass in COST_PER_KM && COST_PER_KM[flightClass] != 0 then COST_PER_KM[flightClass]
    else COST_PER_KM[ECONOMY]
  }

  /** `calculateFlightCost(distance, flightClass)`. */
  function CalculateFlightCost(distance: int, flightClass: string): (cost: int)
    ensures cost == distance * (if flightClass == BUSINESS then 7 else 3)
  {
    distance * CostPerKm(flightClass)
  }

  /** `getFlightClassName(flightClass)`: business, or economy for anything else. */
  function GetFlightClassName(flightClass: string): (name: string)
    ensures flightClass == BUSINESS <==> name == "Business Class"
    ensures flightClass != BUSINESS <==> name == "Economy Class"
  {
    assert "Economy Class"[0] != "Business Class"[0];
    if flightClass == BUSINESS then "Business Class" else "Economy Class"
  }

  /** The class a string names, with the economy fallback. */
  function ClassOf(flightClass: string): Ts.FlightClass {
    if flightClass == BUSINESS then Ts.Business else Ts.Economy
  }

  /** The JavaScript fares and names agree with the TypeScript ones under the fallback. */
  lemma AgreesWithTs(distance: int, flightClass: string)
    ensures CalculateFlightCost(distance, flightClass) == Ts.CalculateFlightCost(distance, ClassOf(flightClass))
    ensures GetFlightClassName(flightClass) == Ts.GetFlightClassDisplayName(ClassOf(flightClass))
  {
  }

  /** A class that is not a key of `COST_PER_KM` is billed exactly like economy. */
  lemma UnknownIsEconomy(distance: int, flightClass: string)
    requires flightClass !in COST_PER_KM
    ensures CalculateFlightCost(distance, flightClass) == CalculateFlightCost(distance, ECONOMY)
    ensures GetFlightClassName(flightClass) == GetFlightClassName(ECONOMY)
  {
  }
}
