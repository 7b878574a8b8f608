/** The delivery cost of a parcel over a route of a given length (Program.cs,
    `CalculateParcelCost` and the scaling step of `PrintShortestPath`). */
module Costs {
  import opened Parcels

  /** The length of one flight leg: the cost is charged per leg. */
  const FlightUnit: nat := 8

  /** The weight tier. A weight of exactly 5 kg or below 1 kg falls into no tier. */
  function WeightSurcharge(weight: real): (c: real)
    ensures c == 20.0 <==> 1.0 <= weight < 5.0
    ensures c == 40.0 <==> weight > 5.0
    ensures c == 0.0 <==> weight < 1.0 || weight == 5.0
  {
    if 1.0 <= weight < 5.0 then 20.0
    else if weight > 5.0 then 40.0
    else 0.0
  }

  /** The size tier. A size outside A, B and C adds nothing. */
  function SizeSurcharge(size: string): (c: real)
    ensures size == "A" ==> c == 40.0
    ensures size == "B" ==> c == 48.0
    ensures size == "C" ==> c == 80.0
    ensures c == 0.0 <==> size !in {"A", "B", "C"}
  {
    if size == "A" then 40.0
    else if size == "B" then 48.0
    else if size == "C" then 80.0
    else 0.0
  }

  /** The multiplier each category applies to the subtotal. */
  function TypeFactor(kind: ParcelType): (f: real)
    ensures kind == Weapons ==> f == 2.0
    ensures kind == CautiousParcels ==> f == 1.75
    ensures kind == RefrigeratedGoods ==> f == 1.1
    ensures 1.0 < f <= 2.0
  {
    match kind
    case Weapons => 2.0
    case CautiousParcels => 1.75
    case RefrigeratedGoods => 1.1
  }

  /** The cost of one leg: a running total that the weight and size tiers add
      to and the category then scales. */
  function ParcelCost(p: Parcel): (c: real)
    ensures c == (WeightSurcharge(p.weight) + SizeSurcharge(p.size)) * TypeFactor(p.kind)
    ensures 0.0 <= c <= 240.0
    ensures c == 0.0 <==> WeightSurcharge(p.weight) == 0.0 && SizeSurcharge(p.size) == 0.0
    ensures c >= WeightSurcharge(p.weight) + SizeSurcharge(p.size)
  {
    var cost := 0.0;
    var cost := cost + WeightSurcharge(p.weight);
    var cost := cost + SizeSurcharge(p.size);
    cost * TypeFactor(p.kind)
  }

  /** The cost of a whole delivery: the leg cost times the number of legs the
      route length stands for. */
  function DeliveryCost(p: Parcel, total: nat): (c: real)
    ensures 0.0 <= c
    ensures total == 0 ==> c == 0.0
  {
    ParcelCost(p) * (total as real / FlightUnit as real)
  }

  /** A route of `legs` legs of the unit length costs the leg cost `legs` times. */
  lemma DeliveryCostPerLeg(p: Parcel, legs: nat)
    ensures DeliveryCost(p, legs * FlightUnit) == ParcelCost(p) * legs as real
  {
    assert (legs * FlightUnit) as real / FlightUnit as real == legs as real;
  }

  /** The delivery cost grows with the route length. */
  lemma DeliveryCostMonotone(p: Parcel, shorter: nat, longer: nat)
    requires shorter <= longer
    ensures DeliveryCost(p, shorter) <= DeliveryCost(p, longer)
  {
    var c := ParcelCost(p);
    var a := shorter as real / FlightUnit as real;
    var b := longer as real / FlightUnit as real;
    assert a <= b;
    assert c * a <= c * b by {
      assert c * b - c * a == c * (b - a);
    }
  }

  /** A 3 kg parcel of size B (20 + 48 = 68), cautious (x 1.75 = 119), over a
      route of length 16 (two legs) costs 238. */
  lemma WorkedExample()
    ensures ParcelCost(Parcel(3.0, "B", CautiousParcels)) == 119.0
    ensures DeliveryCost(Parcel(3.0, "B", CautiousParcels), 16) == 238.0
  {
  }
}
