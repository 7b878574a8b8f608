/** The shipped item (Parcel.cs). */
module Parcels {
  import opened Wrappers

  /** The closed enumeration of shipment categories. */
  datatype ParcelType = Weapons | CautiousParcels | RefrigeratedGoods

  /** The numeric code each category carries in the source enumeration. */
  function Code(t: ParcelType): (c: int)
    ensures t == Weapons <==> c == 1
    ensures t == CautiousParcels <==> c == 2
    ensures t == RefrigeratedGoods <==> c == 3
    ensures FromCode(c) == Some(t)
  {
    match t
    case Weapons => 1
    case CautiousParcels => 2
    case RefrigeratedGoods => 3
  }

  /** The category a code names; codes outside the enumeration name none. */
  function FromCode(c: int): (r: Option<ParcelType>)
    ensures r.Some? <==> 1 <= c <= 3
    ensures r == Some(Weapons) <==> c == 1
    ensures r == Some(CautiousParcels) <==> c == 2
    ensures r == Some(RefrigeratedGoods) <==> c == 3
  {
    if c == 1 then Some(Weapons)
    else if c == 2 then Some(CautiousParcels)
    else if c == 3 then Some(RefrigeratedGoods)
    else None
  }

  /** Distinct categories carry distinct codes. */
  lemma CodeInjective(a: ParcelType, b: ParcelType)
    ensures Code(a) == Code(b) <==> a == b
  {
    assert FromCode(Code(a)) == Some(a);
    assert FromCode(Code(b)) == Some(b);
  }

  /** Every code in range names a category whose code is that code again. */
  lemma FromCodeRoundTrip(c: int)
    requires 1 <= c <= 3
    ensures FromCode(c).Some? && Code(FromCode(c).value) == c
  {
  }

  /** Weight in kilograms, a size code and a category. The constructor only
      assigns, so any weight and any size string are accepted. */
  datatype Parcel = Parcel(weight: real, size: string, kind: ParcelType)
}
