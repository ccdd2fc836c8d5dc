/** `getBMICategory`: the four-way threshold classification of a BMI text. */
module Bmi {

  /** The BMI text as `getBMICategory` sees it once `parseFloat` has read it. */
  datatype BmiText =
    | Empty                    // "": falsy, no category
    | Parsed(v: real)          // a text that begins with a finite number
    | Infinite(negative: bool) // "Infinity" or "-Infinity", as a division by a zero height gives
    | NotANumber               // a non-empty text `parseFloat` reads as NaN

  const Underweight: string := "Underweight"
  const Normal: string := "Normal"
  const Overweight: string := "Overweight"
  const Obese: string := "Obese"

  /** `getBMICategory(bmi)`. Each category covers a half-open interval. -Infinity
      passes the first `<` test; Infinity and NaN fail every one and so fall through
      to "Obese". */
  function BmiCategory(bmi: BmiText): (category: string)
    ensures category == "" <==> bmi.Empty?
    ensures bmi.Parsed? ==> (category == Underweight <==> bmi.v < 18.5)
    ensures bmi.Parsed? ==> (category == Normal <==> 18.5 <= bmi.v < 25.0)
    ensures bmi.Parsed? ==> (category == Overweight <==> 25.0 <= bmi.v < 30.0)
    ensures bmi.Parsed? ==> (category == Obese <==> 30.0 <= bmi.v)
    ensures bmi.Infinite? ==> category == (if bmi.negative then Underweight else Obese)
    ensures bmi.NotANumber? ==> category == Obese
  {
    match bmi
    case Empty => ""
    case Parsed(v) =>
      if v < 18.5 then Underweight
      else if v < 25.0 then Normal
      else if v < 30.0 then Overweight
      else Obese
    case Infinite(negative) => if negative then Underweight else Obese
    case NotANumber => Obese
  }

  /** The categories in increasing order of BMI; the empty text ranks below them all. */
  function CategoryRank(category: string): nat {
    if category == Underweight then 1
    else if category == Normal then 2
    else if category == Overweight then 3
    else if category == Obese then 4
    else 0
  }

  /** A larger BMI never yields an earlier category. */
  lemma BmiCategoryMonotone(a: real, b: real)
    requires a <= b
    ensures CategoryRank(BmiCategory(Parsed(a))) <= CategoryRank(BmiCategory(Parsed(b)))
  {
  }

  /** Each boundary value belongs to the higher category. */
  lemma BmiBoundaries()
    ensures BmiCategory(Parsed(18.5)) == Normal
    ensures BmiCategory(Parsed(25.0)) == Overweight
    ensures BmiCategory(Parsed(30.0)) == Obese
    ensures BmiCategory(Parsed(22.9)) == Normal
    ensures BmiCategory(Empty) == ""
  {
  }
}
