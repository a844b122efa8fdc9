/** The PEGI age bands of t04/01 (Pegi.java). */
module Pegi {
  /** The label printPegi chooses for an age; "fascia 3" unless a later band applies. */
  function Fascia(age: int): (f: string)
    ensures f == "fascia 3" <==> age < 7
    ensures f == "fascia 7" <==> 7 <= age <= 11
    ensures f == "fascia 12" <==> 12 <= age <= 15
    ensures f == "fascia 16" <==> 16 <= age <= 17
    ensures f == "fascia 18" <==> age >= 18
  {
    if age >= 7 && age <= 11 then "fascia 7"
    else if age >= 12 && age <= 15 then "fascia 12"
    else if age >= 16 && age <= 17 then "fascia 16"
    else if age >= 18 then "fascia 18"
    else "fascia 3"
  }

  /** The minimum age a label names. */
  function BandAge(f: string): int
  {
    if f == "fascia 7" then 7
    else if f == "fascia 12" then 12
    else if f == "fascia 16" then 16
    else if f == "fascia 18" then 18
    else 3
  }

  /** The band never names an age above the player's (from age 3 on), and never decreases with age. */
  lemma BandBelowAge(age: int, older: int)
    requires age <= older
    ensures age >= 3 ==> BandAge(Fascia(age)) <= age
    ensures BandAge(Fascia(age)) <= BandAge(Fascia(older))
  {
  }

  /** The band is the largest of 3, 7, 12, 16 and 18 that does not exceed the age. */
  lemma BandIsLargestBelow(age: int, b: int)
    requires age >= 3 && (b == 3 || b == 7 || b == 12 || b == 16 || b == 18) && b <= age
    ensures b <= BandAge(Fascia(age))
  {
  }
}
