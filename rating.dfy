/** `getRatingColor` (page.tsx, lines 103-108): the colour of a score cell. */
module Rating {

  /** The four cell backgrounds: `bg-gray-100`, `bg-red-100`, `bg-yellow-100`, `bg-green-100`. */
  datatype RatingColor = Gray | Red | Yellow | Green

  /** Severity order of the tiers, lowest first. */
  function Tier(c: RatingColor): nat {
    match c
    case Gray => 0
    case Red => 1
    case Yellow => 2
    case Green => 3
  }

  /** Exactly 0 is gray (no data); any other score up to and including 2,
      negatives too, is red; up to and including 3.5 yellow; above that green. */
  function GetRatingColor(rating: real): (c: RatingColor)
    ensures c == Gray <==> rating == 0.0
    ensures c == Red <==> rating != 0.0 && rating <= 2.0
    ensures c == Yellow <==> 2.0 < rating <= 3.5
    ensures c == Green <==> 3.5 < rating
  {
    if rating == 0.0 then Gray
    else if rating <= 2.0 then Red
    else if rating <= 3.5 then Yellow
    else Green
  }

  /** Among measured (non-zero) scores the colour never gets less severe as the
      score decreases, and 0 sits apart from every measured score. */
  lemma RatingColorMonotone(x: real, y: real)
    requires x != 0.0 && y != 0.0 && x <= y
    ensures Tier(GetRatingColor(x)) <= Tier(GetRatingColor(y))
    ensures GetRatingColor(x) != Gray
  {
  }

  /** The boundary cases of the source: 0, 2, 3.5, 3.51 and -1. */
  lemma RatingColorBoundaries()
    ensures GetRatingColor(0.0) == Gray
    ensures GetRatingColor(2.0) == Red
    ensures GetRatingColor(3.5) == Yellow
    ensures GetRatingColor(3.51) == Green
    ensures GetRatingColor(-1.0) == Red
  {
  }
}
