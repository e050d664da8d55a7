/**
 * The difficulty badge of a problem (getRatingHTML and the "Unrated" fallback of its callers).
 * The badge is described by what it shows, not by its HTML: one uniformly coloured number, or a
 * number whose first character has its own colour, or the word "Unrated".
 */
module Rating {
  import opened Wrappers
  import opened Decimal

  /** The colour classes of the page's style sheet. */
  datatype Color = Gray | Green | Cyan | Blue | Violet | Orange | Red | Black

  /** The style-sheet class of each colour; distinct colours have distinct classes (`ClassNamesDistinct`). */
  function ClassName(c: Color): string {
    match c
    case Gray => "rating-gray"
    case Green => "rating-green"
    case Cyan => "rating-cyan"
    case Blue => "rating-blue"
    case Violet => "rating-violet"
    case Orange => "rating-orange"
    case Red => "rating-red"
    case Black => "rating-black"
  }

  lemma ClassNamesDistinct(c: Color, d: Color)
    ensures ClassName(c) == ClassName(d) ==> c == d
  {
    if ClassName(c) == ClassName(d) {
      assert ClassName(c)[7..] == ClassName(d)[7..];
    }
  }

  datatype Badge =
    | Unrated
    | Uniform(color: Color, text: string)
    | Split(leadColor: Color, lead: char, bodyColor: Color, rest: string)

  /** The characters the badge shows, in order. */
  function Text(b: Badge): string {
    match b
    case Unrated => "Unrated"
    case Uniform(_, text) => text
    case Split(_, lead, _, rest) => [lead] + rest
  }

  /** The colour of the badge's body: the whole number, or all of it after the first character. */
  function BodyOf(b: Badge): Option<Color> {
    match b
    case Unrated => None
    case Uniform(c, _) => Some(c)
    case Split(_, _, c, _) => Some(c)
  }

  /** The chain of half-open bands that picks the body colour. */
  function BodyColor(rating: int): (c: Color)
    ensures c == Gray <==> rating < 1000
    ensures c == Green <==> 1000 <= rating < 1400
    ensures c == Cyan <==> 1400 <= rating < 1600
    ensures c == Blue <==> 1600 <= rating < 1800
    ensures c == Violet <==> 1800 <= rating < 2000
    ensures c == Orange <==> 2000 <= rating < 2400
    ensures c == Red <==> 2400 <= rating < 4000
    ensures c == Black <==> 4000 <= rating
  {
    if rating < 1000 then Gray
    else if rating < 1200 then Green
    else if rating < 1400 then Green
    else if rating < 1600 then Cyan
    else if rating < 1800 then Blue
    else if rating < 2000 then Violet
    else if rating < 2200 then Orange
    else if rating < 2400 then Orange
    else if rating < 3000 then Red
    else if rating < 4000 then Red
    else Black
  }

  /** The colour of the first character, in the two sub-bands that have one. */
  function LeadColor(rating: int): (c: Option<Color>)
    ensures c.Some? <==> 2200 <= rating < 2400 || 3000 <= rating < 4000
    ensures c == Some(Red) <==> 2200 <= rating < 2400
    ensures c == Some(Black) <==> 3000 <= rating < 4000
  {
    if rating < 2200 then None
    else if rating < 2400 then Some(Red)
    else if rating < 3000 then None
    else if rating < 4000 then Some(Black)
    else None
  }

  /** The badge getRatingHTML renders for a rating. */
  function RatingBadge(rating: int): (b: Badge)
    ensures b != Unrated
    ensures Text(b) == IntString(rating)
    ensures BodyOf(b) == Some(BodyColor(rating))
    ensures b.Split? <==> 2200 <= rating < 2400 || 3000 <= rating < 4000
    ensures b.Split? && rating < 3000 ==> b.leadColor == Red && b.bodyColor == Orange
    ensures b.Split? && rating >= 3000 ==> b.leadColor == Black && b.bodyColor == Red
  {
    var s := IntString(rating);
    match LeadColor(rating)
    case Some(lead) =>
      assert s == [s[0]] + s[1..];
      Split(lead, s[0], BodyColor(rating), s[1..])
    case None => Uniform(BodyColor(rating), s)
  }

  /**
   * The badge a problem page shows for a problem's rating field: a falsy rating (absent or
   * zero) shows "Unrated" and getRatingHTML is not consulted.
   */
  function DifficultyBadge(rating: Option<int>): (b: Badge)
    ensures b == Unrated <==> rating == None || rating == Some(0)
    ensures b != Unrated ==> b == RatingBadge(rating.value)
    ensures Text(b) == if b == Unrated then "Unrated" else IntString(rating.value)
  {
    match rating
    case None => Unrated
    case Some(r) => if r == 0 then Unrated else RatingBadge(r)
  }

  /** An independent statement of the bands: the lower bound of each band and its colour, ascending. */
  const Bands: seq<(int, Color)> :=
    [(1000, Green), (1400, Cyan), (1600, Blue), (1800, Violet), (2000, Orange), (2400, Red), (4000, Black)]

  /** The colour of the last band whose lower bound the rating reaches, or `below` when it reaches none. */
  function BandColor(rating: int, bands: seq<(int, Color)>, below: Color): Color
    decreases |bands|
  {
    if bands == [] || rating < bands[0].0 then below else BandColor(rating, bands[1..], bands[0].1)
  }

  /** The if-chain of getRatingHTML agrees with the band table. */
  lemma BodyColorIsBand(rating: int)
    ensures BodyColor(rating) == BandColor(rating, Bands, Gray)
  {
    var b := Bands;
    assert b[1..][1..][1..][1..][1..][1..][1..] == [];
  }

  /** Every non-negative rating shows its digits only, and they read back as the rating. */
  lemma RatingTextRoundTrip(rating: nat)
    ensures AllDigits(Text(RatingBadge(rating)))
    ensures ParseDigits(Text(RatingBadge(rating))) == rating
  {
    ParseNatString(rating);
  }

  /** The two sub-band boundaries: the body colour stays, and a separately coloured first digit appears. */
  lemma SubBandEdges()
    ensures RatingBadge(2199) == Uniform(Orange, "2199")
    ensures RatingBadge(2200) == Split(Red, '2', Orange, "200")
    ensures RatingBadge(2999) == Uniform(Red, "2999")
    ensures RatingBadge(3000) == Split(Black, '3', Red, "000")
  {
    OrangeSubBandEdge();
    RedSubBandEdge();
  }

  /** 2200 is where the red first digit over orange starts. */
  lemma OrangeSubBandEdge()
    ensures RatingBadge(2199) == Uniform(Orange, "2199")
    ensures RatingBadge(2200) == Split(Red, '2', Orange, "200")
  {
    assert NatString(2199) == "2199";
    assert NatString(2200) == "2200";
  }

  /** 3000 is where the black first digit over red starts. */
  lemma RedSubBandEdge()
    ensures RatingBadge(2999) == Uniform(Red, "2999")
    ensures RatingBadge(3000) == Split(Black, '3', Red, "000")
  {
    assert NatString(2999) == "2999";
    assert NatString(3000) == "3000";
  }
}
