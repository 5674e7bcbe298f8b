/**
 * The value domain of the game (Classes/configs/GameConsts.h): suits, faces and card states.
 * Each C++ enum becomes a datatype; its underlying integer is given by a Value function,
 * and the matching OfValue function reads an integer back.
 */
module GameConsts {
  import opened Wrappers

  datatype CardSuitType = SuitNone | Clubs | Diamonds | Hearts | Spades

  /** CST_NUM_CARD_SUIT_TYPES: the number of real suits. */
  const NumCardSuitTypes: int := 4

  function SuitValue(s: CardSuitType): (v: int)
    ensures -1 <= v < NumCardSuitTypes
    ensures (v == -1) == (s == SuitNone)
  {
    match s
    case SuitNone => -1
    case Clubs => 0
    case Diamonds => 1
    case Hearts => 2
    case Spades => 3
  }

  function SuitOfValue(v: int): (r: Option<CardSuitType>)
    ensures r.Some? <==> -1 <= v < NumCardSuitTypes
    ensures r.Some? ==> SuitValue(r.value) == v
  {
    if v == -1 then Some(SuitNone)
    else if v == 0 then Some(Clubs)
    else if v == 1 then Some(Diamonds)
    else if v == 2 then Some(Hearts)
    else if v == 3 then Some(Spades)
    else None
  }

  lemma SuitValueRoundTrip(s: CardSuitType)
    ensures SuitOfValue(SuitValue(s)) == Some(s)
  {
  }

  datatype CardFaceType =
    | FaceNone
    | Ace | Two | Three | Four | Five | Six | Seven | Eight | Nine | Ten
    | Jack | Queen | King

  /** CFT_NUM_CARD_FACE_TYPES: the number of real faces. */
  const NumCardFaceTypes: int := 13

  function FaceValue(f: CardFaceType): (v: int)
    ensures -1 <= v < NumCardFaceTypes
    ensures (v == -1) == (f == FaceNone)
  {
    match f
    case FaceNone => -1
    case Ace => 0
    case Two => 1
    case Three => 2
    case Four => 3
    case Five => 4
    case Six => 5
    case Seven => 6
    case Eight => 7
    case Nine => 8
    case Ten => 9
    case Jack => 10
    case Queen => 11
    case King => 12
  }

  function FaceOfValue(v: int): (r: Option<CardFaceType>)
    ensures r.Some? <==> -1 <= v < NumCardFaceTypes
    ensures r.Some? ==> FaceValue(r.value) == v
  {
    if v == -1 then Some(FaceNone)
    else if v == 0 then Some(Ace)
    else if v == 1 then Some(Two)
    else if v == 2 then Some(Three)
    else if v == 3 then Some(Four)
    else if v == 4 then Some(Five)
    else if v == 5 then Some(Six)
    else if v == 6 then Some(Seven)
    else if v == 7 then Some(Eight)
    else if v == 8 then Some(Nine)
    else if v == 9 then Some(Ten)
    else if v == 10 then Some(Jack)
    else if v == 11 then Some(Queen)
    else if v == 12 then Some(King)
    else None
  }

  lemma FaceValueRoundTrip(f: CardFaceType)
    ensures FaceOfValue(FaceValue(f)) == Some(f)
  {
  }

  /** Two faces with the same underlying integer are the same face. */
  lemma FaceValueInjective(a: CardFaceType, b: CardFaceType)
    requires FaceValue(a) == FaceValue(b)
    ensures a == b
  {
    FaceValueRoundTrip(a);
    FaceValueRoundTrip(b);
  }

  /** FACE_DOWN, FACE_UP, REMOVED: implicit underlying values 0, 1, 2. */
  datatype CardState = FaceDown | FaceUp | Removed

  function StateValue(s: CardState): (v: int)
    ensures 0 <= v < 3
  {
    match s
    case FaceDown => 0
    case FaceUp => 1
    case Removed => 2
  }

  function StateOfValue(v: int): (r: Option<CardState>)
    ensures r.Some? <==> 0 <= v < 3
    ensures r.Some? ==> StateValue(r.value) == v
  {
    if v == 0 then Some(FaceDown)
    else if v == 1 then Some(FaceUp)
    else if v == 2 then Some(Removed)
    else None
  }

  lemma StateValueRoundTrip(s: CardState)
    ensures StateOfValue(StateValue(s)) == Some(s)
  {
  }
}
