/**
 * The data side of one card's node (Classes/views/CardView.cpp): the asset file names built
 * from a face and a suit, and the refresh that copies a card's position, z-order and state
 * into the node. Sprites, colours and visibility flags are values here; nothing is drawn.
 */
module CardViews {
  import opened Wrappers
  import opened GameConsts
  import opened Positions
  import opened CardModels
  import opened Decimal

  // ----- asset file names -----

  /** getSuitFilename: one file per real suit, the empty name for any other value. */
  function SuitFilename(suit: CardSuitType): (r: string)
    ensures r == "" <==> suit == SuitNone
  {
    match suit
    case Clubs => "suits/club.png"
    case Diamonds => "suits/diamond.png"
    case Hearts => "suits/heart.png"
    case Spades => "suits/spade.png"
    case SuitNone => ""
  }

  /** Reading a suit file name back. */
  function SuitOfFilename(s: string): Option<CardSuitType> {
    if s == "suits/club.png" then Some(Clubs)
    else if s == "suits/diamond.png" then Some(Diamonds)
    else if s == "suits/heart.png" then Some(Hearts)
    else if s == "suits/spade.png" then Some(Spades)
    else None
  }

  /** Every real suit has its own file, and the name gives the suit back. */
  lemma SuitFilenameRoundTrip(suit: CardSuitType)
    requires suit != SuitNone
    ensures SuitOfFilename(SuitFilename(suit)) == Some(suit)
  {
  }

  /** Diamonds and hearts are drawn in red, every other suit value in black. */
  predicate IsRed(suit: CardSuitType): (r: bool)
    ensures r <==> SuitValue(suit) == 1 || SuitValue(suit) == 2
  {
    suit == Diamonds || suit == Hearts
  }

  /** The colour part of a number file name: one of two words, black for the missing suit. */
  function ColourName(suit: CardSuitType): (r: string)
    ensures r == "red" || r == "black"
    ensures r == "red" <==> IsRed(suit)
    ensures suit == SuitNone ==> r == "black"
  {
    if IsRed(suit) then "red" else "black"
  }

  /** The label of a face: a letter for Ace, Jack, Queen and King, else the decimal of its value plus one. */
  function FaceLabel(face: CardFaceType): (r: string)
    ensures |r| >= 1
    ensures face !in {Ace, Jack, Queen, King} ==> ParseInt(r) == Some(FaceValue(face) + 1)
    ensures face !in {Ace, Jack, Queen, King} ==> AllDigits(r) && (r[0] == '0' ==> r == "0")
  {
    match face
    case Ace => "A"
    case Jack => "J"
    case Queen => "Q"
    case King => "K"
    case _ => IntToStringRoundTrip(FaceValue(face) + 1); IntToString(FaceValue(face) + 1)
  }

  /** Reading a label back to its face. */
  function FaceOfLabel(s: string): Option<CardFaceType> {
    if s == "A" then Some(Ace)
    else if s == "J" then Some(Jack)
    else if s == "Q" then Some(Queen)
    else if s == "K" then Some(King)
    else match ParseInt(s)
      case None => None
      case Some(v) =>
        var f := FaceOfValue(v - 1);
        if f.Some? && f.value !in {Ace, Jack, Queen, King} then f else None
  }

  /** Every face, the missing one included, has a label of its own. */
  lemma FaceLabelRoundTrip(face: CardFaceType)
    ensures FaceOfLabel(FaceLabel(face)) == Some(face)
  {
    if face !in {Ace, Jack, Queen, King} {
      var r := FaceLabel(face);
      assert r != "A" && r != "J" && r != "Q" && r != "K" by {
        assert ParseInt("A") == None && ParseInt("J") == None && ParseInt("Q") == None && ParseInt("K") == None;
      }
      FaceValueRoundTrip(face);
    }
  }

  const NumberDirectory := "number/"
  const PngSuffix := ".png"

  function SizePrefix(isBig: bool): string {
    if isBig then "big_" else "small_"
  }

  /** getNumberFilename: the name can be read back to its size, its colour and its face. */
  function NumberFilename(face: CardFaceType, suit: CardSuitType, isBig: bool): (r: string)
    ensures ParseNumberFilename(r) == Some(NumberAsset(isBig, IsRed(suit), face))
  {
    var labelled := FaceLabel(face) + PngSuffix;
    var coloured := ColourName(suit) + "_" + labelled;
    var rest := SizePrefix(isBig) + coloured;
    StripPrefixOf(NumberDirectory, rest);
    ParseSizedRoundTrip(isBig, coloured);
    ParseColouredRoundTrip(isBig, suit, labelled);
    ParseFaceFileRoundTrip(isBig, IsRed(suit), face);
    NumberDirectory + rest
  }

  /** What a number file name says: its size, its colour and its face. */
  datatype NumberAsset = NumberAsset(isBig: bool, isRed: bool, face: CardFaceType)

  function StripPrefix(p: string, s: string): (r: Option<string>)
    ensures r.Some? ==> s == p + r.value
  {
    if |p| <= |s| && s[..|p|] == p then
      assert s == p + s[|p|..];
      Some(s[|p|..])
    else None
  }

  function StripSuffix(s: string, q: string): (r: Option<string>)
    ensures r.Some? ==> s == r.value + q
  {
    if |q| <= |s| && s[|s| - |q|..] == q then
      assert s == s[..|s| - |q|] + q;
      Some(s[..|s| - |q|])
    else None
  }

  lemma StripPrefixOf(p: string, t: string)
    ensures StripPrefix(p, p + t) == Some(t)
  {
    assert (p + t)[..|p|] == p;
    assert (p + t)[|p|..] == t;
  }

  lemma StripSuffixOf(t: string, q: string)
    ensures StripSuffix(t + q, q) == Some(t)
  {
    assert (t + q)[|t|..] == q;
    assert (t + q)[..|t|] == t;
  }

  /** Reading a number file name back: directory, size, colour, label, extension. */
  function ParseNumberFilename(s: string): Option<NumberAsset> {
    match StripPrefix(NumberDirectory, s)
    case None => None
    case Some(rest) => ParseSized(rest)
  }

  function ParseSized(s: string): Option<NumberAsset> {
    match StripPrefix("big_", s)
    case Some(rest) => ParseColoured(true, rest)
    case None =>
      match StripPrefix("small_", s)
      case Some(rest) => ParseColoured(false, rest)
      case None => None
  }

  function ParseColoured(isBig: bool, s: string): Option<NumberAsset> {
    match StripPrefix("red_", s)
    case Some(rest) => ParseFaceFile(isBig, true, rest)
    case None =>
      match StripPrefix("black_", s)
      case Some(rest) => ParseFaceFile(isBig, false, rest)
      case None => None
  }

  function ParseFaceFile(isBig: bool, isRed: bool, s: string): Option<NumberAsset> {
    match StripSuffix(s, PngSuffix)
    case None => None
    case Some(text) =>
      match FaceOfLabel(text)
      case None => None
      case Some(face) => Some(NumberAsset(isBig, isRed, face))
  }

  lemma ParseFaceFileRoundTrip(isBig: bool, isRed: bool, face: CardFaceType)
    ensures ParseFaceFile(isBig, isRed, FaceLabel(face) + PngSuffix) == Some(NumberAsset(isBig, isRed, face))
  {
    StripSuffixOf(FaceLabel(face), PngSuffix);
    FaceLabelRoundTrip(face);
  }

  lemma ParseColouredRoundTrip(isBig: bool, suit: CardSuitType, t: string)
    ensures ParseColoured(isBig, ColourName(suit) + "_" + t) == ParseFaceFile(isBig, IsRed(suit), t)
  {
    if IsRed(suit) {
      assert ColourName(suit) + "_" + t == "red_" + t;
      StripPrefixOf("red_", t);
    } else {
      assert ColourName(suit) + "_" + t == "black_" + t;
      var s := "black_" + t;
      assert s[0] == 'b';
      assert StripPrefix("red_", s).None?;
      StripPrefixOf("black_", t);
    }
  }

  lemma ParseSizedRoundTrip(isBig: bool, t: string)
    ensures ParseSized(SizePrefix(isBig) + t) == ParseColoured(isBig, t)
  {
    if isBig {
      StripPrefixOf("big_", t);
    } else {
      var s := "small_" + t;
      assert s[0] == 's';
      assert StripPrefix("big_", s).None?;
      StripPrefixOf("small_", t);
    }
  }

  /** So two cards share a number file only when they share the face, the colour and the size. */
  lemma NumberFilenameDeterminesFace(f1: CardFaceType, s1: CardSuitType, b1: bool, f2: CardFaceType, s2: CardSuitType, b2: bool)
    requires NumberFilename(f1, s1, b1) == NumberFilename(f2, s2, b2)
    ensures f1 == f2 && b1 == b2 && IsRed(s1) == IsRed(s2)
  {
  }

  // ----- the refresh -----

  datatype Colour = Colour(r: int, g: int, b: int)

  /** Color3B::WHITE for a face-up card, the grey that stands for its back otherwise. */
  const White := Colour(255, 255, 255)
  const Grey := Colour(150, 150, 150)

  /**
   * What the node shows. A sprite that failed to load is None and stays None: the refresh
   * only touches the sprites that exist.
   */
  datatype ViewState = ViewState(
    position: Pos,
    zOrder: int,
    visible: bool,
    background: Option<Colour>,
    bigNumber: Option<bool>,
    smallNumber: Option<bool>,
    smallSuit: Option<bool>)

  function Tinted(sprite: Option<Colour>, c: Colour): Option<Colour> {
    if sprite.Some? then Some(c) else None
  }

  function Shown(sprite: Option<bool>, visible: bool): Option<bool> {
    if sprite.Some? then Some(visible) else None
  }

  /**
   * Reference definition of updateView for a node whose model is the card c. After a refresh
   * the node sits where the card is, at its z-index; it is visible exactly when the card is not
   * removed; every existing number and suit sprite is visible exactly when the card is face up,
   * and the background is white exactly then; no sprite appears or disappears.
   */
  function Refreshed(v: ViewState, c: CardRecord): (r: ViewState)
    ensures r.position == c.position && r.zOrder == c.zIndex
    ensures r.visible <==> c.state != Removed
    ensures r.background.Some? == v.background.Some?
    ensures r.background.Some? ==> (r.background.value == White <==> c.state == FaceUp)
    ensures r.bigNumber.Some? == v.bigNumber.Some? && (r.bigNumber.Some? ==> (r.bigNumber.value <==> c.state == FaceUp))
    ensures r.smallNumber.Some? == v.smallNumber.Some? && (r.smallNumber.Some? ==> (r.smallNumber.value <==> c.state == FaceUp))
    ensures r.smallSuit.Some? == v.smallSuit.Some? && (r.smallSuit.Some? ==> (r.smallSuit.value <==> c.state == FaceUp))
  {
    var up := c.state == FaceUp;
    ViewState(
      c.position, c.zIndex, c.state != Removed,
      Tinted(v.background, if up then White else Grey),
      Shown(v.bigNumber, up), Shown(v.smallNumber, up), Shown(v.smallSuit, up))
  }

  /** A second refresh with the card unchanged changes nothing. */
  lemma RefreshIdempotent(v: ViewState, c: CardRecord)
    ensures Refreshed(Refreshed(v, c), c) == Refreshed(v, c)
  {
  }

  /** Only the card's position, z-index and state reach the node; a moved card's old node state does not matter. */
  lemma RefreshReadsDisplayedFields(v: ViewState, w: ViewState, c: CardRecord, d: CardRecord)
    requires c.position == d.position && c.zIndex == d.zIndex && c.state == d.state
    requires v.background.Some? == w.background.Some? && v.bigNumber.Some? == w.bigNumber.Some?
    requires v.smallNumber.Some? == w.smallNumber.Some? && v.smallSuit.Some? == w.smallSuit.Some?
    ensures Refreshed(v, c) == Refreshed(w, d)
  {
  }

  class CardView {
    /** _model: read only; a view never writes its card. */
    const model: CardModel?
    var position: Pos
    var zOrder: int
    var visible: bool
    var background: Option<Colour>
    var bigNumber: Option<bool>
    var smallNumber: Option<bool>
    var smallSuit: Option<bool>

    ghost function Abs(): ViewState
      reads this
    {
      ViewState(position, zOrder, visible, background, bigNumber, smallNumber, smallSuit)
    }

    /**
     * CardView::init without the sprite construction: which sprites loaded is given, each is
     * created visible and white, the node starts visible at the origin, and init ends with a refresh.
     */
    constructor (model: CardModel, hasBackground: bool, hasBigNumber: bool, hasSmallNumber: bool, hasSmallSuit: bool)
      ensures this.model == model
      ensures Abs() == Refreshed(
        ViewState(Zero, 0, true,
          if hasBackground then Some(White) else None,
          if hasBigNumber then Some(true) else None,
          if hasSmallNumber then Some(true) else None,
          if hasSmallSuit then Some(true) else None),
        model.Value())
    {
      this.model := model;
      position := Zero;
      zOrder := 0;
      visible := true;
      background := if hasBackground then Some(White) else None;
      bigNumber := if hasBigNumber then Some(true) else None;
      smallNumber := if hasSmallNumber then Some(true) else None;
      smallSuit := if hasSmallSuit then Some(true) else None;
      new;
      UpdateView();
    }

    /** updateView: nothing without a model, otherwise the refresh of the card's current value. */
    method UpdateView()
      modifies this
      ensures model == null ==> Abs() == old(Abs())
      ensures model != null ==> Abs() == Refreshed(old(Abs()), model.Value())
    {
      if model == null {
        return;
      }
      position := model.position;
      zOrder := model.zIndex;
      if model.state == FaceUp {
        if background.Some? { background := Some(White); }
        if bigNumber.Some? { bigNumber := Some(true); }
        if smallNumber.Some? { smallNumber := Some(true); }
        if smallSuit.Some? { smallSuit := Some(true); }
      } else {
        if background.Some? { background := Some(Grey); }
        if bigNumber.Some? { bigNumber := Some(false); }
        if smallNumber.Some? { smallNumber := Some(false); }
        if smallSuit.Some? { smallSuit := Some(false); }
      }
      visible := model.state != Removed;
    }
  }
}
