/** How a card image is shown: the transform a layout calls for
    (`parseCardTransformType`) and the image address picked from the card's
    image links (`getCardImageUrl`). */
module CardImage {
  import opened Wrappers
  import opened JsText

  /** `CardTransformEnum`. */
  datatype Transform = NoTransform | DFC | Rotate90Clockwise | Rotate90Anticlockwise | Rotate180

  /** The layouts whose cards have a back face to turn to. */
  predicate IsDoubleFacedLayout(layout: string) {
    layout == "transform" || layout == "modal_dfc" || layout == "double_faced_token" || layout == "reversible_card"
  }

  /** The layouts shown turned sideways. */
  predicate IsSidewaysLayout(layout: string) {
    layout == "split" || layout == "planar"
  }

  /** Some keyword is "aftermath", ignoring case. */
  predicate HasAftermath(keywords: seq<string>) {
    exists i :: 0 <= i < |keywords| && Lower(keywords[i]) == "aftermath"
  }

  /** `parseCardTransformType({ layout, keywords })`. For a split or planar card
      the keywords are searched, which throws when they are missing. */
  function ParseCardTransformType(layout: Option<string>, keywords: Option<seq<string>>): (r: Result<Transform>)
    ensures r.Failure? <==> layout.Some? && IsSidewaysLayout(layout.value) && keywords.None?
    ensures r.Failure? ==> r.error.TypeError?
    ensures r == Success(DFC) <==> layout.Some? && IsDoubleFacedLayout(layout.value)
    ensures r == Success(Rotate90Anticlockwise) <==>
              layout.Some? && IsSidewaysLayout(layout.value) && keywords.Some? && HasAftermath(keywords.value)
    ensures r == Success(Rotate90Clockwise) <==>
              layout.Some? && IsSidewaysLayout(layout.value) && keywords.Some? && !HasAftermath(keywords.value)
    ensures r == Success(Rotate180) <==> layout == Some("flip")
    ensures r == Success(NoTransform) <==>
              layout.None? || !(IsDoubleFacedLayout(layout.value) || IsSidewaysLayout(layout.value) || layout.value == "flip")
  {
    match layout
    case None => Success(NoTransform)
    case Some(l) =>
      if IsDoubleFacedLayout(l) then Success(DFC)
      else if IsSidewaysLayout(l) then
        match keywords
        case None => Failure(TypeError("Cannot read properties of undefined (reading 'find')"))
        case Some(ks) => Success(if HasAftermath(ks) then Rotate90Anticlockwise else Rotate90Clockwise)
      else if l == "flip" then Success(Rotate180)
      else Success(NoTransform)
  }

  /** Outside split and planar cards the keywords play no part. */
  lemma KeywordsOnlyMatterSideways(layout: Option<string>, k1: Option<seq<string>>, k2: Option<seq<string>>)
    requires layout.None? || !IsSidewaysLayout(layout.value)
    ensures ParseCardTransformType(layout, k1) == ParseCardTransformType(layout, k2)
    ensures ParseCardTransformType(layout, k1).Success?
  {
  }

  /** An Aftermath card is turned anticlockwise however its keyword is capitalised,
      wherever the keyword sits in the list. */
  lemma AftermathAnyCase(layout: string, before: seq<string>, word: string, after: seq<string>)
    requires IsSidewaysLayout(layout) && Lower(word) == "aftermath"
    ensures ParseCardTransformType(Some(layout), Some(before + [word] + after)) == Success(Rotate90Anticlockwise)
  {
    var ks := before + [word] + after;
    assert ks[|before|] == word;
  }

  // ---------------------------------------------------------------------------
  // getCardImageUrl

  /** A card's `image_uris`: each size may be missing. */
  datatype ImageUris = ImageUris(png: Option<string>, large: Option<string>, normal: Option<string>, small: Option<string>)

  /** One entry of `card_faces`. */
  datatype CardFace = CardFace(imageUris: Option<ImageUris>)

  const Cardback: string := "/cardback.png"

  /** The links in order of preference. */
  function Links(u: ImageUris): seq<Option<string>> {
    [u.png, u.large, u.normal, u.small]
  }

  /** `png ?? large ?? normal ?? small ?? '/cardback.png'`. */
  function PreferredUrl(uris: Option<ImageUris>): (r: string)
    ensures r != Cardback ==> uris.Some? && Some(r) in Links(uris.value)
    ensures uris.None? || (forall i :: 0 <= i < 4 ==> Links(uris.value)[i].None?) ==> r == Cardback
  {
    match uris
    case None => Cardback
    case Some(u) =>
      if u.png.Some? then u.png.value
      else if u.large.Some? then u.large.value
      else if u.normal.Some? then u.normal.value
      else if u.small.Some? then u.small.value
      else Cardback
  }

  /** The address is the first link present in order of preference; a present
      but empty link is still taken. */
  lemma PreferredUrlIsFirstPresent(u: ImageUris, i: nat)
    requires i < 4 && Links(u)[i].Some?
    requires forall j :: 0 <= j < i ==> Links(u)[j].None?
    ensures PreferredUrl(Some(u)) == Links(u)[i].value
  {
    if i > 0 {
      assert Links(u)[0].None?;
    }
    if i > 1 {
      assert Links(u)[1].None?;
    }
    if i > 2 {
      assert Links(u)[2].None?;
    }
  }

  /** The face whose links are used: the back when turned over. */
  function FaceIndex(transformed: bool): nat {
    if transformed then 1 else 0
  }

  /** `getCardImageUrl({ card_faces, image_uris })`. A double-faced card with a
      face list reads the links of the face shown; reading a face past the end
      of the list throws. */
  function GetCardImageUrl(faces: Option<seq<CardFace>>, uris: Option<ImageUris>, transform: Transform, transformed: bool)
    : (r: Result<string>)
    ensures r.Failure? <==> faces.Some? && transform == DFC && FaceIndex(transformed) >= |faces.value|
    ensures r.Failure? ==> r.error.TypeError?
    ensures r.Success? && r.value != Cardback ==>
              exists u :: (u == uris || (faces.Some? && u in Facelinks(faces.value))) && u.Some? && Some(r.value) in Links(u.value)
  {
    if faces.Some? && transform == DFC then
      var i := FaceIndex(transformed);
      if i < |faces.value| then
        var u := faces.value[i].imageUris;
        assert u in Facelinks(faces.value);
        Success(PreferredUrl(u))
      else Failure(TypeError("Cannot read properties of undefined (reading 'image_uris')"))
    else Success(PreferredUrl(uris))
  }

  /** The link sets of the faces. */
  function Facelinks(faces: seq<CardFace>): (r: seq<Option<ImageUris>>)
    ensures |r| == |faces|
    ensures forall i :: 0 <= i < |faces| ==> r[i] == faces[i].imageUris
  {
    seq(|faces|, i requires 0 <= i < |faces| => faces[i].imageUris)
  }

  /** A two-faced card shows the front's address, and the back's once turned. */
  lemma TurningOverShowsTheBack(front: CardFace, back: CardFace, uris: Option<ImageUris>)
    ensures GetCardImageUrl(Some([front, back]), uris, DFC, false) == Success(PreferredUrl(front.imageUris))
    ensures GetCardImageUrl(Some([front, back]), uris, DFC, true) == Success(PreferredUrl(back.imageUris))
  {
  }

  /** Face lists matter only for double-faced cards. */
  lemma FacesIgnoredUnlessDoubleFaced(faces: Option<seq<CardFace>>, uris: Option<ImageUris>, transform: Transform, transformed: bool)
    requires transform != DFC
    ensures GetCardImageUrl(faces, uris, transform, transformed) == GetCardImageUrl(None, uris, transform, !transformed)
  {
  }

  /** A one-faced list of a double-faced card cannot be turned over. */
  lemma TurningOverSingleFaceFails(front: CardFace, uris: Option<ImageUris>)
    ensures GetCardImageUrl(Some([front]), uris, DFC, true).Failure?
    ensures GetCardImageUrl(Some([front]), uris, DFC, false) == Success(PreferredUrl(front.imageUris))
  {
  }
}
