/** One card of the listing grid (src/components/PropertyCard.tsx): the localized
    title and location, the image slides with their alt texts, the position dots
    and the favourite heart. The carousel's scrolling is not modelled. */
module PropertyCard {
  import opened Wrappers
  import opened Listing
  import Header

  /** The Bengali value exactly when the language is "bn", the English one otherwise. */
  function Localized(lang: string, en: string, bn: string): (r: string)
    ensures lang == "bn" ==> r == bn
    ensures lang != "bn" ==> r == en
  {
    if lang == "bn" then bn else en
  }

  function Title(lang: string, row: PropertyRow): string {
    Localized(lang, row.title, row.titleBn)
  }

  function Location(lang: string, row: PropertyRow): string {
    Localized(lang, row.location, row.locationBn)
  }

  /** Title and location always come from the same language, and a press of the
      header's language button switches both between the two sets of fields. */
  lemma LocaleFollowsHeader(lang: string, row: PropertyRow)
    ensures (Title(lang, row), Location(lang, row)) ==
      (if lang == "bn" then (row.titleBn, row.locationBn) else (row.title, row.location))
    ensures lang == "en" || lang == "bn" ==>
      (Title(Header.ToggleLanguage(lang), row), Location(Header.ToggleLanguage(lang), row)) ==
      (if lang == "bn" then (row.title, row.location) else (row.titleBn, row.locationBn))
  {
  }

  /** `image.alt_text || title`: a missing or empty alt text falls back to the title. */
  function AltText(img: ImageRow, title: string): (alt: string)
    ensures img.altText.Some? && img.altText.value != [] ==> alt == img.altText.value
    ensures img.altText.None? || img.altText.value == [] ==> alt == title
  {
    match img.altText
    case Some(a) => if a != [] then a else title
    case None => title
  }

  /** An image is never described by an empty text unless the title is empty too. */
  lemma AltTextNonEmpty(img: ImageRow, title: string)
    requires title != []
    ensures AltText(img, title) != []
  {
  }

  datatype Slide = Slide(src: string, alt: string)

  /** One slide per image, in the order the images came with the row. */
  function Slides(images: seq<ImageRow>, title: string): (r: seq<Slide>)
    ensures |r| == |images|
    ensures forall i :: 0 <= i < |images| ==> r[i] == Slide(images[i].imageUrl, AltText(images[i], title))
    decreases |images|
  {
    if |images| == 0 then []
    else [Slide(images[0].imageUrl, AltText(images[0], title))] + Slides(images[1..], title)
  }

  /** The slides of two image lists one after the other are the slides of the
      joined list. */
  lemma {:induction false} SlidesConcat(a: seq<ImageRow>, b: seq<ImageRow>, title: string)
    ensures Slides(a + b, title) == Slides(a, title) + Slides(b, title)
  {
    var l := Slides(a + b, title);
    var r := Slides(a, title) + Slides(b, title);
    assert |l| == |r|;
    forall i | 0 <= i < |l| ensures l[i] == r[i] {
      if i < |a| {
        assert (a + b)[i] == a[i];
      } else {
        assert (a + b)[i] == b[i - |a|];
      }
    }
  }

  /** The number of position dots: one per image, and none for a single image. */
  function DotCount(images: seq<ImageRow>): (n: nat)
    ensures n > 0 <==> |images| > 1
    ensures n > 0 ==> n == |Slides(images, "")|
  {
    if |images| > 1 then |images| else 0
  }

  /** `isFavorite`: off when the card is created, flipped by each click. */
  function FavoriteClick(isFavorite: bool): (r: bool)
    ensures r != isFavorite
  {
    !isFavorite
  }

  function Clicks(isFavorite: bool, k: nat): bool
    decreases k
  {
    if k == 0 then isFavorite else Clicks(FavoriteClick(isFavorite), k - 1)
  }

  /** After `k` clicks on a fresh card the heart is filled exactly when `k` is odd. */
  lemma {:induction false} FavoriteAfterClicks(start: bool, k: nat)
    ensures Clicks(start, k) == (start != (k % 2 == 1))
    decreases k
  {
    if k > 0 {
      FavoriteAfterClicks(FavoriteClick(start), k - 1);
    }
  }

  /** The heart starts empty. */
  lemma FreshCardAfterClicks(k: nat)
    ensures Clicks(false, k) <==> k % 2 == 1
  {
    FavoriteAfterClicks(false, k);
  }
}
