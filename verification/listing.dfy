/** The rows of the hosted store that the components read and write, and the
    store itself as three in-memory tables. */
module Listing {
  import opened Wrappers

  /** A row of the `properties` table. `created_at` is an ISO-8601 timestamp in
      the store; only its order matters here, so it is an integer. */
  datatype PropertyRow = PropertyRow(
    id: string,
    title: string,
    titleBn: string,
    description: Option<string>,
    descriptionBn: Option<string>,
    categoryId: Option<string>,
    pricePerNight: real,
    location: string,
    locationBn: string,
    maxGuests: int,
    bedrooms: int,
    bathrooms: int,
    isActive: bool,
    adminId: Option<string>,
    createdAt: int
  )

  /** A row of `property_images`. */
  datatype ImageRow = ImageRow(propertyId: string, imageUrl: string, altText: Option<string>, displayOrder: int)

  /** A row of the `property_amenities` join table. */
  datatype AmenityLink = AmenityLink(propertyId: string, amenityId: string)

  /** The store: each table in the order its rows were inserted. */
  datatype Db = Db(properties: seq<PropertyRow>, images: seq<ImageRow>, amenityLinks: seq<AmenityLink>)

  /** A property as the public grid selects it: the row with its embedded images. */
  datatype Listing = Listing(row: PropertyRow, images: seq<ImageRow>)
}
