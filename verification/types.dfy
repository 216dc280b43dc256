/** The content records the pages display (src/types/index.ts). */
module Types {
  import opened Wrappers

  /**
   * A product document. Dates are integer timestamps (what `new Date(..).getTime()`
   * yields for a well-formed date string); the price is an integer amount.
   */
  datatype Product = Product(
    id: string,
    name: string,
    nameEn: string,
    description: string,
    descriptionEn: string,
    imageRef: string,
    category: string,
    categoryEn: string,
    price: Option<int>,
    features: Option<seq<string>>,
    featuresEn: Option<seq<string>>,
    createdAt: int,
    updatedAt: int)

  /** A contact person; `image` is the asset reference of the optional photo. */
  datatype Contact = Contact(
    id: string,
    name: string,
    nameEn: string,
    position: string,
    positionEn: string,
    email: string,
    phone: string,
    whatsapp: Option<string>,
    image: Option<string>)
}
