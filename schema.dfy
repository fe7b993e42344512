/**
 * The values stored in the site configuration (site.json) that the directive
 * interpreter reads and writes.
 */
module Schema {

  /** One entry of `services`: `{ title, desc, price }`. */
  datatype Service = Service(title: string, desc: string, price: string)

  /** A value of the `features` object: a flag, or the hero image URL. */
  datatype FeatureVal = B(flag: bool) | S(url: string)

  /** The brand written when the stored one is missing or empty. */
  const DefaultBrand: string := "Buds at Work"

  /** The service appended while fewer than three are present. */
  const Placeholder: Service := Service("Service", "Description", "from $100")

  // The closed colour palette of the colour keywords.
  const Coral: string := "#ef5350"
  const Mustard: string := "#c9a227"
  const Purple: string := "#6A1B9A"
  const Green: string := "#0f3d2e"
  const Cream: string := "#fff6e8"
}
