/** The plain records of the application: memberships and products. They carry
    no behaviour beyond their fields, so they are values here. A `null` column
    is `None`. */
module Records {
  import opened Common

  /** A loyalty or credit-card programme (`model/Membership.java`). The Java
      entity has no `equals`, so two memberships are the same when they are the
      same row; every stored row has its own `id`, which makes value equality
      agree with that. */
  datatype Membership = Membership(
    id: int,
    typeName: Option<string>,
    organizationName: Option<string>,
    description: Option<string>)

  /** A product or company a perk applies to (`model/Product.java`). */
  datatype Product = Product(
    id: int,
    name: Option<string>,
    description: Option<string>,
    company: Option<string>)
}
