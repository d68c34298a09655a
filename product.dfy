/** The catalogue record of Product.h. */
module Products {

  /** A product: a unique identifier and a name. The identifier is kept as
      the integer it denotes; the tree orders and compares products by it. */
  datatype Product = Product(id: int, name: string)
}
