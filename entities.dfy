/**
 The two JPA entities, Category and Product, as values.

 A record is split into its identity and its remaining columns: `Entity(id, data)`.
 The identity is `None` (Java `null`) on a record the store has not yet assigned
 an id to, such as a request body for a create.
 */
module Entities {
  import opened Wrappers

  /** A primary key (`Long` in the source). */
  type Key = int

  datatype Entity<D> = Entity(id: Option<Key>, data: D)

  /** The columns of a category besides its id. */
  datatype CategoryData = CategoryData(name: string)

  /**
   The columns of a product besides its id. The many-to-one association to a
   category is kept as its join column, the referenced category's key (`None`
   for a product without a category).
   */
  datatype ProductData = ProductData(name: string, category: Option<Key>)

  type Category = Entity<CategoryData>
  type Product = Entity<ProductData>

}
