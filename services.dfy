/**
 The service layer: `CategoryServiceImpl` and `ProductServiceImpl`. Each holds
 its entity's repository and adds one policy to it: a read, update or delete
 addressed to an id that is not stored fails with `EntityNotFoundException`
 before anything is saved or removed.
 */
module Services {
  import opened Wrappers
  import opened Entities
  import opened Persistence

  /** A service call's outcome: its value, or the not-found exception naming the entity kind and the id. */
  datatype Result<T> = Ok(value: T) | NotFound(entity: string, id: Key)

  class CategoryService {
    const repository: Repository<CategoryData>

    constructor (repository: Repository<CategoryData>)
      ensures this.repository == repository
    {
      this.repository := repository;
    }

    /** `getCategoryById`: the stored category, or not-found; the store is only read. */
    method GetById(id: Key) returns (r: Result<Category>)
      ensures r.Ok? <==> id in repository.rows
      ensures r.Ok? ==> r.value == Entity(Some(id), repository.rows[id])
      ensures r.NotFound? ==> r == NotFound("Category", id)
    {
      var found := repository.FindById(id);
      if found.Some? {
        r := Ok(found.value);
      } else {
        r := NotFound("Category", id);
      }
    }

    /** `createCategory`: saves the request body and returns it with the key it is stored under. */
    method Create(category: Category) returns (created: Category)
      requires repository.Valid()
      modifies repository
      ensures repository.Valid()
      ensures created.id.Some? && created.data == category.data
      ensures repository.rows == old(repository.rows)[created.id.value := category.data]
      ensures category.id.Some? && category.id.value in old(repository.rows) ==>
        created == category && repository.nextId == old(repository.nextId)
      ensures !(category.id.Some? && category.id.value in old(repository.rows)) ==>
        && created.id == Some(old(repository.nextId)) && old(repository.nextId) !in old(repository.rows)
        && repository.nextId == old(repository.nextId) + 1
    {
      created := repository.Save(category);
    }

    /**
     `updateCategory`: not-found leaves the store as it was; otherwise the
     stored category takes the body's name, keeps its id whatever id the body
     carries, and no other row changes.
     */
    method Update(id: Key, category: Category) returns (r: Result<Category>)
      requires repository.Valid()
      modifies repository
      ensures repository.Valid() && repository.nextId == old(repository.nextId)
      ensures id !in old(repository.rows) ==>
        r == NotFound("Category", id) && repository.rows == old(repository.rows)
      ensures id in old(repository.rows) ==>
        && repository.rows == old(repository.rows)[id := old(repository.rows)[id].(name := category.data.name)]
        && r == Ok(Entity(Some(id), repository.rows[id]))
    {
      var found := GetById(id);
      if found.NotFound? {
        return NotFound("Category", id);
      }
      var existing := found.value;
      existing := existing.(data := existing.data.(name := category.data.name));
      var saved := repository.Save(existing);
      r := Ok(saved);
    }

    /** `deleteCategory`: not-found leaves the store as it was; otherwise exactly that row is removed. */
    method Delete(id: Key) returns (r: Result<()>)
      requires repository.Valid()
      modifies repository
      ensures repository.Valid() && repository.nextId == old(repository.nextId)
      ensures id !in old(repository.rows) ==>
        r == NotFound("Category", id) && repository.rows == old(repository.rows)
      ensures id in old(repository.rows) ==>
        r == Ok(()) && repository.rows == old(repository.rows) - {id}
    {
      var found := GetById(id);
      if found.NotFound? {
        return NotFound("Category", id);
      }
      repository.Delete(found.value);
      r := Ok(());
    }
  }

  class ProductService {
    const repository: Repository<ProductData>

    constructor (repository: Repository<ProductData>)
      ensures this.repository == repository
    {
      this.repository := repository;
    }

    /** `getProductById`: the stored product, or not-found; the store is only read. */
    method GetById(id: Key) returns (r: Result<Product>)
      ensures r.Ok? <==> id in repository.rows
      ensures r.Ok? ==> r.value == Entity(Some(id), repository.rows[id])
      ensures r.NotFound? ==> r == NotFound("Product", id)
    {
      var found := repository.FindById(id);
      if found.Some? {
        r := Ok(found.value);
      } else {
        r := NotFound("Product", id);
      }
    }

    /** `createProduct`: saves the request body and returns it with the key it is stored under. */
    method Create(product: Product) returns (created: Product)
      requires repository.Valid()
      modifies repository
      ensures repository.Valid()
      ensures created.id.Some? && created.data == product.data
      ensures repository.rows == old(repository.rows)[created.id.value := product.data]
      ensures product.id.Some? && product.id.value in old(repository.rows) ==>
        created == product && repository.nextId == old(repository.nextId)
      ensures !(product.id.Some? && product.id.value in old(repository.rows)) ==>
        && created.id == Some(old(repository.nextId)) && old(repository.nextId) !in old(repository.rows)
        && repository.nextId == old(repository.nextId) + 1
    {
      created := repository.Save(product);
    }

    /**
     `updateProduct`: not-found leaves the store as it was; otherwise the
     stored product takes the body's name and keeps its id and its category,
     whatever the body carries, and no other row changes.
     */
    method Update(id: Key, product: Product) returns (r: Result<Product>)
      requires repository.Valid()
      modifies repository
      ensures repository.Valid() && repository.nextId == old(repository.nextId)
      ensures id !in old(repository.rows) ==>
        r == NotFound("Product", id) && repository.rows == old(repository.rows)
      ensures id in old(repository.rows) ==>
        && repository.rows == old(repository.rows)[id := old(repository.rows)[id].(name := product.data.name)]
        && repository.rows[id].category == old(repository.rows)[id].category
        && r == Ok(Entity(Some(id), repository.rows[id]))
    {
      var found := GetById(id);
      if found.NotFound? {
        return NotFound("Product", id);
      }
      var existing := found.value;
      existing := existing.(data := existing.data.(name := product.data.name));
      var saved := repository.Save(existing);
      r := Ok(saved);
    }

    /** `deleteProduct`: not-found leaves the store as it was; otherwise exactly that row is removed. */
    method Delete(id: Key) returns (r: Result<()>)
      requires repository.Valid()
      modifies repository
      ensures repository.Valid() && repository.nextId == old(repository.nextId)
      ensures id !in old(repository.rows) ==>
        r == NotFound("Product", id) && repository.rows == old(repository.rows)
      ensures id in old(repository.rows) ==>
        r == Ok(()) && repository.rows == old(repository.rows) - {id}
    {
      var found := GetById(id);
      if found.NotFound? {
        return NotFound("Product", id);
      }
      repository.Delete(found.value);
      r := Ok(());
    }
  }

}
