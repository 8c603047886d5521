/**
 The id-addressed handlers of the two REST controllers, which call their
 repository directly rather than going through a service. The category and
 product handlers are the same code over different entities, so one generic
 class models both: `Controller<CategoryData>` for `/api/categories` and
 `Controller<ProductData>` for `/api/products`.
 */
module Controllers {
  import opened Wrappers
  import opened Entities
  import opened Persistence

  /** The HTTP reply a handler builds: 200 with a body, 201 with a body, 204, or 404. */
  datatype Response<T> = Ok(body: T) | Created(body: T) | NoContent | NotFound {
    /** Every reply but not-found is a 2xx success; not-found is 404. */
    function Status(): (code: int)
      ensures NotFound? <==> code == 404
      ensures !NotFound? ==> 200 <= code < 300
    {
      match this
      case Ok(_) => 200
      case Created(_) => 201
      case NoContent => 204
      case NotFound => 404
    }
  }

  type CategoryController = Controller<CategoryData>
  type ProductController = Controller<ProductData>

  class Controller<D> {
    const repository: Repository<D>

    constructor (repository: Repository<D>)
      ensures this.repository == repository
    {
      this.repository := repository;
    }

    /** GET /{id}: 200 with the stored record, or 404; the store is only read. */
    method GetById(id: Key) returns (r: Response<Entity<D>>)
      ensures r.Ok? || r.NotFound?
      ensures r.Ok? <==> id in repository.rows
      ensures r.Ok? ==> r.body == Entity(Some(id), repository.rows[id])
    {
      var found := repository.FindById(id);
      if found.Some? {
        r := Ok(found.value);
      } else {
        r := NotFound;
      }
    }

    /** POST: saves the request body and answers 201 with the record as stored. */
    method Create(body: Entity<D>) returns (r: Response<Entity<D>>)
      requires repository.Valid()
      modifies repository
      ensures repository.Valid()
      ensures r.Created? && r.body.id.Some? && r.body.data == body.data
      ensures repository.rows == old(repository.rows)[r.body.id.value := body.data]
      ensures body.id.Some? && body.id.value in old(repository.rows) ==>
        r.body == body && repository.nextId == old(repository.nextId)
      ensures !(body.id.Some? && body.id.value in old(repository.rows)) ==>
        && r.body.id == Some(old(repository.nextId)) && old(repository.nextId) !in old(repository.rows)
        && repository.nextId == old(repository.nextId) + 1
    {
      var saved := repository.Save(body);
      r := Created(saved);
    }

    /**
     PUT /{id}: 404 without saving when `id` is not stored; otherwise the
     request body, with its id overwritten by the path's, replaces the whole
     stored row (for a product, its category too), and no other row changes.
     */
    method Update(id: Key, body: Entity<D>) returns (r: Response<Entity<D>>)
      requires repository.Valid()
      modifies repository
      ensures repository.Valid() && repository.nextId == old(repository.nextId)
      ensures id !in old(repository.rows) ==>
        r == NotFound && repository.rows == old(repository.rows)
      ensures id in old(repository.rows) ==>
        r == Ok(Entity(Some(id), body.data)) && repository.rows == old(repository.rows)[id := body.data]
    {
      var found := repository.FindById(id);
      if found.Some? {
        var updated := body.(id := Some(id));
        var saved := repository.Save(updated);
        r := Ok(saved);
      } else {
        r := NotFound;
      }
    }

    /** DELETE /{id}: 204 after removing exactly that row, or 404 with the store unchanged. */
    method Delete(id: Key) returns (r: Response<()>)
      requires repository.Valid()
      modifies repository
      ensures repository.Valid() && repository.nextId == old(repository.nextId)
      ensures id !in old(repository.rows) ==>
        r == NotFound && repository.rows == old(repository.rows)
      ensures id in old(repository.rows) ==>
        r == NoContent && repository.rows == old(repository.rows) - {id}
    {
      var present := repository.ExistsById(id);
      if present {
        repository.DeleteById(id);
        r := NoContent;
      } else {
        r := NotFound;
      }
    }
  }

}
