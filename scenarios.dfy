/**
 Call sequences over the services and controllers, each proved from the
 contracts of the calls it makes.
 */
module Scenarios {
  import opened Wrappers
  import opened Entities
  import opened Persistence
  import opened Services
  import opened Controllers

  /** A record just created is found again under the key it was returned with. */
  method CreateThenGet(service: ProductService, product: Product) returns (created: Product, fetched: Result<Product>)
    requires service.repository.Valid()
    modifies service.repository
    ensures created.id.Some? && fetched == Result.Ok(created) && created.data == product.data
  {
    created := service.Create(product);
    fetched := service.GetById(created.id.value);
  }

  /** After a delete, whether or not it found the id, a get of that id fails. */
  method DeleteThenGet(service: CategoryService, id: Key) returns (deleted: Result<()>, fetched: Result<Category>)
    requires service.repository.Valid()
    modifies service.repository
    ensures deleted.Ok? <==> id in old(service.repository.rows)
    ensures fetched == Result.NotFound("Category", id)
  {
    deleted := service.Delete(id);
    fetched := service.GetById(id);
  }

  /** The same holds through the controller: after its DELETE, a GET of that id answers 404. */
  method ControllerDeleteThenGet(controller: CategoryController, id: Key) returns (deleted: Response<()>, fetched: Response<Category>)
    requires controller.repository.Valid()
    modifies controller.repository
    ensures deleted == (if id in old(controller.repository.rows) then Response.NoContent else Response.NotFound)
    ensures fetched == Response.NotFound && fetched.Status() == 404
  {
    deleted := controller.Delete(id);
    fetched := controller.GetById(id);
  }

  /**
   The two ways of updating a product disagree on its category: from the
   same stored rows and the same request, the service keeps the stored
   category while the controller stores the body's.
   */
  method ProductUpdatesDisagree(service: ProductService, controller: ProductController, id: Key, body: Product)
    returns (viaService: Result<Product>, viaController: Response<Product>)
    requires service.repository != controller.repository
    requires service.repository.Valid() && controller.repository.Valid()
    requires service.repository.rows == controller.repository.rows
    requires id in service.repository.rows
    modifies service.repository, controller.repository
    ensures id in service.repository.rows && id in controller.repository.rows
    ensures service.repository.rows[id].category == old(service.repository.rows[id].category)
    ensures controller.repository.rows[id].category == body.data.category
    ensures service.repository.rows[id].name == controller.repository.rows[id].name == body.data.name
    ensures old(service.repository.rows[id].category) != body.data.category ==>
      service.repository.rows != controller.repository.rows
  {
    viaService := service.Update(id, body);
    viaController := controller.Update(id, body);
  }

}
