/**
 * Backend/src/controllers/categoryController.ts: creating, listing,
 * updating and deleting categories, keeping the products' `categories`
 * lists in step on create and delete. As for products, each handler is a
 * method proved equal to a function of the database before the request.
 *
 * Owner checks compare `category.createdBy.toString()` with `req.user._id`
 * (an ObjectId at run time); the model compares the two ids.
 */
module CategoryController {
  import opened Wrappers
  import opened Text
  import opened Models
  import opened Access
  import Links
  import Mongo
  import opened Http
  import opened Database

  /** The JSON body of POST and PUT /categories; None is a field left out. */
  datatype CategoryBody = CategoryBody(name: Option<string>, description: Option<string>, productIds: Option<seq<Id>>)

  /**
   * `new Category({...})` for `caller`: the name trimmed (a missing name is
   * stored as empty, which validation rejects), `products` as given or empty.
   */
  function NewCategory(caller: Caller, body: CategoryBody): Category {
    Category(Trim(body.name.GetOr("")), body.description.GetOr(""), body.productIds.GetOr([]), caller.id)
  }

  /**
   * createCategory: 400 when the caller already has a category of that
   * name (a missing name matches nothing); otherwise save the category, 500
   * if the store refuses it, and add its id to the listed products.
   */
  function CreateCategorySpec(db: Db, caller: Caller, body: CategoryBody): Outcome {
    if body.name.Some? && Mongo.CategoryExists(db.categories, Trim(body.name.value), caller.id) then
      Outcome(400, "Category already exists", None, db)
    else SaveAndLink(db, NewCategory(caller, body))
  }

  /** Save the new category `c`; on success add its id to the products it lists. */
  function SaveAndLink(db: Db, c: Category): Outcome {
    var w := Mongo.InsertCategory(db, c);
    if !w.ok then Outcome(500, ServerError, None, db) else
    var cid := db.nextId;
    Outcome(201, "Category created", Some(cid),
      if |c.products| > 0 then Mongo.AddCategoryToProducts(w.db, IdSet(c.products), cid) else w.db)
  }

  method CreateCategory(s: Store, caller: Caller, body: CategoryBody) returns (status: nat, message: string, created: Option<Id>)
    requires Permits(Route.CreateCategory, caller)
    requires s.Valid()
    modifies s
    ensures Outcome(status, message, created, s.Snapshot()) == CreateCategorySpec(old(s.Snapshot()), caller, body)
    ensures s.Valid()
  {
    CreateCategoryKeepsValid(s.Snapshot(), caller, body);
    if body.name.Some? && Mongo.CategoryExists(s.categories, Trim(body.name.value), caller.id) {
      return 400, "Category already exists", None;
    }
    var ok, cid := s.InsertCategory(NewCategory(caller, body));
    if !ok {
      return 500, ServerError, None;
    }
    if body.productIds.Some? && |body.productIds.value| > 0 {
      s.AddCategoryToProducts(IdSet(body.productIds.value), cid);
    }
    return 201, "Category created", Some(cid);
  }

  /**
   * createCategory answers 400, writing nothing, exactly when the caller
   * already has a category of the trimmed name; it answers 201 exactly when
   * the trimmed name is not empty and no category of any owner holds it;
   * otherwise 500, again writing nothing.
   */
  lemma CreateCategoryStatus(db: Db, caller: Caller, body: CategoryBody)
    requires NextIdFresh(db)
    ensures var out := CreateCategorySpec(db, caller, body);
      && (out.status == 400 <==> body.name.Some? && Mongo.CategoryExists(db.categories, Trim(body.name.value), caller.id))
      && (out.status == 201 <==>
        && body.name.Some? && Trim(body.name.value) != ""
        && forall q :: q in db.categories ==> db.categories[q].name != Trim(body.name.value))
      && (out.status == 201 || out.status == 400 || out.status == 500)
      && (out.status != 201 ==> out.db == db && out.created == None)
  {
    var c := NewCategory(caller, body);
    if body.name.Some? && Mongo.CategoryExists(db.categories, Trim(body.name.value), caller.id) {
      var q :| q in db.categories && db.categories[q].name == Trim(body.name.value) && db.categories[q].createdBy == caller.id;
    } else {
      SaveAndLinkStatus(db, c);
      assert body.name.None? ==> c.name == "" by { assert AllSpace(""); }
      assert CategorySchemaOk(c) <==> c.name != "";
    }
  }

  /** The save answers 201 exactly when the store accepts the category, and otherwise 500 with nothing written. */
  lemma SaveAndLinkStatus(db: Db, c: Category)
    requires NextIdFresh(db)
    ensures var out := SaveAndLink(db, c);
      && (out.status == 201 <==> CanSaveCategory(db.categories, db.nextId, c))
      && (out.status == 201 || out.status == 500)
      && (out.status != 201 ==> out.db == db && out.created == None)
  {
  }

  /**
   * A 201 inserts one new category, owned by the caller, with the trimmed
   * name and `products` equal to `productIds` (or empty), and adds its id to
   * each listed product at most once, leaving other products alone.
   */
  lemma CreateCategoryLinks(db: Db, caller: Caller, body: CategoryBody)
    requires NextIdFresh(db)
    requires CreateCategorySpec(db, caller, body).status == 201
    ensures var out := CreateCategorySpec(db, caller, body);
      var cid := db.nextId;
      && out.created == Some(cid) && cid !in db.categories
      && out.db.categories == db.categories[cid := Category(Trim(body.name.value), body.description.GetOr(""),
        body.productIds.GetOr([]), caller.id)]
      && out.db.products == Links.AddCategoryToProducts(db.products, IdSet(body.productIds.GetOr([])), cid)
      && out.db.inventories == db.inventories && out.db.users == db.users
  {
    assert AllSpace("");
    assert body.name.Some?;
    assert NewCategory(caller, body) == Category(Trim(body.name.value), body.description.GetOr(""),
      body.productIds.GetOr([]), caller.id);
    SaveAndLinkEffect(db, NewCategory(caller, body));
  }

  lemma SaveAndLinkEffect(db: Db, c: Category)
    requires SaveAndLink(db, c).status == 201
    ensures var out := SaveAndLink(db, c);
      && out.db.categories == db.categories[db.nextId := c]
      && out.db.products == Links.AddCategoryToProducts(db.products, IdSet(c.products), db.nextId)
      && out.db.inventories == db.inventories && out.db.users == db.users
  {
    if |c.products| == 0 {
      assert IdSet(c.products) == {};
      assert db.products == Links.AddCategoryToProducts(db.products, {}, db.nextId);
    }
  }

  lemma CreateCategoryKeepsValid(db: Db, caller: Caller, body: CategoryBody)
    requires Valid(db)
    ensures Valid(CreateCategorySpec(db, caller, body).db)
  {
    Mongo.InsertCategoryKeepsValid(db, NewCategory(caller, body));
    var w := Mongo.InsertCategory(db, NewCategory(caller, body));
    Mongo.UpdateManyKeepsValid(w.db, IdSet(body.productIds.GetOr([])), db.nextId);
  }

  /** getCategories: a master sees the categories it created, any other role sees them all. */
  function GetCategories(db: Db, caller: Caller): (r: map<Id, Category>)
    ensures forall c :: c in r ==> c in db.categories && r[c] == db.categories[c]
    ensures caller.role == Master ==>
      forall c :: c in r <==> c in db.categories && db.categories[c].createdBy == caller.id
    ensures caller.role == Admin ==> r == db.categories
  {
    map c | c in db.categories && InScope(caller, db.categories[c].createdBy) :: db.categories[c]
  }

  /** updateCategory assigns `name` (trimmed) and `description` when they are truthy. */
  function Rename(c: Category, body: CategoryBody): Category {
    c.(name := if Truthy(body.name) then Trim(body.name.value) else c.name,
       description := if Truthy(body.description) then body.description.value else c.description)
  }

  /** updateCategory: 404, then 403, then save the renamed category (500 if the store refuses it). */
  function UpdateCategorySpec(db: Db, caller: Caller, id: Id, body: CategoryBody): Outcome {
    if id !in db.categories then Outcome(404, "Category not found", None, db)
    else if db.categories[id].createdBy != caller.id then
      Outcome(403, "Unauthorized to update this category", None, db)
    else
      var w := Mongo.SaveCategory(db, id, Rename(db.categories[id], body));
      if w.ok then Outcome(200, "Category updated", None, w.db) else Outcome(500, ServerError, None, db)
  }

  method UpdateCategory(s: Store, caller: Caller, id: Id, body: CategoryBody) returns (status: nat, message: string)
    requires Permits(Route.UpdateCategory, caller)
    requires s.Valid()
    modifies s
    ensures Outcome(status, message, None, s.Snapshot()) == UpdateCategorySpec(old(s.Snapshot()), caller, id, body)
    ensures s.Valid()
  {
    UpdateCategoryKeepsValid(s.Snapshot(), caller, id, body);
    if id !in s.categories {
      return 404, "Category not found";
    }
    if s.categories[id].createdBy != caller.id {
      return 403, "Unauthorized to update this category";
    }
    var ok := s.SaveCategory(id, Rename(s.categories[id], body));
    if !ok {
      return 500, ServerError;
    }
    return 200, "Category updated";
  }

  /**
   * updateCategory checks 404 then 403 before any write. It changes only
   * that category's `name` and `description`, each only when given truthy;
   * its `products` list and owner stay, and so does everything else. The
   * save fails (500, no write) when the trimmed name is empty or another
   * category holds it.
   */
  lemma UpdateCategoryEffect(db: Db, caller: Caller, id: Id, body: CategoryBody)
    ensures var out := UpdateCategorySpec(db, caller, id, body);
      && (out.status == 404 <==> id !in db.categories)
      && (out.status == 403 <==> id in db.categories && db.categories[id].createdBy != caller.id)
      && (out.status != 200 ==> out.db == db)
      && (out.status == 200 ==>
        && id in db.categories
        && out.db == db.(categories := db.categories[id := out.db.categories[id]])
        && var c, c' := db.categories[id], out.db.categories[id];
        && c'.name == (if Truthy(body.name) then Trim(body.name.value) else c.name)
        && c'.description == (if Truthy(body.description) then body.description.value else c.description)
        && c'.products == c.products && c'.createdBy == c.createdBy)
      && (id in db.categories && db.categories[id].createdBy == caller.id ==>
        (out.status == 200 <==> CanSaveCategory(db.categories, id, Rename(db.categories[id], body))))
  {
  }

  lemma UpdateCategoryKeepsValid(db: Db, caller: Caller, id: Id, body: CategoryBody)
    requires Valid(db)
    ensures Valid(UpdateCategorySpec(db, caller, id, body).db)
  {
    if id in db.categories {
      Mongo.SaveCategoryKeepsValid(db, id, Rename(db.categories[id], body));
    }
  }

  /**
   * deleteCategory: delete first; 404 when there was nothing to delete, 403
   * (the category already gone) for another owner's; otherwise pull its id
   * from the `categories` list of every product.
   */
  function DeleteCategorySpec(db: Db, caller: Caller, id: Id): Outcome {
    if id !in db.categories then Outcome(404, "Category not found", None, db) else
    var db1 := Mongo.DeleteCategory(db, id);
    if db.categories[id].createdBy != caller.id then
      Outcome(403, "Unauthorized to delete this category", None, db1)
    else Outcome(200, "Category deleted", None, Mongo.PullCategoryFromProducts(db1, id))
  }

  method DeleteCategory(s: Store, caller: Caller, id: Id) returns (status: nat, message: string)
    requires Permits(Route.DeleteCategory, caller)
    requires s.Valid()
    modifies s
    ensures Outcome(status, message, None, s.Snapshot()) == DeleteCategorySpec(old(s.Snapshot()), caller, id)
    ensures s.Valid()
  {
    DeleteCategoryKeepsValid(s.Snapshot(), caller, id);
    if id !in s.categories {
      return 404, "Category not found";
    }
    var owner := s.categories[id].createdBy;
    s.DeleteCategory(id);
    if owner != caller.id {
      return 403, "Unauthorized to delete this category";
    }
    s.PullCategoryFromProducts(id);
    return 200, "Category deleted";
  }

  /**
   * deleteCategory: 404 with no write exactly for an unknown id; 403 for
   * another owner's category, which is deleted anyway while every product
   * keeps listing it; 200 for the owner, after which no product, whoever
   * owns it, lists the category and every other entry keeps its count.
   */
  lemma DeleteCategoryEffect(db: Db, caller: Caller, id: Id)
    ensures var out := DeleteCategorySpec(db, caller, id);
      && (out.status == 404 <==> id !in db.categories)
      && (out.status == 404 ==> out.db == db)
      && (out.status == 403 <==> id in db.categories && db.categories[id].createdBy != caller.id)
      && (out.status == 403 ==> out.db == db.(categories := db.categories - {id}))
      && (out.status == 200 ==>
        && out.db.categories == db.categories - {id}
        && out.db.products.Keys == db.products.Keys
        && (forall p :: p in out.db.products ==> id !in out.db.products[p].categories)
        && (forall p, y :: p in out.db.products && y != id ==>
          Links.Count(out.db.products[p].categories, y) == Links.Count(db.products[p].categories, y))
        && out.db.inventories == db.inventories && out.db.users == db.users)
  {
  }

  lemma DeleteCategoryKeepsValid(db: Db, caller: Caller, id: Id)
    requires Valid(db)
    ensures Valid(DeleteCategorySpec(db, caller, id).db)
  {
    Mongo.DeleteCategoryKeepsValid(db, id);
    Mongo.UpdateManyKeepsValid(Mongo.DeleteCategory(db, id), {}, id);
  }
}
