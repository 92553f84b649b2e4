/**
 * Backend/src/controllers/productController.ts: creating, listing, updating
 * and deleting products while keeping the category lists and the inventory
 * row in step. Each handler is a method on the store, proved equal to a
 * function of the database before the request; the lemmas state what those
 * functions guarantee.
 *
 * Owner checks: the source compares `product.createdBy.toString()` with
 * `req.user._id`; the declared request type makes the latter a string, but at
 * run time it is the user document's ObjectId. The model compares the two ids.
 */
module ProductController {
  import opened Wrappers
  import opened Text
  import opened Models
  import opened Access
  import Links
  import Mongo
  import Stock
  import opened Http
  import opened Database

  /** The JSON body of POST and PUT /products; None is a field left out. */
  datatype ProductBody = ProductBody(
    name: Option<string>,
    description: Option<string>,
    price: Option<int>,
    stock: Option<int>,
    categoryIds: Option<seq<Id>>,
    available: Option<int>,
    sold: Option<int>)

  /**
   * The document `new Product({...})` builds for `caller`, or None when a
   * required path (`name`, `price`, `stock`) is missing, which `save()`
   * rejects. The name is trimmed; `categories` is `categoryIds` or empty.
   */
  function NewProduct(caller: Caller, body: ProductBody): (r: Option<Product>)
    ensures r.Some? <==> body.name.Some? && body.price.Some? && body.stock.Some?
    ensures r.Some? ==>
      && r.value.createdBy == caller.id && r.value.inventory == None
      && r.value.name == Trim(body.name.value) && r.value.price == body.price.value
      && r.value.stock == body.stock.value && r.value.categories == body.categoryIds.GetOr([])
  {
    if body.name.None? || body.price.None? || body.stock.None? then None
    else Some(Product(Trim(body.name.value), body.description.GetOr(""), body.price.value,
      body.stock.value, body.categoryIds.GetOr([]), None, caller.id))
  }

  /** The inventory row createProduct saves for product `pid`; a count left out defaults to 0. */
  function NewInventory(pid: Id, body: ProductBody): Inventory {
    Inventory(pid, body.available.GetOr(0), body.sold.GetOr(0))
  }

  /** Step 4 of createProduct: `$addToSet` the product into the listed categories, if any are listed. */
  function ListInCategories(db: Db, ids: Option<seq<Id>>, pid: Id): Db {
    if ids.Some? && |ids.value| > 0 then Mongo.AddProductToCategories(db, IdSet(ids.value), pid) else db
  }

  /** Listing the product touches the categories alone, and only the listed ones. */
  lemma ListInCategoriesScope(db: Db, ids: Option<seq<Id>>, pid: Id)
    ensures var r := ListInCategories(db, ids, pid);
      && r == db.(categories := r.categories)
      && r.categories == Links.AddProductToCategories(db.categories, IdSet(ids.GetOr([])), pid)
  {
    if !(ids.Some? && |ids.value| > 0) {
      var none := IdSet(ids.GetOr([]));
      assert none == {};
      var r := Links.AddProductToCategories(db.categories, none, pid);
      assert r.Keys == db.categories.Keys;
      assert forall c :: c in r ==> r[c] == db.categories[c];
    }
  }

  /**
   * createProduct: save the product with its inventory row, then list the
   * product in its categories. The first failing `save()` ends the request
   * with 500, keeping the earlier writes.
   */
  function CreateProductSpec(db: Db, caller: Caller, body: ProductBody): Outcome {
    var np := NewProduct(caller, body);
    if np.None? then Outcome(500, ServerError, None, db) else
    var w := Stock.AddStocked(db, np.value, body.available.GetOr(0), body.sold.GetOr(0));
    if !w.ok then Outcome(500, ServerError, None, w.db)
    else Outcome(201, "Product created", Some(db.nextId), ListInCategories(w.db, body.categoryIds, db.nextId))
  }

  method CreateProduct(s: Store, caller: Caller, body: ProductBody) returns (status: nat, message: string, created: Option<Id>)
    requires Permits(Route.CreateProduct, caller)
    requires s.Valid()
    modifies s
    ensures Outcome(status, message, created, s.Snapshot()) == CreateProductSpec(old(s.Snapshot()), caller, body)
    ensures s.Valid()
  {
    CreateProductKeepsValid(s.Snapshot(), caller, body);
    var np := NewProduct(caller, body);
    if np.None? {
      return 500, ServerError, None;
    }
    var ok, pid := Stock.SaveStocked(s, np.value, body.available.GetOr(0), body.sold.GetOr(0));
    if !ok {
      return 500, ServerError, None;
    }
    if body.categoryIds.Some? && |body.categoryIds.value| > 0 {
      s.AddProductToCategories(IdSet(body.categoryIds.value), pid);
    }
    return 201, "Product created", Some(pid);
  }

  /** createProduct keeps the database valid, whichever step it stops at. */
  lemma CreateProductKeepsValid(db: Db, caller: Caller, body: ProductBody)
    requires Valid(db)
    ensures Valid(CreateProductSpec(db, caller, body).db)
  {
    var np := NewProduct(caller, body);
    if np.Some? {
      Stock.AddStockedKeepsValid(db, np.value, body.available.GetOr(0), body.sold.GetOr(0));
      var w := Stock.AddStocked(db, np.value, body.available.GetOr(0), body.sold.GetOr(0));
      if w.ok && body.categoryIds.Some? && |body.categoryIds.value| > 0 {
        Mongo.UpdateManyKeepsValid(w.db, IdSet(body.categoryIds.value), db.nextId);
      }
    }
  }

  /**
   * createProduct answers 201 exactly when the product passes validation,
   * every stored product already has an inventory (the unique index on
   * `inventory` counts a missing reference as null, and the new product has
   * none yet) and the counts are not negative; every other request gets 500.
   */
  lemma CreateProductStatus(db: Db, caller: Caller, body: ProductBody)
    requires Valid(db)
    ensures var out := CreateProductSpec(db, caller, body);
      && (out.status == 201 || out.status == 500)
      && (out.status == 201 <==> out.created.Some?)
      && (out.status == 201 <==>
        && NewProduct(caller, body).Some? && ProductSchemaOk(NewProduct(caller, body).value)
        && (forall q :: q in db.products ==> db.products[q].inventory.Some?)
        && InventorySchemaOk(NewInventory(db.nextId, body)))
  {
    var np := NewProduct(caller, body);
    if np.Some? {
      Stock.AddStockedWhen(db, np.value, body.available.GetOr(0), body.sold.GetOr(0));
    }
  }

  /**
   * A product that fails validation, or that meets a stored product without
   * an inventory, is refused with 500 and nothing is written.
   */
  lemma CreateProductRefused(db: Db, caller: Caller, body: ProductBody)
    requires Valid(db)
    requires NewProduct(caller, body).None? || !ProductSchemaOk(NewProduct(caller, body).value)
      || exists q :: q in db.products && db.products[q].inventory.None?
    ensures CreateProductSpec(db, caller, body) == Outcome(500, ServerError, None, db)
  {
    var np := NewProduct(caller, body);
    if np.Some? {
      Stock.AddStockedWhen(db, np.value, body.available.GetOr(0), body.sold.GetOr(0));
    }
  }

  /**
   * Counts the Inventory schema rejects: the product saved first stays,
   * without an inventory, and the request gets 500.
   */
  lemma CreateProductLeavesOrphan(db: Db, caller: Caller, body: ProductBody)
    requires Valid(db)
    requires NewProduct(caller, body).Some? && ProductSchemaOk(NewProduct(caller, body).value)
    requires forall q :: q in db.products ==> db.products[q].inventory.Some?
    requires !InventorySchemaOk(NewInventory(db.nextId, body))
    ensures var out := CreateProductSpec(db, caller, body);
      && out.status == 500
      && out.db == db.(products := db.products[db.nextId := NewProduct(caller, body).value], nextId := db.nextId + 1)
      && out.db.products[db.nextId].inventory.None?
  {
    Stock.AddStockedWhen(db, NewProduct(caller, body).value, body.available.GetOr(0), body.sold.GetOr(0));
  }

  /**
   * Once a create has failed on its counts, every later createProduct is
   * refused with 500 and writes nothing, until that product is deleted or
   * given an inventory.
   */
  lemma OrphanBlocksLaterCreates(db: Db, caller: Caller, body: ProductBody, caller': Caller, body': ProductBody)
    requires Valid(db)
    requires NewProduct(caller, body).Some? && ProductSchemaOk(NewProduct(caller, body).value)
    requires forall q :: q in db.products ==> db.products[q].inventory.Some?
    requires !InventorySchemaOk(NewInventory(db.nextId, body))
    ensures var db1 := CreateProductSpec(db, caller, body).db;
      CreateProductSpec(db1, caller', body') == Outcome(500, ServerError, None, db1)
  {
    CreateProductLeavesOrphan(db, caller, body);
    CreateProductKeepsValid(db, caller, body);
    var db1 := CreateProductSpec(db, caller, body).db;
    assert db1.products[db.nextId].inventory.None?;
    CreateProductRefused(db1, caller', body');
  }

  /**
   * A 201: the product is new, owned by the caller, lists `categoryIds`,
   * and points at the one new inventory row, which holds the given counts
   * and points back; users are untouched.
   */
  lemma CreateProductLinks(db: Db, caller: Caller, body: ProductBody)
    requires Valid(db)
    requires CreateProductSpec(db, caller, body).status == 201
    ensures var out := CreateProductSpec(db, caller, body);
      var pid := db.nextId;
      var iid := db.nextId + 1;
      && out.created == Some(pid) && pid !in db.products && iid !in db.inventories
      && out.db.products == db.products[pid := NewProduct(caller, body).value.(inventory := Some(iid))]
      && out.db.inventories == db.inventories[iid := NewInventory(pid, body)]
      && (forall q :: q in out.db.inventories ==> (out.db.inventories[q].productId == pid <==> q == iid))
      && out.db.users == db.users && out.db.nextId == db.nextId + 2
  {
    var np := NewProduct(caller, body).value;
    var w := Stock.AddStocked(db, np, body.available.GetOr(0), body.sold.GetOr(0));
    assert w.ok && CreateProductSpec(db, caller, body).db == ListInCategories(w.db, body.categoryIds, db.nextId);
    ListInCategoriesScope(w.db, body.categoryIds, db.nextId);
    Stock.AddStockedWhen(db, np, body.available.GetOr(0), body.sold.GetOr(0));
    Stock.AddStockedDone(db, np, body.available.GetOr(0), body.sold.GetOr(0));
    Stock.AddStockedScope(db, np, body.available.GetOr(0), body.sold.GetOr(0));
    Mongo.NextIdUnused(db);
    Stock.AddStockedBackLink(db, np, body.available.GetOr(0), body.sold.GetOr(0));
  }

  /**
   * A 201 adds the new product to the categories `categoryIds` lists, at
   * most once each, and changes no other category.
   */
  lemma CreateProductCategories(db: Db, caller: Caller, body: ProductBody)
    requires CreateProductSpec(db, caller, body).status == 201
    ensures CreateProductSpec(db, caller, body).db.categories
      == Links.AddProductToCategories(db.categories, IdSet(body.categoryIds.GetOr([])), db.nextId)
  {
    var np := NewProduct(caller, body).value;
    var w := Stock.AddStocked(db, np, body.available.GetOr(0), body.sold.GetOr(0));
    assert w.ok && CreateProductSpec(db, caller, body).db == ListInCategories(w.db, body.categoryIds, db.nextId);
    Stock.AddStockedScope(db, np, body.available.GetOr(0), body.sold.GetOr(0));
    ListInCategoriesScope(w.db, body.categoryIds, db.nextId);
  }

  /**
   * `minAvailable` after `req.query.minAvailable ? Number(...) : null`:
   * absent or empty gives no filter, a numeric string gives its value, and
   * any other string gives NaN.
   */
  datatype MinAvailable = NoMinimum | AtLeast(n: int) | NotANumber

  /** The query string of GET /products, already split and parsed. */
  datatype ProductQuery = ProductQuery(
    categoryIds: seq<Id>,
    minAvailable: MinAvailable,
    highAvailableOnly: Option<string>)

  /** One result document: the product with its inventory row and its categories looked up. */
  datatype ProductView = ProductView(product: Product, inventory: Inventory, categories: map<Id, Category>)

  /** The product's `inventory` resolves to a row, so `$unwind` keeps it. */
  predicate Joined(db: Db, pid: Id)
    requires pid in db.products
  {
    db.products[pid].inventory.Some? && db.products[pid].inventory.value in db.inventories
  }

  /** The first `$match`: the caller's scope and, when given, `categories: {$all: ids}`. */
  function MatchStage(db: Db, caller: Caller, ids: seq<Id>): set<Id> {
    set pid | pid in db.products && InScope(caller, db.products[pid].createdBy)
      && forall c :: c in ids ==> c in db.products[pid].categories
  }

  /** `$lookup` of the inventory followed by `$unwind`: products whose reference does not resolve drop out. */
  function UnwindStage(db: Db, pids: set<Id>): map<Id, ProductView> {
    map pid | pid in pids && pid in db.products && Joined(db, pid)
      :: ProductView(db.products[pid], db.inventories[db.products[pid].inventory.value], map[])
  }

  /** `$match: {'inventory.available': {$gte: n}}`. */
  function AvailableStage(views: map<Id, ProductView>, n: int): map<Id, ProductView> {
    map pid | pid in views && views[pid].inventory.available >= n :: views[pid]
  }

  /** `$lookup` of the categories: each listed id that names a category brings that category. */
  function LookupStage(db: Db, views: map<Id, ProductView>): map<Id, ProductView> {
    map pid | pid in views :: views[pid].(categories :=
      map c | c in db.categories && c in views[pid].product.categories :: db.categories[c])
  }

  /** A product in the caller's scope whose inventory reference resolves. */
  predicate Visible(db: Db, caller: Caller, pid: Id) {
    pid in db.products && InScope(caller, db.products[pid].createdBy) && Joined(db, pid)
  }

  /** The `available` count of the row the product points at. */
  function Available(db: Db, pid: Id): int
    requires pid in db.products && Joined(db, pid)
  {
    db.inventories[db.products[pid].inventory.value].available
  }

  /**
   * getProducts, keyed by product id. With `highAvailableOnly` equal to
   * `"true"` it returns the caller's products whose inventory has at least
   * 100 available, whatever the other parameters say; otherwise the caller's
   * products that list every requested category and, when `minAvailable` is
   * given, have at least that many available; a `minAvailable` that is not
   * a number compares false with every count (`$gte: NaN`), so nothing is
   * returned. Either way only products whose
   * inventory reference resolves appear, a master sees only its own
   * products, and each result carries its row and the categories it lists.
   */
  function GetProducts(db: Db, caller: Caller, q: ProductQuery): (r: map<Id, ProductView>)
    ensures forall pid :: pid in r ==>
      && pid in db.products && Joined(db, pid) && r[pid].product == db.products[pid]
      && r[pid].inventory == db.inventories[db.products[pid].inventory.value]
      && r[pid].categories == map c | c in db.categories && c in db.products[pid].categories :: db.categories[c]
    ensures caller.role == Master ==> forall pid :: pid in r ==> r[pid].product.createdBy == caller.id
    ensures q.highAvailableOnly == Some("true") ==>
      forall pid :: pid in r <==> (Visible(db, caller, pid) && Available(db, pid) >= 100)
    ensures q.highAvailableOnly != Some("true") ==>
      forall pid :: pid in r <==>
        (&& Visible(db, caller, pid)
         && (forall c :: c in q.categoryIds ==> c in db.products[pid].categories)
         && !q.minAvailable.NotANumber?
         && (q.minAvailable.AtLeast? ==> Available(db, pid) >= q.minAvailable.n))
  {
    if q.highAvailableOnly == Some("true") then
      LookupStage(db, AvailableStage(UnwindStage(db, MatchStage(db, caller, [])), 100))
    else
      var joined := UnwindStage(db, MatchStage(db, caller, q.categoryIds));
      LookupStage(db, match q.minAvailable
        case NoMinimum => joined
        case AtLeast(n) => AvailableStage(joined, n)
        case NotANumber => map[])
  }

  /**
   * The fields updateProduct assigns: `name` and `description` when truthy
   * (the name trimmed by the schema), `price` and `stock` when present, and
   * `categories` when `categoryIds` is present, even empty.
   */
  function Patch(p: Product, body: ProductBody): Product {
    p.(name := if Truthy(body.name) then Trim(body.name.value) else p.name,
       description := if Truthy(body.description) then body.description.value else p.description,
       price := body.price.GetOr(p.price),
       stock := body.stock.GetOr(p.stock),
       categories := body.categoryIds.GetOr(p.categories))
  }

  /** Pulling the product from the categories not listed, then adding it to the listed ones. */
  function Relink(db: Db, ids: set<Id>, pid: Id): Db {
    Mongo.AddProductToCategories(Mongo.PullProductFromCategories(db, ids, pid), ids, pid)
  }

  /**
   * Moving the product between categories: afterwards exactly the
   * categories in `ids` list it, and every other entry keeps its count.
   */
  lemma RelinkCategories(db: Db, ids: set<Id>, pid: Id)
    ensures var r := Relink(db, ids, pid).categories;
      && r.Keys == db.categories.Keys
      && (forall c :: c in r ==> (pid in r[c].products <==> c in ids))
      && (forall c, y :: c in r && y != pid ==> Links.Count(r[c].products, y) == Links.Count(db.categories[c].products, y))
  {
    Links.RelinkExact(db.categories, ids, pid);
  }

  /** The last step of updateProduct: the product's inventory row, when it has one, takes the counts given. */
  function UpdateCounts(db: Db, pid: Id, body: ProductBody): Outcome
    requires OneInventoryEach(db.inventories)
  {
    match Mongo.InventoryOf(db.inventories, pid)
    case None => Outcome(200, "Product updated", None, db)
    case Some(iid) =>
      var w := Mongo.SaveInventory(db, iid, SetCounts(db.inventories[iid], body.available, body.sold));
      if w.ok then Outcome(200, "Product updated", None, w.db) else Outcome(500, ServerError, None, db)
  }

  /**
   * updateProduct: 404 for an unknown id, 403 for another owner's product;
   * otherwise save the patched product, move it between categories when
   * `categoryIds` is given, and update the counts of its inventory row.
   */
  function UpdateProductSpec(db: Db, caller: Caller, id: Id, body: ProductBody): Outcome
    requires OneInventoryEach(db.inventories)
  {
    if id !in db.products then Outcome(404, "Product not found", None, db)
    else if db.products[id].createdBy != caller.id then
      Outcome(403, "Unauthorized to update this product", None, db)
    else
      var w := Mongo.SaveProduct(db, id, Patch(db.products[id], body));
      if !w.ok then Outcome(500, ServerError, None, db) else
      var db1 := if body.categoryIds.Some? then Relink(w.db, IdSet(body.categoryIds.value), id) else w.db;
      UpdateCounts(db1, id, body)
  }

  method UpdateProduct(s: Store, caller: Caller, id: Id, body: ProductBody) returns (status: nat, message: string)
    requires Permits(Route.UpdateProduct, caller) && OneInventoryEach(s.inventories)
    requires s.Valid()
    modifies s
    ensures Outcome(status, message, None, s.Snapshot()) == UpdateProductSpec(old(s.Snapshot()), caller, id, body)
    ensures s.Valid()
  {
    UpdateProductKeepsValid(s.Snapshot(), caller, id, body);
    if id !in s.products {
      return 404, "Product not found";
    }
    if s.products[id].createdBy != caller.id {
      return 403, "Unauthorized to update this product";
    }
    var ok := s.SaveProduct(id, Patch(s.products[id], body));
    if !ok {
      return 500, ServerError;
    }
    if body.categoryIds.Some? {
      s.PullProductFromCategories(IdSet(body.categoryIds.value), id);
      s.AddProductToCategories(IdSet(body.categoryIds.value), id);
    }
    var found := Mongo.InventoryOf(s.inventories, id);
    if found.Some? {
      ok := s.SaveInventory(found.value, SetCounts(s.inventories[found.value], body.available, body.sold));
      if !ok {
        return 500, ServerError;
      }
    }
    return 200, "Product updated";
  }

  /**
   * deleteProduct: the product is deleted first; 404 when there was none,
   * 403 (with the product already gone) when it belonged to someone else;
   * otherwise its id is pulled from every category and its inventory row,
   * if any, is deleted.
   */
  function DeleteProductSpec(db: Db, caller: Caller, id: Id): Outcome
    requires OneInventoryEach(db.inventories)
  {
    if id !in db.products then Outcome(404, "Product not found", None, db) else
    var db1 := Mongo.DeleteProduct(db, id);
    if db.products[id].createdBy != caller.id then
      Outcome(403, "Unauthorized to delete this product", None, db1)
    else
      var db2 := Mongo.PullProductFromCategories(db1, {}, id);
      match Mongo.InventoryOf(db2.inventories, id)
      case None => Outcome(200, "Product deleted", None, db2)
      case Some(iid) => Outcome(200, "Product deleted", None, Mongo.DeleteInventory(db2, iid))
  }

  method DeleteProduct(s: Store, caller: Caller, id: Id) returns (status: nat, message: string)
    requires Permits(Route.DeleteProduct, caller) && OneInventoryEach(s.inventories)
    requires s.Valid()
    modifies s
    ensures Outcome(status, message, None, s.Snapshot()) == DeleteProductSpec(old(s.Snapshot()), caller, id)
    ensures s.Valid()
  {
    DeleteProductKeepsValid(s.Snapshot(), caller, id);
    if id !in s.products {
      return 404, "Product not found";
    }
    var owner := s.products[id].createdBy;
    s.DeleteProduct(id);
    if owner != caller.id {
      return 403, "Unauthorized to delete this product";
    }
    s.PullProductFromCategories({}, id);
    var found := Mongo.InventoryOf(s.inventories, id);
    if found.Some? {
      s.DeleteInventory(found.value);
    }
    return 200, "Product deleted";
  }

  /**
   * updateProduct answers 404 exactly for an unknown id and 403 exactly for
   * another owner's product, writing nothing in either case; a patched
   * product that fails validation gives 500, also without any write.
   */
  lemma UpdateProductRefused(db: Db, caller: Caller, id: Id, body: ProductBody)
    requires OneInventoryEach(db.inventories)
    ensures var out := UpdateProductSpec(db, caller, id, body);
      && (out.status == 404 <==> id !in db.products)
      && (out.status == 403 <==> id in db.products && db.products[id].createdBy != caller.id)
      && (out.status == 404 || out.status == 403 ==> out.db == db)
      && ((id in db.products && db.products[id].createdBy == caller.id
           && !CanSaveProduct(db.products, id, Patch(db.products[id], body)))
          ==> out == Outcome(500, ServerError, None, db))
  {
    if id in db.products && db.products[id].createdBy == caller.id {
      var w := Mongo.SaveProduct(db, id, Patch(db.products[id], body));
      if w.ok {
        var db1 := if body.categoryIds.Some? then Relink(w.db, IdSet(body.categoryIds.value), id) else w.db;
        assert db1.inventories == db.inventories;
      }
    }
  }

  /**
   * After a 200 the product holds the patch and no other product changed:
   * `name` and `description` change only when truthy, `price` and `stock`
   * only when present, `categories` only when `categoryIds` is present, and
   * the owner and the inventory reference never.
   */
  lemma UpdateProductFields(db: Db, caller: Caller, id: Id, body: ProductBody)
    requires OneInventoryEach(db.inventories)
    requires UpdateProductSpec(db, caller, id, body).status == 200
    ensures var out := UpdateProductSpec(db, caller, id, body);
      && id in db.products && db.products[id].createdBy == caller.id
      && out.db.products == db.products[id := out.db.products[id]]
      && var p, p' := db.products[id], out.db.products[id];
      && p'.name == (if Truthy(body.name) then Trim(body.name.value) else p.name)
      && p'.description == (if Truthy(body.description) then body.description.value else p.description)
      && p'.price == body.price.GetOr(p.price) && p'.stock == body.stock.GetOr(p.stock)
      && p'.categories == body.categoryIds.GetOr(p.categories)
      && p'.createdBy == p.createdBy && p'.inventory == p.inventory
  {
    var w := Mongo.SaveProduct(db, id, Patch(db.products[id], body));
    var db1 := if body.categoryIds.Some? then Relink(w.db, IdSet(body.categoryIds.value), id) else w.db;
    assert db1.products == w.db.products;
  }

  /**
   * After a 200 with `categoryIds` present (even empty) a category lists the
   * product exactly when `categoryIds` names it; other entries of the lists
   * keep their counts. Without `categoryIds` no category changes.
   */
  lemma UpdateProductCategories(db: Db, caller: Caller, id: Id, body: ProductBody)
    requires OneInventoryEach(db.inventories)
    requires UpdateProductSpec(db, caller, id, body).status == 200
    ensures var out := UpdateProductSpec(db, caller, id, body);
      && out.db.categories.Keys == db.categories.Keys
      && (body.categoryIds.Some? ==>
        forall c :: c in out.db.categories ==> (id in out.db.categories[c].products <==> c in body.categoryIds.value))
      && (forall c, y :: c in out.db.categories && y != id ==>
        Links.Count(out.db.categories[c].products, y) == Links.Count(db.categories[c].products, y))
      && (body.categoryIds.None? ==> out.db.categories == db.categories)
  {
    var w := Mongo.SaveProduct(db, id, Patch(db.products[id], body));
    assert w.db.categories == db.categories;
    var db1 := if body.categoryIds.Some? then Relink(w.db, IdSet(body.categoryIds.value), id) else w.db;
    assert UpdateProductSpec(db, caller, id, body).db.categories == db1.categories;
    if body.categoryIds.Some? {
      RelinkCategories(w.db, IdSet(body.categoryIds.value), id);
    }
  }

  /**
   * After the product is saved, its inventory row (if it has one) takes the
   * counts given, and the request succeeds exactly when those counts are not
   * negative; no other row changes. A product without a row gets 200 and
   * no inventory changes.
   */
  lemma UpdateProductInventory(db: Db, caller: Caller, id: Id, body: ProductBody)
    requires OneInventoryEach(db.inventories)
    requires id in db.products && db.products[id].createdBy == caller.id
    requires CanSaveProduct(db.products, id, Patch(db.products[id], body))
    ensures var out := UpdateProductSpec(db, caller, id, body);
      match Mongo.InventoryOf(db.inventories, id)
      case None => out.status == 200 && out.db.inventories == db.inventories
      case Some(iid) =>
        var i' := SetCounts(db.inventories[iid], body.available, body.sold);
        && (out.status == 200 <==> InventorySchemaOk(i'))
        && (out.status == 200 ==> out.db.inventories == db.inventories[iid := i'])
        && (out.status != 200 ==> out.status == 500 && out.db.inventories == db.inventories)
  {
    var w := Mongo.SaveProduct(db, id, Patch(db.products[id], body));
    var db1 := if body.categoryIds.Some? then Relink(w.db, IdSet(body.categoryIds.value), id) else w.db;
    assert db1.inventories == db.inventories;
    match Mongo.InventoryOf(db.inventories, id)
    case None =>
    case Some(iid) =>
      assert ProductIdFree(db.inventories, iid, db.inventories[iid].productId);
  }

  lemma RelinkKeepsValid(db: Db, ids: set<Id>, pid: Id)
    requires Valid(db)
    ensures Valid(Relink(db, ids, pid))
  {
    Mongo.UpdateManyKeepsValid(db, ids, pid);
    Mongo.UpdateManyKeepsValid(Mongo.PullProductFromCategories(db, ids, pid), ids, pid);
  }

  lemma UpdateCountsKeepsValid(db: Db, pid: Id, body: ProductBody)
    requires Valid(db) && OneInventoryEach(db.inventories)
    ensures Valid(UpdateCounts(db, pid, body).db)
  {
    match Mongo.InventoryOf(db.inventories, pid)
    case None =>
    case Some(iid) =>
      Mongo.SaveInventoryKeepsValid(db, iid, SetCounts(db.inventories[iid], body.available, body.sold));
  }

  lemma UpdateProductKeepsValid(db: Db, caller: Caller, id: Id, body: ProductBody)
    requires Valid(db) && OneInventoryEach(db.inventories)
    ensures Valid(UpdateProductSpec(db, caller, id, body).db)
  {
    if id in db.products && db.products[id].createdBy == caller.id {
      var p := Patch(db.products[id], body);
      assert ProductRowOk(db, id);
      Mongo.SaveProductKeepsValid(db, id, p);
      var w := Mongo.SaveProduct(db, id, p);
      if w.ok {
        if body.categoryIds.Some? {
          RelinkKeepsValid(w.db, IdSet(body.categoryIds.value), id);
        }
        var db1 := if body.categoryIds.Some? then Relink(w.db, IdSet(body.categoryIds.value), id) else w.db;
        assert db1.inventories == db.inventories;
        UpdateCountsKeepsValid(db1, id, body);
      }
    }
  }

  /**
   * deleteProduct answers 404, writing nothing, exactly for an unknown id;
   * for another owner's product it answers 403 with that product already
   * deleted and nothing else changed: no category is cleaned up and the
   * inventory row stays.
   */
  lemma DeleteProductRefused(db: Db, caller: Caller, id: Id)
    requires OneInventoryEach(db.inventories)
    ensures var out := DeleteProductSpec(db, caller, id);
      && (out.status == 404 <==> id !in db.products)
      && (out.status == 404 ==> out.db == db)
      && (out.status == 403 <==> id in db.products && db.products[id].createdBy != caller.id)
      && (out.status == 403 ==> out.db == db.(products := db.products - {id}))
  {
  }

  /**
   * A 200 deletes the product, removes its id from the `products` list of
   * every category (other entries keep their counts) and deletes the one
   * inventory row that belonged to it; every other row and product stays.
   */
  lemma DeleteProductCascade(db: Db, caller: Caller, id: Id)
    requires OneInventoryEach(db.inventories)
    requires DeleteProductSpec(db, caller, id).status == 200
    ensures var out := DeleteProductSpec(db, caller, id);
      && out.db.products == db.products - {id}
      && out.db.categories.Keys == db.categories.Keys
      && (forall c :: c in out.db.categories ==> id !in out.db.categories[c].products)
      && (forall c, y :: c in out.db.categories && y != id ==>
        Links.Count(out.db.categories[c].products, y) == Links.Count(db.categories[c].products, y))
      && (forall q :: q in out.db.inventories ==> out.db.inventories[q].productId != id)
      && (forall q :: q in db.inventories && db.inventories[q].productId != id ==>
        q in out.db.inventories && out.db.inventories[q] == db.inventories[q])
      && out.db.users == db.users
  {
    var db2 := Mongo.PullProductFromCategories(Mongo.DeleteProduct(db, id), {}, id);
    assert db2.inventories == db.inventories;
  }

  lemma DeleteProductKeepsValid(db: Db, caller: Caller, id: Id)
    requires Valid(db) && OneInventoryEach(db.inventories)
    ensures Valid(DeleteProductSpec(db, caller, id).db)
  {
    if id in db.products {
      var db1 := Mongo.DeleteProduct(db, id);
      Mongo.DeleteProductKeepsValid(db, id);
      Mongo.UpdateManyKeepsValid(db1, {}, id);
      var db2 := Mongo.PullProductFromCategories(db1, {}, id);
      match Mongo.InventoryOf(db2.inventories, id)
      case None =>
      case Some(iid) => Mongo.DeleteInventoryKeepsValid(db2, iid);
    }
  }
}
