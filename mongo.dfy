/**
 * The Mongoose calls the controllers make, as functions from the database
 * before the call to the database after it. A `save()` that a schema
 * validator or a unique index rejects throws in the source; here it reports
 * `ok == false` and leaves the database as it was. The lemmas say which
 * writes keep `Models.Valid`.
 */
module Mongo {
  import opened Wrappers
  import opened Models
  import Links

  /** The outcome of a `save()`: whether the store accepted it, and the database after it. */
  datatype Saved = Saved(ok: bool, db: Db)

  /** `new User({...}).save()`: the user gets the next id. */
  function InsertUser(db: Db, u: User): Db {
    db.(users := db.users[db.nextId := u], nextId := db.nextId + 1)
  }

  /** `new Product({...}).save()`: the product gets the next id. */
  function InsertProduct(db: Db, p: Product): Saved {
    if CanSaveProduct(db.products, db.nextId, p)
    then Saved(true, db.(products := db.products[db.nextId := p], nextId := db.nextId + 1))
    else Saved(false, db)
  }

  /** `product.save()` of the document `id`, now holding `p`. */
  function SaveProduct(db: Db, id: Id, p: Product): Saved {
    if CanSaveProduct(db.products, id, p)
    then Saved(true, db.(products := db.products[id := p]))
    else Saved(false, db)
  }

  /** `Product.findByIdAndDelete(id)`. */
  function DeleteProduct(db: Db, id: Id): Db {
    db.(products := db.products - {id})
  }

  /** `new Category({...}).save()`: the category gets the next id. */
  function InsertCategory(db: Db, c: Category): Saved {
    if CanSaveCategory(db.categories, db.nextId, c)
    then Saved(true, db.(categories := db.categories[db.nextId := c], nextId := db.nextId + 1))
    else Saved(false, db)
  }

  /** `category.save()` of the document `id`, now holding `c`. */
  function SaveCategory(db: Db, id: Id, c: Category): Saved {
    if CanSaveCategory(db.categories, id, c)
    then Saved(true, db.(categories := db.categories[id := c]))
    else Saved(false, db)
  }

  /** `Category.findByIdAndDelete(id)`. */
  function DeleteCategory(db: Db, id: Id): Db {
    db.(categories := db.categories - {id})
  }

  /** `new Inventory({...}).save()`: the row gets the next id. */
  function InsertInventory(db: Db, i: Inventory): Saved {
    if CanSaveInventory(db.inventories, db.nextId, i)
    then Saved(true, db.(inventories := db.inventories[db.nextId := i], nextId := db.nextId + 1))
    else Saved(false, db)
  }

  /** `inventory.save()` of the row `id`, now holding `i`. */
  function SaveInventory(db: Db, id: Id, i: Inventory): Saved {
    if CanSaveInventory(db.inventories, id, i)
    then Saved(true, db.(inventories := db.inventories[id := i]))
    else Saved(false, db)
  }

  /** `Inventory.findOneAndDelete(...)` of the row `id`. */
  function DeleteInventory(db: Db, id: Id): Db {
    db.(inventories := db.inventories - {id})
  }

  /** `Category.updateMany({_id: {$in: ids}}, {$addToSet: {products: pid}})`. */
  function AddProductToCategories(db: Db, ids: set<Id>, pid: Id): Db {
    db.(categories := Links.AddProductToCategories(db.categories, ids, pid))
  }

  /** `Category.updateMany({products: pid, _id: {$nin: keep}}, {$pull: {products: pid}})`. */
  function PullProductFromCategories(db: Db, keep: set<Id>, pid: Id): Db {
    db.(categories := Links.PullProductFromCategories(db.categories, keep, pid))
  }

  /** `Product.updateMany({_id: {$in: ids}}, {$addToSet: {categories: cid}})`. */
  function AddCategoryToProducts(db: Db, ids: set<Id>, cid: Id): Db {
    db.(products := Links.AddCategoryToProducts(db.products, ids, cid))
  }

  /** `Product.updateMany({categories: cid}, {$pull: {categories: cid}})`. */
  function PullCategoryFromProducts(db: Db, cid: Id): Db {
    db.(products := Links.PullCategoryFromProducts(db.products, cid))
  }

  /**
   * `Inventory.findOne({productId: pid})`: the row of product `pid`, if any;
   * the unique index on `productId` makes it the only one.
   */
  function InventoryOf(inventories: map<Id, Inventory>, pid: Id): (r: Option<Id>)
    requires OneInventoryEach(inventories)
    ensures r.Some? ==> r.value in inventories && inventories[r.value].productId == pid
    ensures r.None? <==> forall q :: q in inventories ==> inventories[q].productId != pid
  {
    if exists q :: q in inventories && inventories[q].productId == pid then
      var q :| q in inventories && inventories[q].productId == pid;
      Some(q)
    else None
  }

  /**
   * `Category.findOne({name, createdBy: owner})`; names are unique across
   * all categories, so at most one category matches.
   */
  function CategoryNamed(categories: map<Id, Category>, name: string, owner: Id): (r: Option<Id>)
    requires CategoryNamesUnique(categories)
    ensures r.Some? ==>
      r.value in categories && categories[r.value].name == name && categories[r.value].createdBy == owner
    ensures r.None? <==> !CategoryExists(categories, name, owner)
  {
    if CategoryExists(categories, name, owner) then
      var q :| q in categories && categories[q].name == name && categories[q].createdBy == owner;
      Some(q)
    else None
  }

  /** `Category.findOne({name, createdBy: owner})` finds a document. */
  predicate CategoryExists(categories: map<Id, Category>, name: string, owner: Id) {
    exists q :: q in categories && categories[q].name == name && categories[q].createdBy == owner
  }

  /** `User.findOne({email})`; registration keeps e-mails unique. */
  function UserWithEmail(users: map<Id, User>, email: string): (r: Option<Id>)
    requires EmailsUnique(users)
    ensures r.Some? ==> r.value in users && users[r.value].email == email
    ensures r.None? <==> forall q :: q in users ==> users[q].email != email
  {
    if exists q :: q in users && users[q].email == email then
      var q :| q in users && users[q].email == email;
      Some(q)
    else None
  }

  /** `Product.findOne({name, createdBy: owner})` finds a document. */
  predicate ProductNamed(db: Db, name: string, owner: Id) {
    exists q :: q in db.products && db.products[q].name == name && db.products[q].createdBy == owner
  }

  /**
   * The next id is in no collection and referenced by no product and no
   * inventory row, so whatever is inserted next is new and unreferenced.
   */
  lemma NextIdUnused(db: Db)
    requires Valid(db)
    ensures NextIdFresh(db)
  {
    assert forall q :: q in db.users ==> UserRowOk(db, q);
    assert forall q :: q in db.products ==> ProductRowOk(db, q);
    assert forall q :: q in db.categories ==> CategoryRowOk(db, q);
    assert forall q :: q in db.inventories ==> InventoryRowOk(db, q);
  }

  // Which writes keep the database valid.

  lemma InsertUserKeepsValid(db: Db, u: User)
    requires Valid(db)
    requires EmailFree(db.users, db.nextId, u.email) && UsernameFree(db.users, db.nextId, u.username)
    ensures Valid(InsertUser(db, u))
  {
    var db' := InsertUser(db, u);
    NextIdUnused(db);
    forall q | q in db'.users ensures UserRowOk(db', q) {
      if q != db.nextId {
        assert UserRowOk(db, q);
      }
    }
    assert forall q :: q in db'.products ==> ProductRowOk(db, q);
    assert forall q :: q in db'.categories ==> CategoryRowOk(db, q);
    assert forall q :: q in db'.inventories ==> InventoryRowOk(db, q);
  }

  /** A product write at `id` that the store accepts keeps the database valid. */
  lemma ProductWriteKeepsValid(db: Db, db': Db, id: Id)
    requires Valid(db)
    requires db' == db.(products := db'.products, nextId := db'.nextId) && db.nextId <= db'.nextId
    requires id in db'.products && db'.products == db.products[id := db'.products[id]]
    requires id < db'.nextId && CanSaveProduct(db.products, id, db'.products[id])
    requires db'.products[id].inventory.Some? ==> db'.products[id].inventory.value < db'.nextId
    ensures Valid(db')
  {
    forall q | q in db'.products ensures ProductRowOk(db', q) {
      if q != id {
        assert ProductRowOk(db, q);
      }
    }
    assert forall q :: q in db'.users ==> UserRowOk(db, q);
    assert forall q :: q in db'.categories ==> CategoryRowOk(db, q);
    assert forall q :: q in db'.inventories ==> InventoryRowOk(db, q);
  }

  lemma InsertProductKeepsValid(db: Db, p: Product)
    requires Valid(db) && p.inventory == None
    ensures Valid(InsertProduct(db, p).db)
  {
    if InsertProduct(db, p).ok {
      ProductWriteKeepsValid(db, InsertProduct(db, p).db, db.nextId);
    }
  }

  /** Saving an existing product keeps the database valid when its inventory reference is an allocated id. */
  lemma SaveProductKeepsValid(db: Db, id: Id, p: Product)
    requires Valid(db) && id in db.products
    requires p.inventory.Some? ==> p.inventory.value < db.nextId
    ensures Valid(SaveProduct(db, id, p).db)
  {
    if SaveProduct(db, id, p).ok {
      assert ProductRowOk(db, id);
      ProductWriteKeepsValid(db, SaveProduct(db, id, p).db, id);
    }
  }

  lemma DeleteProductKeepsValid(db: Db, id: Id)
    requires Valid(db)
    ensures Valid(DeleteProduct(db, id))
  {
    var db' := DeleteProduct(db, id);
    assert forall q :: q in db'.products ==> ProductRowOk(db, q);
    assert forall q :: q in db'.users ==> UserRowOk(db, q);
    assert forall q :: q in db'.categories ==> CategoryRowOk(db, q);
    assert forall q :: q in db'.inventories ==> InventoryRowOk(db, q);
  }

  /** A category write at `id` that the store accepts keeps the database valid. */
  lemma CategoryWriteKeepsValid(db: Db, db': Db, id: Id)
    requires Valid(db)
    requires db' == db.(categories := db'.categories, nextId := db'.nextId) && db.nextId <= db'.nextId
    requires id in db'.categories && db'.categories == db.categories[id := db'.categories[id]]
    requires id < db'.nextId && CanSaveCategory(db.categories, id, db'.categories[id])
    ensures Valid(db')
  {
    forall q | q in db'.categories ensures CategoryRowOk(db', q) {
      if q != id {
        assert CategoryRowOk(db, q);
      }
    }
    assert forall q :: q in db'.users ==> UserRowOk(db, q);
    assert forall q :: q in db'.products ==> ProductRowOk(db, q);
    assert forall q :: q in db'.inventories ==> InventoryRowOk(db, q);
  }

  lemma InsertCategoryKeepsValid(db: Db, c: Category)
    requires Valid(db)
    ensures Valid(InsertCategory(db, c).db)
  {
    if InsertCategory(db, c).ok {
      CategoryWriteKeepsValid(db, InsertCategory(db, c).db, db.nextId);
    }
  }

  lemma SaveCategoryKeepsValid(db: Db, id: Id, c: Category)
    requires Valid(db) && id in db.categories
    ensures Valid(SaveCategory(db, id, c).db)
  {
    if SaveCategory(db, id, c).ok {
      assert CategoryRowOk(db, id);
      CategoryWriteKeepsValid(db, SaveCategory(db, id, c).db, id);
    }
  }

  lemma DeleteCategoryKeepsValid(db: Db, id: Id)
    requires Valid(db)
    ensures Valid(DeleteCategory(db, id))
  {
    var db' := DeleteCategory(db, id);
    assert forall q :: q in db'.categories ==> CategoryRowOk(db, q);
    assert forall q :: q in db'.users ==> UserRowOk(db, q);
    assert forall q :: q in db'.products ==> ProductRowOk(db, q);
    assert forall q :: q in db'.inventories ==> InventoryRowOk(db, q);
  }

  /** An inventory write at `id` that the store accepts keeps the database valid. */
  lemma InventoryWriteKeepsValid(db: Db, db': Db, id: Id)
    requires Valid(db)
    requires db' == db.(inventories := db'.inventories, nextId := db'.nextId) && db.nextId <= db'.nextId
    requires id in db'.inventories && db'.inventories == db.inventories[id := db'.inventories[id]]
    requires id < db'.nextId && CanSaveInventory(db.inventories, id, db'.inventories[id])
    requires db'.inventories[id].productId < db'.nextId
    ensures Valid(db')
  {
    forall q | q in db'.inventories ensures InventoryRowOk(db', q) {
      if q != id {
        assert InventoryRowOk(db, q);
      }
    }
    assert forall q :: q in db'.users ==> UserRowOk(db, q);
    assert forall q :: q in db'.products ==> ProductRowOk(db, q);
    assert forall q :: q in db'.categories ==> CategoryRowOk(db, q);
  }

  /** Inserting an inventory row for an allocated product id keeps the database valid. */
  lemma InsertInventoryKeepsValid(db: Db, i: Inventory)
    requires Valid(db) && i.productId < db.nextId
    ensures Valid(InsertInventory(db, i).db)
  {
    if InsertInventory(db, i).ok {
      InventoryWriteKeepsValid(db, InsertInventory(db, i).db, db.nextId);
    }
  }

  lemma SaveInventoryKeepsValid(db: Db, id: Id, i: Inventory)
    requires Valid(db) && id in db.inventories && i.productId == db.inventories[id].productId
    ensures Valid(SaveInventory(db, id, i).db)
  {
    if SaveInventory(db, id, i).ok {
      assert InventoryRowOk(db, id);
      InventoryWriteKeepsValid(db, SaveInventory(db, id, i).db, id);
    }
  }

  lemma DeleteInventoryKeepsValid(db: Db, id: Id)
    requires Valid(db)
    ensures Valid(DeleteInventory(db, id))
  {
    var db' := DeleteInventory(db, id);
    assert forall q :: q in db'.inventories ==> InventoryRowOk(db, q);
    assert forall q :: q in db'.users ==> UserRowOk(db, q);
    assert forall q :: q in db'.products ==> ProductRowOk(db, q);
    assert forall q :: q in db'.categories ==> CategoryRowOk(db, q);
  }

  /** Changing only the `products` lists of categories keeps the database valid. */
  lemma CategoryLinksKeepValid(db: Db, db': Db)
    requires Valid(db)
    requires db' == db.(categories := db'.categories)
    requires db'.categories.Keys == db.categories.Keys
    requires forall c :: c in db'.categories ==> db'.categories[c].name == db.categories[c].name
    ensures Valid(db')
  {
    forall q | q in db'.categories ensures CategoryRowOk(db', q) {
      assert CategoryRowOk(db, q);
    }
    assert forall q :: q in db'.users ==> UserRowOk(db, q);
    assert forall q :: q in db'.products ==> ProductRowOk(db, q);
    assert forall q :: q in db'.inventories ==> InventoryRowOk(db, q);
  }

  /** Changing only the `categories` lists of products keeps the database valid. */
  lemma ProductLinksKeepValid(db: Db, db': Db)
    requires Valid(db)
    requires db' == db.(products := db'.products)
    requires db'.products.Keys == db.products.Keys
    requires forall p :: p in db'.products ==> db'.products[p] == db.products[p].(categories := db'.products[p].categories)
    ensures Valid(db')
  {
    forall q | q in db'.products ensures ProductRowOk(db', q) {
      assert ProductRowOk(db, q);
    }
    assert forall q :: q in db'.users ==> UserRowOk(db, q);
    assert forall q :: q in db'.categories ==> CategoryRowOk(db, q);
    assert forall q :: q in db'.inventories ==> InventoryRowOk(db, q);
  }

  /** The `updateMany` calls keep the database valid. */
  lemma UpdateManyKeepsValid(db: Db, ids: set<Id>, x: Id)
    requires Valid(db)
    ensures Valid(AddProductToCategories(db, ids, x)) && Valid(PullProductFromCategories(db, ids, x))
    ensures Valid(AddCategoryToProducts(db, ids, x)) && Valid(PullCategoryFromProducts(db, x))
  {
    CategoryLinksKeepValid(db, AddProductToCategories(db, ids, x));
    CategoryLinksKeepValid(db, PullProductFromCategories(db, ids, x));
    ProductLinksKeepValid(db, AddCategoryToProducts(db, ids, x));
    ProductLinksKeepValid(db, PullCategoryFromProducts(db, x));
  }
}
