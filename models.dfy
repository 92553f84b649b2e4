/**
 * The four record kinds of the backend (the Mongoose schemas in
 * Backend/src/models and the User model they reference) and what the store
 * enforces about them: the schema validators run on every `save()` and the
 * unique indexes checked on every write.
 */
module Models {
  import opened Wrappers
  import opened Text

  /** A document id. Ids are allocated from one counter, as ObjectIds are globally unique. */
  type Id = nat

  datatype Role = Master | Admin

  /** A registered user; `password` stands for whatever the User model stores for it. */
  datatype User = User(username: string, email: string, password: string, role: Role)

  /**
   * A product. `inventory` is None while the field is unset; `categories` may
   * name any id, any number of times.
   */
  datatype Product = Product(
    name: string,
    description: string,
    price: int,
    stock: int,
    categories: seq<Id>,
    inventory: Option<Id>,
    createdBy: Id)

  datatype Category = Category(name: string, description: string, products: seq<Id>, createdBy: Id)

  /** An inventory row; it has no owner of its own, only the product it belongs to. */
  datatype Inventory = Inventory(productId: Id, available: int, sold: int)

  /** Product schema: `name` required and trimmed, `price` and `stock` required with `min: 0`. */
  predicate ProductSchemaOk(p: Product) {
    p.name != "" && IsTrimmed(p.name) && p.price >= 0 && p.stock >= 0
  }

  /** Category schema: `name` required and trimmed. */
  predicate CategorySchemaOk(c: Category) {
    c.name != "" && IsTrimmed(c.name)
  }

  /** Inventory schema: `available` and `sold` with `min: 0`. */
  predicate InventorySchemaOk(i: Inventory) {
    i.available >= 0 && i.sold >= 0
  }

  /**
   * The unique index on Product.inventory, for the document `id` holding `ref`:
   * no other product holds the same reference. An unset reference is indexed
   * as null, so it too may be held by one product only.
   */
  predicate InventoryRefFree(products: map<Id, Product>, id: Id, ref: Option<Id>) {
    forall q :: q in products && q != id ==> products[q].inventory != ref
  }

  /** The unique index on Category.name (which implies the one on `(name, createdBy)`). */
  predicate CategoryNameFree(categories: map<Id, Category>, id: Id, name: string) {
    forall q :: q in categories && q != id ==> categories[q].name != name
  }

  /** The unique index on Inventory.productId. */
  predicate ProductIdFree(inventories: map<Id, Inventory>, id: Id, productId: Id) {
    forall q :: q in inventories && q != id ==> inventories[q].productId != productId
  }

  /** A request string field that JavaScript treats as true: present and not empty. */
  predicate Truthy(s: Option<string>) {
    s.Some? && s.value != ""
  }

  /**
   * `if (available !== undefined) inventory.available = available;` and the
   * same for `sold`: the counts given replace the stored ones, the others stay.
   */
  function SetCounts(i: Inventory, available: Option<int>, sold: Option<int>): (r: Inventory)
    ensures r.productId == i.productId
    ensures r.available == available.GetOr(i.available) && r.sold == sold.GetOr(i.sold)
  {
    i.(available := available.GetOr(i.available), sold := sold.GetOr(i.sold))
  }

  /** The whole database: one map per collection and the id counter. */
  datatype Db = Db(
    users: map<Id, User>,
    products: map<Id, Product>,
    categories: map<Id, Category>,
    inventories: map<Id, Inventory>,
    nextId: nat)

  /** `save()` of product document `id` as `p` passes validation and the unique index. */
  predicate CanSaveProduct(products: map<Id, Product>, id: Id, p: Product) {
    ProductSchemaOk(p) && InventoryRefFree(products, id, p.inventory)
  }

  predicate CanSaveCategory(categories: map<Id, Category>, id: Id, c: Category) {
    CategorySchemaOk(c) && CategoryNameFree(categories, id, c.name)
  }

  predicate CanSaveInventory(inventories: map<Id, Inventory>, id: Id, i: Inventory) {
    InventorySchemaOk(i) && ProductIdFree(inventories, id, i.productId)
  }

  predicate EmailFree(users: map<Id, User>, id: Id, email: string) {
    forall q :: q in users && q != id ==> users[q].email != email
  }

  predicate UsernameFree(users: map<Id, User>, id: Id, username: string) {
    forall q :: q in users && q != id ==> users[q].username != username
  }

  predicate UserRowOk(db: Db, id: Id) requires id in db.users {
    id < db.nextId
    && EmailFree(db.users, id, db.users[id].email)
    && UsernameFree(db.users, id, db.users[id].username)
  }

  predicate ProductRowOk(db: Db, id: Id) requires id in db.products {
    var p := db.products[id];
    id < db.nextId && CanSaveProduct(db.products, id, p)
    && (p.inventory.Some? ==> p.inventory.value < db.nextId)
  }

  predicate CategoryRowOk(db: Db, id: Id) requires id in db.categories {
    id < db.nextId && CanSaveCategory(db.categories, id, db.categories[id])
  }

  predicate InventoryRowOk(db: Db, id: Id) requires id in db.inventories {
    id < db.nextId && CanSaveInventory(db.inventories, id, db.inventories[id])
    && db.inventories[id].productId < db.nextId
  }

  /** The set of ids a request lists. */
  function IdSet(ids: seq<Id>): set<Id> {
    set i | i in ids
  }

  /**
   * What every write the store accepts keeps: each document satisfies its
   * schema, the unique indexes hold (and registration keeps e-mails and
   * user names distinct), and every allocated id and every id the store
   * itself links (`Product.inventory`, `Inventory.productId`) is below the counter.
   */
  predicate Valid(db: Db) {
    && (forall id :: id in db.users ==> UserRowOk(db, id))
    && (forall id :: id in db.products ==> ProductRowOk(db, id))
    && (forall id :: id in db.categories ==> CategoryRowOk(db, id))
    && (forall id :: id in db.inventories ==> InventoryRowOk(db, id))
  }

  /** Inventory.productId is unique: no two rows belong to the same product. */
  predicate OneInventoryEach(inventories: map<Id, Inventory>) {
    forall a, b :: a in inventories && b in inventories && inventories[a].productId == inventories[b].productId ==> a == b
  }

  /** Category.name is unique. */
  predicate CategoryNamesUnique(categories: map<Id, Category>) {
    forall a, b :: a in categories && b in categories && categories[a].name == categories[b].name ==> a == b
  }

  /** No two users share an e-mail address. */
  predicate EmailsUnique(users: map<Id, User>) {
    forall a, b :: a in users && b in users && users[a].email == users[b].email ==> a == b
  }

  /**
   * The next id is unallocated and unreferenced: no document has it and no
   * product or inventory row refers to it. A valid database has this.
   */
  predicate NextIdFresh(db: Db) {
    && db.nextId !in db.users && db.nextId !in db.products
    && db.nextId !in db.categories && db.nextId !in db.inventories
    && (forall p :: p in db.products ==> db.products[p].inventory != Some(db.nextId))
    && (forall q :: q in db.inventories ==> db.inventories[q].productId != db.nextId)
  }

  /** The empty database is valid. */
  lemma EmptyValid()
    ensures Valid(Db(map[], map[], map[], map[], 0))
  {
  }

  /** At most one inventory row belongs to any product (Inventory.productId is unique). */
  lemma OneInventoryPerProduct(db: Db, a: Id, b: Id)
    requires Valid(db)
    requires a in db.inventories && b in db.inventories
    requires db.inventories[a].productId == db.inventories[b].productId
    ensures a == b
  {
    assert InventoryRowOk(db, a);
  }

  /** No two products share an inventory reference (Product.inventory is unique). */
  lemma InventoryReferencedOnce(db: Db, a: Id, b: Id)
    requires Valid(db)
    requires a in db.products && b in db.products
    requires db.products[a].inventory == db.products[b].inventory
    ensures a == b
  {
    assert ProductRowOk(db, a);
  }

  /** Category names are unique across owners, hence also per owner. */
  lemma CategoryNameIdentifies(db: Db, a: Id, b: Id)
    requires Valid(db)
    requires a in db.categories && b in db.categories
    requires db.categories[a].name == db.categories[b].name
    ensures a == b
  {
    assert CategoryRowOk(db, a);
  }

  /** The unique indexes a valid database satisfies, as the lookups use them. */
  lemma ValidIndexes(db: Db)
    requires Valid(db)
    ensures OneInventoryEach(db.inventories) && CategoryNamesUnique(db.categories) && EmailsUnique(db.users)
  {
    forall a, b | a in db.inventories && b in db.inventories && db.inventories[a].productId == db.inventories[b].productId
      ensures a == b
    {
      OneInventoryPerProduct(db, a, b);
    }
    forall a, b | a in db.categories && b in db.categories && db.categories[a].name == db.categories[b].name
      ensures a == b
    {
      CategoryNameIdentifies(db, a, b);
    }
    forall a, b | a in db.users && b in db.users && db.users[a].email == db.users[b].email
      ensures a == b
    {
      assert UserRowOk(db, a);
    }
  }
}
