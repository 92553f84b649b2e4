/**
 * Backend/src/controllers/inventoryController.ts: listing inventory rows,
 * creating the row of a product that has none, and updating a row's counts.
 * An inventory row has no owner of its own: the owner checks go through the
 * product the row belongs to.
 */
module InventoryController {
  import opened Wrappers
  import opened Models
  import opened Access
  import Mongo
  import opened Http
  import opened Database

  /**
   * getInventories. A master's filter is `{createdBy: caller}`, a path the
   * Inventory schema does not have: when Mongoose runs with `strictQuery` it
   * drops that path and every row matches, otherwise no row has the field and
   * none matches. Any other role gets every row.
   */
  function GetInventories(db: Db, caller: Caller, strictQuery: bool): (r: map<Id, Inventory>)
    ensures caller.role == Admin ==> r == db.inventories
    ensures caller.role == Master && strictQuery ==> r == db.inventories
    ensures caller.role == Master && !strictQuery ==> r == map[]
  {
    if caller.role == Master && !strictQuery then map[] else db.inventories
  }

  /**
   * updateInventory: 404 for an unknown row; 500 when the row's product is
   * gone (populate yields null and the `in` test on it throws); 403 unless
   * the product belongs to the caller; then the counts given replace the
   * stored ones, 500 if the schema rejects them.
   */
  function UpdateInventorySpec(db: Db, caller: Caller, id: Id, available: Option<int>, sold: Option<int>): Outcome {
    if id !in db.inventories then Outcome(404, "Inventory not found", None, db)
    else
      var pid := db.inventories[id].productId;
      if pid !in db.products then Outcome(500, ServerError, None, db)
      else if db.products[pid].createdBy != caller.id then
        Outcome(403, "Unauthorized: Cannot update another user's product inventory", None, db)
      else
        var w := Mongo.SaveInventory(db, id, SetCounts(db.inventories[id], available, sold));
        if w.ok then Outcome(200, "Inventory updated", None, w.db) else Outcome(500, ServerError, None, db)
  }

  method UpdateInventory(s: Store, caller: Caller, id: Id, available: Option<int>, sold: Option<int>)
    returns (status: nat, message: string)
    requires Permits(Route.UpdateInventory, caller)
    requires s.Valid()
    modifies s
    ensures Outcome(status, message, None, s.Snapshot()) == UpdateInventorySpec(old(s.Snapshot()), caller, id, available, sold)
    ensures s.Valid()
  {
    UpdateInventoryKeepsValid(s.Snapshot(), caller, id, available, sold);
    if id !in s.inventories {
      return 404, "Inventory not found";
    }
    var pid := s.inventories[id].productId;
    if pid !in s.products {
      return 500, ServerError;
    }
    if s.products[pid].createdBy != caller.id {
      return 403, "Unauthorized: Cannot update another user's product inventory";
    }
    var ok := s.SaveInventory(id, SetCounts(s.inventories[id], available, sold));
    if !ok {
      return 500, ServerError;
    }
    return 200, "Inventory updated";
  }

  /**
   * updateInventory answers 404 exactly for an unknown row and 403 exactly
   * when the row's product belongs to someone else; whenever it does not
   * answer 200 it has written nothing.
   */
  lemma UpdateInventoryRefused(db: Db, caller: Caller, id: Id, available: Option<int>, sold: Option<int>)
    ensures var out := UpdateInventorySpec(db, caller, id, available, sold);
      && (out.status == 404 <==> id !in db.inventories)
      && (out.status == 403 <==>
        && id in db.inventories && db.inventories[id].productId in db.products
        && db.products[db.inventories[id].productId].createdBy != caller.id)
      && (out.status != 200 ==> out.db == db)
  {
  }

  /**
   * When each product has at most one row, an update by the product's owner
   * succeeds exactly when the resulting counts are not negative, and a 200
   * changes only that row: each count given replaces the stored one, the
   * other count and `productId` stay.
   */
  lemma UpdateInventoryCounts(db: Db, caller: Caller, id: Id, available: Option<int>, sold: Option<int>)
    requires OneInventoryEach(db.inventories)
    requires id in db.inventories && db.inventories[id].productId in db.products
    requires db.products[db.inventories[id].productId].createdBy == caller.id
    ensures var out := UpdateInventorySpec(db, caller, id, available, sold);
      var i := db.inventories[id];
      && (out.status == 200 <==> available.GetOr(i.available) >= 0 && sold.GetOr(i.sold) >= 0)
      && (out.status == 200 ==>
        && out.db == db.(inventories := db.inventories[id := Inventory(i.productId, available.GetOr(i.available), sold.GetOr(i.sold))]))
  {
    var i := db.inventories[id];
    assert ProductIdFree(db.inventories, id, i.productId);
  }

  lemma UpdateInventoryKeepsValid(db: Db, caller: Caller, id: Id, available: Option<int>, sold: Option<int>)
    requires Valid(db)
    ensures Valid(UpdateInventorySpec(db, caller, id, available, sold).db)
  {
    if id in db.inventories {
      Mongo.SaveInventoryKeepsValid(db, id, SetCounts(db.inventories[id], available, sold));
    }
  }

  /** The JSON body of POST /inventories; None is a field left out (or null). */
  datatype InventoryBody = InventoryBody(productId: Option<Id>, available: Option<int>, sold: Option<int>)

  /** Some inventory row already belongs to product `pid`. */
  predicate HasInventory(db: Db, pid: Id) {
    exists q :: q in db.inventories && db.inventories[q].productId == pid
  }

  /**
   * createInventory: 400 for a missing field; 404 for an unknown product;
   * 403 for another owner's product; 400 when the product already has a row;
   * then save the row (500 if the schema rejects its counts) and point the
   * product at it.
   */
  function CreateInventorySpec(db: Db, caller: Caller, body: InventoryBody): Outcome {
    if body.productId.None? || body.available.None? || body.sold.None? then
      Outcome(400, "productId, available, and sold are required", None, db)
    else
      var pid := body.productId.value;
      if pid !in db.products then Outcome(404, "Product not found", None, db)
      else if db.products[pid].createdBy != caller.id then
        Outcome(403, "Unauthorized: Cannot create inventory for another user's product", None, db)
      else if HasInventory(db, pid) then Outcome(400, "Inventory for this product already exists", None, db)
      else SaveAndPoint(db, pid, Inventory(pid, body.available.value, body.sold.value))
  }

  /**
   * The writes of createInventory once its checks pass: save the new row
   * under the next id, then point product `pid` at it.
   */
  function SaveAndPoint(db: Db, pid: Id, i: Inventory): Outcome
    requires pid in db.products
  {
    var w := Mongo.InsertInventory(db, i);
    if !w.ok then Outcome(500, ServerError, None, db) else
    var iid := db.nextId;
    var w2 := Mongo.SaveProduct(w.db, pid, db.products[pid].(inventory := Some(iid)));
    if !w2.ok then Outcome(500, ServerError, None, w.db)
    else Outcome(201, "Inventory created", Some(iid), w2.db)
  }

  method CreateInventory(s: Store, caller: Caller, body: InventoryBody) returns (status: nat, message: string, created: Option<Id>)
    requires Permits(Route.CreateInventory, caller)
    requires s.Valid()
    modifies s
    ensures Outcome(status, message, created, s.Snapshot()) == CreateInventorySpec(old(s.Snapshot()), caller, body)
    ensures s.Valid()
  {
    CreateInventoryKeepsValid(s.Snapshot(), caller, body);
    if body.productId.None? || body.available.None? || body.sold.None? {
      return 400, "productId, available, and sold are required", None;
    }
    var pid := body.productId.value;
    if pid !in s.products {
      return 404, "Product not found", None;
    }
    var product := s.products[pid];
    if product.createdBy != caller.id {
      return 403, "Unauthorized: Cannot create inventory for another user's product", None;
    }
    if exists q :: q in s.inventories && s.inventories[q].productId == pid {
      return 400, "Inventory for this product already exists", None;
    }
    var ok, iid := s.InsertInventory(Inventory(pid, body.available.value, body.sold.value));
    if !ok {
      return 500, ServerError, None;
    }
    ok := s.SaveProduct(pid, product.(inventory := Some(iid)));
    if !ok {
      return 500, ServerError, None;
    }
    return 201, "Inventory created", Some(iid);
  }

  /**
   * createInventory checks, in this order and before any write: the three
   * fields are present (400), the product exists (404), it belongs to the
   * caller (403), it has no row yet (400). A failed check writes nothing.
   */
  lemma CreateInventoryChecks(db: Db, caller: Caller, body: InventoryBody)
    ensures var out := CreateInventorySpec(db, caller, body);
      var given := body.productId.Some? && body.available.Some? && body.sold.Some?;
      && (!given ==> out == Outcome(400, "productId, available, and sold are required", None, db))
      && (given && body.productId.value !in db.products ==> out == Outcome(404, "Product not found", None, db))
      && (given && body.productId.value in db.products && db.products[body.productId.value].createdBy != caller.id ==>
        out.status == 403 && out.db == db)
      && (given && body.productId.value in db.products && db.products[body.productId.value].createdBy == caller.id
          && HasInventory(db, body.productId.value) ==>
        out == Outcome(400, "Inventory for this product already exists", None, db))
  {
  }

  /**
   * On a valid database, once the checks pass the request succeeds exactly
   * when both counts are not negative; a 201 inserts exactly one row, with
   * the given values, that is now the product's only row, and points the
   * product at it; nothing else changes.
   */
  lemma CreateInventoryLinks(db: Db, caller: Caller, body: InventoryBody)
    requires Valid(db)
    requires body.productId.Some? && body.available.Some? && body.sold.Some?
    requires body.productId.value in db.products && db.products[body.productId.value].createdBy == caller.id
    requires !HasInventory(db, body.productId.value)
    ensures var out := CreateInventorySpec(db, caller, body);
      var pid, iid := body.productId.value, db.nextId;
      && (out.status == 201 <==> body.available.value >= 0 && body.sold.value >= 0)
      && (out.status != 201 ==> out.status == 500 && out.db == db)
      && (out.status == 201 ==>
        && out.created == Some(iid) && iid !in db.inventories
        && out.db.inventories == db.inventories[iid := Inventory(pid, body.available.value, body.sold.value)]
        && out.db.products == db.products[pid := db.products[pid].(inventory := Some(iid))]
        && (forall q :: q in out.db.inventories ==> (out.db.inventories[q].productId == pid <==> q == iid))
        && out.db.categories == db.categories && out.db.users == db.users)
  {
    Mongo.NextIdUnused(db);
    var pid := body.productId.value;
    var w := Mongo.InsertInventory(db, Inventory(pid, body.available.value, body.sold.value));
    if w.ok {
      assert ProductRowOk(db, pid);
      assert Mongo.SaveProduct(w.db, pid, db.products[pid].(inventory := Some(db.nextId))).ok;
    }
  }

  lemma CreateInventoryKeepsValid(db: Db, caller: Caller, body: InventoryBody)
    requires Valid(db)
    ensures Valid(CreateInventorySpec(db, caller, body).db)
  {
    if body.productId.Some? && body.available.Some? && body.sold.Some? && body.productId.value in db.products {
      var pid := body.productId.value;
      assert ProductRowOk(db, pid);
      SaveAndPointKeepsValid(db, pid, Inventory(pid, body.available.value, body.sold.value));
    }
  }

  lemma SaveAndPointKeepsValid(db: Db, pid: Id, i: Inventory)
    requires Valid(db) && pid in db.products && i.productId < db.nextId
    ensures Valid(SaveAndPoint(db, pid, i).db)
  {
    Mongo.InsertInventoryKeepsValid(db, i);
    var w := Mongo.InsertInventory(db, i);
    if w.ok {
      Mongo.SaveProductKeepsValid(w.db, pid, db.products[pid].(inventory := Some(db.nextId)));
    }
  }
}
