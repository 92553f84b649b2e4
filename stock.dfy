/**
 * Creating a product together with its inventory row, as createProduct
 * (Backend/src/controllers/productController.ts) and the CSV import
 * (Backend/src/routes/uploadRoutes.ts) both do it: save the product without
 * an inventory, save the row pointing at the product, then save the product
 * again pointing at the row.
 */
module Stock {
  import opened Wrappers
  import opened Models
  import Mongo
  import opened Database

  /**
   * The three saves. The product takes the next id and the row the id
   * after; the first save that fails stops, keeping the ones before it.
   */
  function AddStocked(db: Db, p: Product, available: int, sold: int): Mongo.Saved {
    var w1 := Mongo.InsertProduct(db, p);
    if !w1.ok then w1 else
    var w2 := Mongo.InsertInventory(w1.db, Inventory(db.nextId, available, sold));
    if !w2.ok then Mongo.Saved(false, w1.db) else
    var w3 := Mongo.SaveProduct(w2.db, db.nextId, p.(inventory := Some(w1.db.nextId)));
    if !w3.ok then Mongo.Saved(false, w2.db) else w3
  }

  /** The three saves on the store; the product takes the id `pid`. */
  method SaveStocked(s: Store, p: Product, available: int, sold: int) returns (ok: bool, pid: Id)
    modifies s
    ensures pid == old(s.nextId)
    ensures ok == AddStocked(old(s.Snapshot()), p, available, sold).ok
    ensures s.Snapshot() == AddStocked(old(s.Snapshot()), p, available, sold).db
  {
    ok, pid := s.InsertProduct(p);
    if !ok {
      return;
    }
    var iid;
    ok, iid := s.InsertInventory(Inventory(pid, available, sold));
    if !ok {
      return;
    }
    ok := s.SaveProduct(pid, p.(inventory := Some(iid)));
  }

  /**
   * When all three saves go through, the product sits under the next id
   * pointing at its row, the row under the id after with the counts given,
   * and nothing else has changed.
   */
  lemma AddStockedDone(db: Db, p: Product, available: int, sold: int)
    ensures var r := AddStocked(db, p, available, sold);
      var pid := db.nextId;
      r.ok ==> r.db == db.(products := db.products[pid := p.(inventory := Some(pid + 1))],
                           inventories := db.inventories[pid + 1 := Inventory(pid, available, sold)],
                           nextId := db.nextId + 2)
  {
    var pid := db.nextId;
    var w1 := Mongo.InsertProduct(db, p);
    var w2 := Mongo.InsertInventory(w1.db, Inventory(pid, available, sold));
    var w3 := Mongo.SaveProduct(w2.db, pid, p.(inventory := Some(w1.db.nextId)));
    if w1.ok && w2.ok && w3.ok {
      assert w3.db.products == db.products[pid := p][pid := p.(inventory := Some(pid + 1))];
      UpdateTwice(db.products, pid, p, p.(inventory := Some(pid + 1)));
    }
  }

  /** After all three saves, the new row is the only one pointing at the new product. */
  lemma AddStockedBackLink(db: Db, p: Product, available: int, sold: int)
    requires NextIdFresh(db)
    requires AddStocked(db, p, available, sold).ok
    ensures var r := AddStocked(db, p, available, sold);
      forall q :: q in r.db.inventories ==> (r.db.inventories[q].productId == db.nextId <==> q == db.nextId + 1)
  {
    AddStockedDone(db, p, available, sold);
  }

  /** Whatever happens, users and categories are untouched. */
  lemma AddStockedScope(db: Db, p: Product, available: int, sold: int)
    ensures AddStocked(db, p, available, sold).db.users == db.users
    ensures AddStocked(db, p, available, sold).db.categories == db.categories
  {
  }

  lemma UpdateTwice<K, V>(m: map<K, V>, k: K, a: V, b: V)
    ensures m[k := a][k := b] == m[k := b]
  {
  }

  /**
   * On a valid database the saves go through exactly when the product
   * passes its schema, every stored product already has an inventory (the
   * unique index on `inventory` counts a missing reference as null) and the
   * counts are not negative; the ids taken were free. When only the counts
   * are wrong, the product saved first stays behind without an inventory.
   */
  lemma AddStockedWhen(db: Db, p: Product, available: int, sold: int)
    requires Valid(db) && p.inventory == None
    ensures var r := AddStocked(db, p, available, sold);
      var placed := ProductSchemaOk(p) && (forall q :: q in db.products ==> db.products[q].inventory.Some?);
      && (r.ok <==> placed && available >= 0 && sold >= 0)
      && (r.ok ==> db.nextId !in db.products && db.nextId + 1 !in db.inventories)
      && (!placed ==> r == Mongo.Saved(false, db))
      && (placed && !r.ok ==>
            r.db == db.(products := db.products[db.nextId := p], nextId := db.nextId + 1))
  {
    Mongo.NextIdUnused(db);
    var w1 := Mongo.InsertProduct(db, p);
    if w1.ok {
      Mongo.InsertProductKeepsValid(db, p);
      Mongo.NextIdUnused(w1.db);
      var w2 := Mongo.InsertInventory(w1.db, Inventory(db.nextId, available, sold));
      if w2.ok {
        assert Mongo.SaveProduct(w2.db, db.nextId, p.(inventory := Some(w1.db.nextId))).ok;
      }
    }
  }

  lemma AddStockedKeepsValid(db: Db, p: Product, available: int, sold: int)
    requires Valid(db) && p.inventory == None
    ensures Valid(AddStocked(db, p, available, sold).db)
  {
    Mongo.InsertProductKeepsValid(db, p);
    var w1 := Mongo.InsertProduct(db, p);
    if w1.ok {
      Mongo.InsertInventoryKeepsValid(w1.db, Inventory(db.nextId, available, sold));
      var w2 := Mongo.InsertInventory(w1.db, Inventory(db.nextId, available, sold));
      if w2.ok {
        Mongo.SaveProductKeepsValid(w2.db, db.nextId, p.(inventory := Some(w1.db.nextId)));
      }
    }
  }
}
