/**
 * The MongoDB connection the controllers share: one mutable field per
 * collection and the id counter. Each method performs one Mongoose call in
 * place and is specified by the function of module Mongo that gives its
 * effect on the whole database.
 */
module Database {
  import opened Models
  import Links
  import Mongo

  class Store {
    var users: map<Id, User>
    var products: map<Id, Product>
    var categories: map<Id, Category>
    var inventories: map<Id, Inventory>
    var nextId: nat

    /** The database as a value. */
    function Snapshot(): Db
      reads this
    {
      Db(users, products, categories, inventories, nextId)
    }

    predicate Valid()
      reads this
    {
      Models.Valid(Snapshot())
    }

    constructor ()
      ensures Valid()
      ensures Snapshot() == Db(map[], map[], map[], map[], 0)
    {
      users, products, categories, inventories, nextId := map[], map[], map[], map[], 0;
      EmptyValid();
    }

    method InsertUser(u: User) returns (id: Id)
      modifies this`users, this`nextId
      ensures id == old(nextId)
      ensures Snapshot() == Mongo.InsertUser(old(Snapshot()), u)
    {
      id := nextId;
      users := users[id := u];
      nextId := nextId + 1;
    }

    method InsertProduct(p: Product) returns (ok: bool, id: Id)
      modifies this`products, this`nextId
      ensures id == old(nextId)
      ensures ok == Mongo.InsertProduct(old(Snapshot()), p).ok
      ensures Snapshot() == Mongo.InsertProduct(old(Snapshot()), p).db
    {
      ok, id := CanSaveProduct(products, nextId, p), nextId;
      if ok {
        products := products[id := p];
        nextId := nextId + 1;
      }
    }

    method SaveProduct(id: Id, p: Product) returns (ok: bool)
      modifies this`products
      ensures ok == Mongo.SaveProduct(old(Snapshot()), id, p).ok
      ensures Snapshot() == Mongo.SaveProduct(old(Snapshot()), id, p).db
    {
      ok := CanSaveProduct(products, id, p);
      if ok {
        products := products[id := p];
      }
    }

    method DeleteProduct(id: Id)
      modifies this`products
      ensures Snapshot() == Mongo.DeleteProduct(old(Snapshot()), id)
    {
      products := products - {id};
    }

    method InsertCategory(c: Category) returns (ok: bool, id: Id)
      modifies this`categories, this`nextId
      ensures id == old(nextId)
      ensures ok == Mongo.InsertCategory(old(Snapshot()), c).ok
      ensures Snapshot() == Mongo.InsertCategory(old(Snapshot()), c).db
    {
      ok, id := CanSaveCategory(categories, nextId, c), nextId;
      if ok {
        categories := categories[id := c];
        nextId := nextId + 1;
      }
    }

    method SaveCategory(id: Id, c: Category) returns (ok: bool)
      modifies this`categories
      ensures ok == Mongo.SaveCategory(old(Snapshot()), id, c).ok
      ensures Snapshot() == Mongo.SaveCategory(old(Snapshot()), id, c).db
    {
      ok := CanSaveCategory(categories, id, c);
      if ok {
        categories := categories[id := c];
      }
    }

    method DeleteCategory(id: Id)
      modifies this`categories
      ensures Snapshot() == Mongo.DeleteCategory(old(Snapshot()), id)
    {
      categories := categories - {id};
    }

    method InsertInventory(i: Inventory) returns (ok: bool, id: Id)
      modifies this`inventories, this`nextId
      ensures id == old(nextId)
      ensures ok == Mongo.InsertInventory(old(Snapshot()), i).ok
      ensures Snapshot() == Mongo.InsertInventory(old(Snapshot()), i).db
    {
      ok, id := CanSaveInventory(inventories, nextId, i), nextId;
      if ok {
        inventories := inventories[id := i];
        nextId := nextId + 1;
      }
    }

    method SaveInventory(id: Id, i: Inventory) returns (ok: bool)
      modifies this`inventories
      ensures ok == Mongo.SaveInventory(old(Snapshot()), id, i).ok
      ensures Snapshot() == Mongo.SaveInventory(old(Snapshot()), id, i).db
    {
      ok := CanSaveInventory(inventories, id, i);
      if ok {
        inventories := inventories[id := i];
      }
    }

    method DeleteInventory(id: Id)
      modifies this`inventories
      ensures Snapshot() == Mongo.DeleteInventory(old(Snapshot()), id)
    {
      inventories := inventories - {id};
    }

    method AddProductToCategories(ids: set<Id>, pid: Id)
      modifies this`categories
      ensures Snapshot() == Mongo.AddProductToCategories(old(Snapshot()), ids, pid)
    {
      categories := Links.AddProductToCategories(categories, ids, pid);
    }

    method PullProductFromCategories(keep: set<Id>, pid: Id)
      modifies this`categories
      ensures Snapshot() == Mongo.PullProductFromCategories(old(Snapshot()), keep, pid)
    {
      categories := Links.PullProductFromCategories(categories, keep, pid);
    }

    method AddCategoryToProducts(ids: set<Id>, cid: Id)
      modifies this`products
      ensures Snapshot() == Mongo.AddCategoryToProducts(old(Snapshot()), ids, cid)
    {
      products := Links.AddCategoryToProducts(products, ids, cid);
    }

    method PullCategoryFromProducts(cid: Id)
      modifies this`products
      ensures Snapshot() == Mongo.PullCategoryFromProducts(old(Snapshot()), cid)
    {
      products := Links.PullCategoryFromProducts(products, cid);
    }
  }
}
