/**
 * The `/csv` upload handler of Backend/src/routes/uploadRoutes.ts: every
 * row of the uploaded file names a category and a product; the category is
 * found or created, and a product the caller does not have yet is created
 * with its inventory row and listed in that category. Reading the file
 * (multer, csv-parser) is left out: the handler gets the parsed rows.
 */
module CsvImport {
  import opened Wrappers
  import opened Text
  import opened Models
  import opened Access
  import Mongo
  import Stock
  import opened Http
  import opened Database

  /**
   * One row as csv-parser hands it over; None is a missing column. `price`
   * and `units` are the results of `parseFloat` and `parseInt` on their
   * columns, None where those give NaN.
   */
  datatype CsvRow = CsvRow(
    category: Option<string>, categoryDescription: Option<string>,
    productName: Option<string>, productDescription: Option<string>,
    price: Option<int>, units: Option<int>)

  function CategoryName(row: CsvRow): string { Trim(row.category.GetOr("")) }
  function ProductName(row: CsvRow): string { Trim(row.productName.GetOr("")) }

  /** A row the loop skips with `continue`: an empty name or a number that does not parse. */
  predicate Skipped(row: CsvRow) {
    CategoryName(row) == [] || ProductName(row) == [] || row.price.None? || row.units.None?
  }

  /** The category a row resolves to: whether that worked, its id, and the database after. */
  datatype Placed = Placed(ok: bool, id: Id, db: Db)

  /**
   * The caller's category named `name`, or a new one with no products.
   * Creating it fails when another user already has a category of that name,
   * since the name index is unique across owners.
   */
  function CategoryFor(db: Db, owner: Id, name: string, description: string): (r: Placed)
    requires CategoryNamesUnique(db.categories)
    ensures r.ok ==>
      r.id in r.db.categories && r.db.categories[r.id].name == name && r.db.categories[r.id].createdBy == owner
    ensures Mongo.CategoryExists(db.categories, name, owner) ==> r.ok && r.db == db
    ensures !Mongo.CategoryExists(db.categories, name, owner) ==>
      r.id == db.nextId && (r.ok ==> r.db == db.(categories := db.categories[db.nextId := Category(name, description, [], owner)],
                                              nextId := db.nextId + 1))
    ensures !r.ok ==> r.db == db
  {
    match Mongo.CategoryNamed(db.categories, name, owner)
    case Some(cid) => Placed(true, cid, db)
    case None =>
      var w := Mongo.InsertCategory(db, Category(name, description, [], owner));
      Placed(w.ok, db.nextId, w.db)
  }

  /** The product a row creates in category `cid`, before its inventory exists. */
  function Listing(row: CsvRow, owner: Id, cid: Id): Product
    requires !Skipped(row)
  {
    Product(ProductName(row), Trim(row.productDescription.GetOr("")), row.price.value, row.units.value,
      [cid], None, owner)
  }

  /**
   * Creating a row's product: the product and its inventory row, with
   * `units` available and none sold, then the product appended to the
   * category's `products`. The first save that fails throws, keeping the
   * saves before it.
   */
  function AddListing(db: Db, cid: Id, p: Product, units: int): Mongo.Saved
    requires cid in db.categories
  {
    var w := Stock.AddStocked(db, p, units, 0);
    if !w.ok then w else
    var c := db.categories[cid];
    var w4 := Mongo.SaveCategory(w.db, cid, c.(products := c.products + [db.nextId]));
    if !w4.ok then Mongo.Saved(false, w.db) else w4
  }

  /** One pass of the loop body; `ok == false` is an exception out of the loop. */
  function ImportRow(db: Db, owner: Id, row: CsvRow): Mongo.Saved
    requires CategoryNamesUnique(db.categories)
  {
    if Skipped(row) then Mongo.Saved(true, db) else
    var fc := CategoryFor(db, owner, CategoryName(row), Trim(row.categoryDescription.GetOr("")));
    if !fc.ok then Mongo.Saved(false, fc.db)
    else if Mongo.ProductNamed(fc.db, ProductName(row), owner) then Mongo.Saved(true, fc.db)
    else AddListing(fc.db, fc.id, Listing(row, owner, fc.id), row.units.value)
  }

  /** The loop over all rows, in file order, stopping at the first exception. */
  function ImportAll(db: Db, owner: Id, rows: seq<CsvRow>): (r: Mongo.Saved)
    requires CategoryNamesUnique(db.categories)
    ensures CategoryNamesUnique(r.db.categories)
    decreases |rows|
  {
    if rows == [] then Mongo.Saved(true, db) else
    ImportRowKeepsNamesUnique(db, owner, rows[0]);
    var w := ImportRow(db, owner, rows[0]);
    if !w.ok then w else ImportAll(w.db, owner, rows[1..])
  }

  /**
   * The handler: 400 without a file and 401 without a caller id, before any
   * row is read; then 200 when every row went through, and 500 on an
   * exception, keeping the writes of the rows before it.
   */
  function UploadCsvSpec(db: Db, file: Option<seq<CsvRow>>, userId: Option<Id>): Outcome
    requires CategoryNamesUnique(db.categories)
  {
    if file.None? then Outcome(400, "CSV file is required", None, db)
    else if userId.None? then Outcome(401, "Unauthorized: userId missing", None, db)
    else
      var w := ImportAll(db, userId.value, file.value);
      if w.ok then Outcome(200, "CSV uploaded and processed successfully", None, w.db)
      else Outcome(500, "Failed to process CSV", None, w.db)
  }

  /**
   * The route handler. `userId` is what `req.user?._id` yields for the
   * authenticated `caller`.
   */
  method UploadCsv(s: Store, caller: Caller, file: Option<seq<CsvRow>>, userId: Option<Id>)
    returns (status: nat, message: string)
    requires Permits(Route.UploadCsv, caller)
    requires s.Valid() && CategoryNamesUnique(s.categories)
    modifies s
    ensures Outcome(status, message, None, s.Snapshot()) == UploadCsvSpec(old(s.Snapshot()), file, userId)
    ensures s.Valid()
  {
    if file.None? {
      return 400, "CSV file is required";
    }
    if userId.None? {
      return 401, "Unauthorized: userId missing";
    }
    var rows, owner := file.value, userId.value;
    ghost var db0 := s.Snapshot();
    ImportAllKeepsValid(db0, owner, rows);
    var i := 0;
    while i < |rows|
      invariant 0 <= i <= |rows|
      invariant CategoryNamesUnique(s.categories)
      invariant ImportAll(s.Snapshot(), owner, rows[i..]) == ImportAll(db0, owner, rows)
    {
      assert rows[i..][0] == rows[i] && rows[i..][1..] == rows[i + 1..];
      ImportRowKeepsNamesUnique(s.Snapshot(), owner, rows[i]);
      var ok := ReconcileRow(s, owner, rows[i]);
      if !ok {
        return 500, "Failed to process CSV";
      }
      i := i + 1;
    }
    return 200, "CSV uploaded and processed successfully";
  }

  /** The loop body on the store. */
  method ReconcileRow(s: Store, owner: Id, row: CsvRow) returns (ok: bool)
    requires CategoryNamesUnique(s.categories)
    modifies s
    ensures ok == ImportRow(old(s.Snapshot()), owner, row).ok
    ensures s.Snapshot() == ImportRow(old(s.Snapshot()), owner, row).db
  {
    var categoryName := Trim(row.category.GetOr(""));
    var productName := Trim(row.productName.GetOr(""));
    if categoryName == [] || productName == [] || row.price.None? || row.units.None? {
      return true;
    }
    var cid;
    ok, cid := FindOrCreateCategory(s, owner, categoryName, Trim(row.categoryDescription.GetOr("")));
    if !ok {
      return;
    }
    if Mongo.ProductNamed(s.Snapshot(), productName, owner) {
      return true;
    }
    ok := AddListingTo(s, cid, Listing(row, owner, cid), row.units.value);
  }

  /** `Category.findOne({name, createdBy})`, and a new category when it finds none. */
  method FindOrCreateCategory(s: Store, owner: Id, name: string, description: string) returns (ok: bool, cid: Id)
    requires CategoryNamesUnique(s.categories)
    modifies s
    ensures Placed(ok, cid, s.Snapshot()) == CategoryFor(old(s.Snapshot()), owner, name, description)
  {
    var found := Mongo.CategoryNamed(s.categories, name, owner);
    if found.Some? {
      return true, found.value;
    }
    ok, cid := s.InsertCategory(Category(name, description, [], owner));
  }

  /** Creating a row's product on the store. */
  method AddListingTo(s: Store, cid: Id, p: Product, units: int) returns (ok: bool)
    requires cid in s.categories
    modifies s
    ensures ok == AddListing(old(s.Snapshot()), cid, p, units).ok
    ensures s.Snapshot() == AddListing(old(s.Snapshot()), cid, p, units).db
  {
    var c := s.categories[cid];
    var pid;
    ok, pid := Stock.SaveStocked(s, p, units, 0);
    if !ok {
      return;
    }
    ok := s.SaveCategory(cid, c.(products := c.products + [pid]));
  }

  // Validity.

  lemma CategoryForKeepsValid(db: Db, owner: Id, name: string, description: string)
    requires Valid(db) && CategoryNamesUnique(db.categories)
    ensures Valid(CategoryFor(db, owner, name, description).db)
  {
    Mongo.InsertCategoryKeepsValid(db, Category(name, description, [], owner));
  }

  /**
   * Resolving a category touches no product, no inventory row and no
   * existing category: at most it adds one under an id that was free.
   */
  lemma CategoryForKeeps(db: Db, owner: Id, name: string, description: string)
    requires CategoryNamesUnique(db.categories) && NextIdFresh(db)
    ensures var fc := CategoryFor(db, owner, name, description);
      && fc.db.users == db.users && fc.db.products == db.products && fc.db.inventories == db.inventories
      && (forall q :: q in db.categories ==> q in fc.db.categories && fc.db.categories[q] == db.categories[q])
  {
    var fc := CategoryFor(db, owner, name, description);
    forall q | q in db.categories ensures q in fc.db.categories && fc.db.categories[q] == db.categories[q] {
      assert q != db.nextId;
    }
  }

  lemma AddListingKeepsValid(db: Db, cid: Id, p: Product, units: int)
    requires Valid(db) && cid in db.categories && p.inventory == None
    ensures Valid(AddListing(db, cid, p, units).db)
  {
    Stock.AddStockedKeepsValid(db, p, units, 0);
    Stock.AddStockedScope(db, p, units, 0);
    var w := Stock.AddStocked(db, p, units, 0);
    var c := db.categories[cid];
    Mongo.SaveCategoryKeepsValid(w.db, cid, c.(products := c.products + [db.nextId]));
  }

  lemma ImportRowKeepsValid(db: Db, owner: Id, row: CsvRow)
    requires Valid(db) && CategoryNamesUnique(db.categories)
    ensures Valid(ImportRow(db, owner, row).db)
  {
    if !Skipped(row) {
      var fc := CategoryFor(db, owner, CategoryName(row), Trim(row.categoryDescription.GetOr("")));
      CategoryForKeepsValid(db, owner, CategoryName(row), Trim(row.categoryDescription.GetOr("")));
      if fc.ok && !Mongo.ProductNamed(fc.db, ProductName(row), owner) {
        AddListingKeepsValid(fc.db, fc.id, Listing(row, owner, fc.id), row.units.value);
      }
    }
  }

  /** Saving category `c` under `id` past the name index keeps names unique. */
  lemma SavedNameUnique(categories: map<Id, Category>, id: Id, c: Category)
    requires CategoryNamesUnique(categories) && CategoryNameFree(categories, id, c.name)
    ensures CategoryNamesUnique(categories[id := c])
  {
  }

  lemma AddListingKeepsNamesUnique(db: Db, cid: Id, p: Product, units: int)
    requires cid in db.categories && CategoryNamesUnique(db.categories)
    ensures CategoryNamesUnique(AddListing(db, cid, p, units).db.categories)
  {
    Stock.AddStockedScope(db, p, units, 0);
    var w := Stock.AddStocked(db, p, units, 0);
    var c := db.categories[cid];
    var c' := c.(products := c.products + [db.nextId]);
    if CanSaveCategory(w.db.categories, cid, c') {
      SavedNameUnique(db.categories, cid, c');
    }
  }

  /** The unique index on category names holds after any row, whatever else holds. */
  lemma ImportRowKeepsNamesUnique(db: Db, owner: Id, row: CsvRow)
    requires CategoryNamesUnique(db.categories)
    ensures CategoryNamesUnique(ImportRow(db, owner, row).db.categories)
  {
    if !Skipped(row) {
      var name, description := CategoryName(row), Trim(row.categoryDescription.GetOr(""));
      var fc := CategoryFor(db, owner, name, description);
      if !Mongo.CategoryExists(db.categories, name, owner) && fc.ok {
        SavedNameUnique(db.categories, db.nextId, Category(name, description, [], owner));
      }
      if fc.ok && !Mongo.ProductNamed(fc.db, ProductName(row), owner) {
        AddListingKeepsNamesUnique(fc.db, fc.id, Listing(row, owner, fc.id), row.units.value);
      }
    }
  }

  lemma {:induction false} ImportAllKeepsValid(db: Db, owner: Id, rows: seq<CsvRow>)
    requires Valid(db) && CategoryNamesUnique(db.categories)
    ensures Valid(ImportAll(db, owner, rows).db)
    decreases |rows|
  {
    if rows != [] {
      ImportRowKeepsValid(db, owner, rows[0]);
      ImportRowKeepsNamesUnique(db, owner, rows[0]);
      var w := ImportRow(db, owner, rows[0]);
      if w.ok {
        ImportAllKeepsValid(w.db, owner, rows[1..]);
      }
    }
  }

  // What a row does.

  /**
   * A skipped row writes nothing. A row whose product the caller already
   * has creates no product and no inventory row and changes no existing
   * category, even when its price differs; at most it adds the category.
   */
  lemma ImportRowExisting(db: Db, owner: Id, row: CsvRow)
    requires CategoryNamesUnique(db.categories) && NextIdFresh(db)
    ensures Skipped(row) ==> ImportRow(db, owner, row) == Mongo.Saved(true, db)
    ensures !Skipped(row) && Mongo.ProductNamed(db, ProductName(row), owner) ==>
      var r := ImportRow(db, owner, row);
      && r.db.products == db.products && r.db.inventories == db.inventories
      && (forall q :: q in db.categories ==> q in r.db.categories && r.db.categories[q] == db.categories[q])
  {
    if !Skipped(row) && Mongo.ProductNamed(db, ProductName(row), owner) {
      CategoryForKeeps(db, owner, CategoryName(row), Trim(row.categoryDescription.GetOr("")));
      ImportRowKnown(db, owner, row);
    }
  }

  /** A row whose product the caller already has stops once its category is resolved. */
  lemma ImportRowKnown(db: Db, owner: Id, row: CsvRow)
    requires CategoryNamesUnique(db.categories)
    requires !Skipped(row) && Mongo.ProductNamed(db, ProductName(row), owner)
    ensures ImportRow(db, owner, row).db == CategoryFor(db, owner, CategoryName(row), Trim(row.categoryDescription.GetOr(""))).db
  {
    var fc := CategoryFor(db, owner, CategoryName(row), Trim(row.categoryDescription.GetOr("")));
    assert fc.db.products == db.products;
    assert Mongo.ProductNamed(fc.db, ProductName(row), owner);
  }

  /**
   * A row with a new product name first resolves its category, which
   * touches no product and no inventory row. If that fails the row stops
   * with nothing written; otherwise the row creates its product in that
   * category, as `AddListingDone` and `AddListingEffect` describe.
   */
  lemma ImportRowCreates(db: Db, owner: Id, row: CsvRow)
    requires CategoryNamesUnique(db.categories)
    requires !Skipped(row) && !Mongo.ProductNamed(db, ProductName(row), owner)
    ensures var fc := CategoryFor(db, owner, CategoryName(row), Trim(row.categoryDescription.GetOr("")));
      var r := ImportRow(db, owner, row);
      && fc.db.products == db.products && fc.db.inventories == db.inventories
      && (!fc.ok ==> !r.ok && r.db == db)
      && (fc.ok ==> r == AddListing(fc.db, fc.id, Listing(row, owner, fc.id), row.units.value))
  {
    var fc := CategoryFor(db, owner, CategoryName(row), Trim(row.categoryDescription.GetOr("")));
    assert fc.db.products == db.products;
  }

  /** The product a row creates passes the schema exactly when its price and units are not negative. */
  lemma ListingSchema(row: CsvRow, owner: Id, cid: Id)
    requires !Skipped(row)
    ensures var p := Listing(row, owner, cid);
      && p.name == ProductName(row) && p.createdBy == owner && p.categories == [cid] && p.inventory == None
      && (ProductSchemaOk(p) <==> row.price.value >= 0 && row.units.value >= 0)
  {
  }

  /**
   * Creating a product that goes through stores it under the next id with
   * its inventory row under the id after, and lists it last in category
   * `cid`; users stay.
   */
  lemma AddListingDone(db: Db, cid: Id, p: Product, units: int)
    requires cid in db.categories
    ensures var r := AddListing(db, cid, p, units);
      var pid := db.nextId;
      r.ok ==>
        && r.db.users == db.users
        && r.db.products == db.products[pid := p.(inventory := Some(pid + 1))]
        && r.db.inventories == db.inventories[pid + 1 := Inventory(pid, units, 0)]
        && r.db.categories == db.categories[cid := db.categories[cid].(products := db.categories[cid].products + [pid])]
  {
    Stock.AddStockedDone(db, p, units, 0);
  }

  /**
   * On a valid database, creating a product succeeds exactly when the
   * product and its counts pass the schemas and every stored product has an
   * inventory; the ids it takes were free.
   */
  lemma AddListingEffect(db: Db, cid: Id, p: Product, units: int)
    requires Valid(db) && cid in db.categories && p.inventory == None
    ensures var r := AddListing(db, cid, p, units);
      && (r.ok <==> ProductSchemaOk(p) && units >= 0 && (forall q :: q in db.products ==> db.products[q].inventory.Some?))
      && (r.ok ==> db.nextId !in db.products && db.nextId + 1 !in db.inventories)
  {
    Stock.AddStockedWhen(db, p, units, 0);
    Stock.AddStockedKeepsValid(db, p, units, 0);
    Stock.AddStockedScope(db, p, units, 0);
    var w := Stock.AddStocked(db, p, units, 0);
    var c := db.categories[cid];
    assert CategoryRowOk(w.db, cid);
  }

  // Importing in file order.

  /** Rows are applied in file order: importing `a + b` imports `a`, then `b` unless `a` stopped. */
  lemma {:induction false} ImportAllAppend(db: Db, owner: Id, a: seq<CsvRow>, b: seq<CsvRow>)
    requires CategoryNamesUnique(db.categories)
    ensures var w := ImportAll(db, owner, a);
      ImportAll(db, owner, a + b) == if w.ok then ImportAll(w.db, owner, b) else w
    decreases |a|
  {
    if a == [] {
      assert a + b == b;
    } else {
      ImportRowKeepsNamesUnique(db, owner, a[0]);
      var w := ImportRow(db, owner, a[0]);
      var ab := a + b;
      AppendTail(a, b);
      if w.ok {
        ImportAllAppend(w.db, owner, a[1..], b);
        assert ImportAll(db, owner, ab) == ImportAll(w.db, owner, a[1..] + b);
        assert ImportAll(db, owner, a) == ImportAll(w.db, owner, a[1..]);
      } else {
        assert ImportAll(db, owner, ab) == w;
        assert ImportAll(db, owner, a) == w;
      }
    }
  }

  lemma AppendTail<T>(a: seq<T>, b: seq<T>)
    requires a != []
    ensures (a + b)[0] == a[0] && (a + b)[1..] == a[1..] + b
  {
  }

  // Importing the same rows twice.

  /** Every category and product keeps its id, name and owner. */
  predicate Grows(db: Db, db': Db) {
    && (forall q :: q in db.categories ==>
          q in db'.categories && db'.categories[q].name == db.categories[q].name
          && db'.categories[q].createdBy == db.categories[q].createdBy)
    && (forall q :: q in db.products ==>
          q in db'.products && db'.products[q].name == db.products[q].name
          && db'.products[q].createdBy == db.products[q].createdBy)
  }

  /** A row that a second pass finds nothing to do for. */
  predicate Imported(db: Db, owner: Id, row: CsvRow) {
    Skipped(row) || (Mongo.CategoryExists(db.categories, CategoryName(row), owner) && Mongo.ProductNamed(db, ProductName(row), owner))
  }

  lemma ImportedStays(db: Db, db': Db, owner: Id, row: CsvRow)
    requires Grows(db, db') && Imported(db, owner, row)
    ensures Imported(db', owner, row)
  {
    if !Skipped(row) {
      NamesStay(db, db', owner, CategoryName(row), ProductName(row));
    }
  }

  lemma NamesStay(db: Db, db': Db, owner: Id, category: string, product: string)
    requires Grows(db, db')
    requires Mongo.CategoryExists(db.categories, category, owner) && Mongo.ProductNamed(db, product, owner)
    ensures Mongo.CategoryExists(db'.categories, category, owner) && Mongo.ProductNamed(db', product, owner)
  {
    var c :| c in db.categories && db.categories[c].name == category && db.categories[c].createdBy == owner;
    var p :| p in db.products && db.products[p].name == product && db.products[p].createdBy == owner;
    assert c in db'.categories && db'.categories[c].name == category && db'.categories[c].createdBy == owner;
    assert p in db'.products && db'.products[p].name == product && db'.products[p].createdBy == owner;
  }

  lemma AddListingGrows(db: Db, cid: Id, p: Product, units: int)
    requires Valid(db) && cid in db.categories && p.inventory == None
    ensures var r := AddListing(db, cid, p, units);
      Grows(db, r.db) && (r.ok ==> Mongo.ProductNamed(r.db, p.name, p.createdBy))
  {
    Mongo.NextIdUnused(db);
    Stock.AddStockedWhen(db, p, units, 0);
    Stock.AddStockedDone(db, p, units, 0);
    Stock.AddStockedScope(db, p, units, 0);
    var w := Stock.AddStocked(db, p, units, 0);
    assert Grows(db, w.db);
    var r := AddListing(db, cid, p, units);
    if w.ok {
      assert r.db.products == w.db.products;
      assert r.db.products[db.nextId].name == p.name;
    }
  }

  /** A row never loses a name, and a row that went through is imported. */
  lemma ImportRowImports(db: Db, owner: Id, row: CsvRow)
    requires Valid(db) && CategoryNamesUnique(db.categories)
    ensures var r := ImportRow(db, owner, row);
      Grows(db, r.db) && (r.ok ==> Imported(r.db, owner, row))
  {
    if !Skipped(row) {
      Mongo.NextIdUnused(db);
      var fc := CategoryFor(db, owner, CategoryName(row), Trim(row.categoryDescription.GetOr("")));
      CategoryForKeeps(db, owner, CategoryName(row), Trim(row.categoryDescription.GetOr("")));
      assert Grows(db, fc.db);
      if fc.ok && !Mongo.ProductNamed(fc.db, ProductName(row), owner) {
        ImportRowCreates(db, owner, row);
        CategoryForKeepsValid(db, owner, CategoryName(row), Trim(row.categoryDescription.GetOr("")));
        Mongo.NextIdUnused(fc.db);
        var p := Listing(row, owner, fc.id);
        var r := AddListing(fc.db, fc.id, p, row.units.value);
        AddListingGrows(fc.db, fc.id, p, row.units.value);
        GrowsTransitive(db, fc.db, r.db);
        if r.ok {
          assert fc.id in r.db.categories && r.db.categories[fc.id].name == CategoryName(row)
            && r.db.categories[fc.id].createdBy == owner;
        }
      }
    }
  }

  lemma GrowsTransitive(a: Db, b: Db, c: Db)
    requires Grows(a, b) && Grows(b, c)
    ensures Grows(a, c)
  {
  }

  lemma {:induction false} ImportAllGrows(db: Db, owner: Id, rows: seq<CsvRow>)
    requires Valid(db) && CategoryNamesUnique(db.categories)
    ensures Grows(db, ImportAll(db, owner, rows).db)
    decreases |rows|
  {
    if rows != [] {
      ImportRowKeepsValid(db, owner, rows[0]);
      ImportRowKeepsNamesUnique(db, owner, rows[0]);
      ImportRowImports(db, owner, rows[0]);
      var w := ImportRow(db, owner, rows[0]);
      if w.ok {
        ImportAllGrows(w.db, owner, rows[1..]);
        GrowsTransitive(db, w.db, ImportAll(w.db, owner, rows[1..]).db);
      }
    }
  }

  /** After an import that went through, every row of it is imported. */
  lemma {:induction false} ImportAllImports(db: Db, owner: Id, rows: seq<CsvRow>)
    requires Valid(db) && CategoryNamesUnique(db.categories)
    ensures var r := ImportAll(db, owner, rows);
      r.ok ==> forall j :: 0 <= j < |rows| ==> Imported(r.db, owner, rows[j])
    decreases |rows|
  {
    if rows != [] {
      ImportRowImports(db, owner, rows[0]);
      var w := ImportRow(db, owner, rows[0]);
      if w.ok {
        ImportRowKeepsValid(db, owner, rows[0]);
        ImportRowKeepsNamesUnique(db, owner, rows[0]);
        var r := ImportAll(w.db, owner, rows[1..]);
        assert ImportAll(db, owner, rows) == r;
        ImportAllImports(w.db, owner, rows[1..]);
        ImportAllGrows(w.db, owner, rows[1..]);
        ImportedStays(w.db, r.db, owner, rows[0]);
        if r.ok {
          ImportedEach(r.db, owner, rows);
        }
      }
    }
  }

  lemma ImportedEach(db: Db, owner: Id, rows: seq<CsvRow>)
    requires rows != [] && Imported(db, owner, rows[0])
    requires forall j :: 0 <= j < |rows[1..]| ==> Imported(db, owner, rows[1..][j])
    ensures forall j :: 0 <= j < |rows| ==> Imported(db, owner, rows[j])
  {
    AllFromHead(rows, row => Imported(db, owner, row));
  }

  /** A property of the first element and of every later one holds of every element. */
  lemma AllFromHead<T>(xs: seq<T>, good: T -> bool)
    requires xs != [] && good(xs[0])
    requires forall j :: 0 <= j < |xs[1..]| ==> good(xs[1..][j])
    ensures forall j :: 0 <= j < |xs| ==> good(xs[j])
  {
    forall j | 0 < j < |xs| ensures good(xs[j]) {
      assert xs[j] == xs[1..][j - 1];
    }
  }

  /** A row already imported is a no-op. */
  lemma ImportedNoop(db: Db, owner: Id, row: CsvRow)
    requires CategoryNamesUnique(db.categories) && Imported(db, owner, row)
    ensures ImportRow(db, owner, row) == Mongo.Saved(true, db)
  {
  }

  /** Rows all imported already change nothing. */
  lemma {:induction false} AllImportedNoop(db: Db, owner: Id, rows: seq<CsvRow>)
    requires CategoryNamesUnique(db.categories)
    requires forall j :: 0 <= j < |rows| ==> Imported(db, owner, rows[j])
    ensures ImportAll(db, owner, rows) == Mongo.Saved(true, db)
    decreases |rows|
  {
    if rows != [] {
      ImportedNoop(db, owner, rows[0]);
      forall j | 0 <= j < |rows[1..]| ensures Imported(db, owner, rows[1..][j]) {
        assert rows[1..][j] == rows[j + 1];
      }
      AllImportedNoop(db, owner, rows[1..]);
    }
  }

  /**
   * Importing the same rows again after an import that went through creates
   * no category and no product and changes nothing at all.
   */
  lemma ImportTwice(db: Db, owner: Id, rows: seq<CsvRow>)
    requires Valid(db) && CategoryNamesUnique(db.categories)
    ensures var w := ImportAll(db, owner, rows);
      w.ok ==> ImportAll(w.db, owner, rows) == Mongo.Saved(true, w.db)
  {
    var w := ImportAll(db, owner, rows);
    if w.ok {
      ImportAllImports(db, owner, rows);
      AllImportedNoop(w.db, owner, rows);
    }
  }

  /**
   * The upload answers 400 without a file and 401 without a caller id,
   * writing nothing; otherwise 200 or 500, and uploading the same file a
   * second time after a 200 answers 200 and changes nothing.
   */
  lemma UploadCsvOutcome(db: Db, file: Option<seq<CsvRow>>, userId: Option<Id>)
    requires Valid(db) && CategoryNamesUnique(db.categories)
    ensures var out := UploadCsvSpec(db, file, userId);
      && (file.None? ==> out == Outcome(400, "CSV file is required", None, db))
      && (file.Some? && userId.None? ==> out == Outcome(401, "Unauthorized: userId missing", None, db))
      && (file.Some? && userId.Some? ==> out.status in {200, 500})
      && Valid(out.db)
      && (out.status == 200 ==> UploadCsvSpec(out.db, file, userId) == out)
  {
    if file.Some? && userId.Some? {
      ImportAllKeepsValid(db, userId.value, file.value);
      ImportTwice(db, userId.value, file.value);
    }
  }
}
