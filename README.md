# Admin-Panel catalogue backend, in Dafny

This project models the catalogue backend of Admin-Panel, an Express and
Mongoose server, together with the route guard of its Next.js front end.
The backend keeps four collections: users, categories, products and
inventory rows. It keeps two kinds of cross-reference in step:

- products and categories list each other (many-to-many);
- a product and its inventory row point at each other (one-to-one).

The model has these parts:

- **The database.** `Models.Db` holds one map per collection and an id
  counter. ObjectIds are globally unique, so every insert takes the next id.
- **The schemas.** `Models` states the schema rules and unique indexes that
  every `save()` checks. `Models.Valid` says a database satisfies all of them.
- **The Mongoose calls.** `Mongo` gives each call as a function from the
  database before to the database after. A write the store refuses reports
  `ok == false` and leaves the database as it was.
- **The store.** `Database.Store` is a class with one field per collection.
  Its methods perform those calls in place, and each is specified by its
  `Mongo` function.
- **The controllers.** Every controller action is a method on the store
  that follows the handler step by step. Each method is proved equal to a
  function of the database before the request (`CreateProductSpec`,
  `UploadCsvSpec`, and so on). The lemmas state what those functions
  guarantee: the order of the error checks, what changes and what stays
  the same, how links are kept, validity, and for the CSV upload, file
  order and idempotence.
- **Access.** `Access` models the `authenticate` and `authorize`
  middlewares and the role list of each route.
- **The front-end guard.** `FrontendMiddleware` models the Next.js
  middleware.

A few behaviours of the source are stated as lemmas because they are easy to
miss:

- `deleteProduct` and `deleteCategory` delete before they check the owner,
  so a 403 still removes the document.
- A `createProduct` whose counts the Inventory schema rejects leaves a
  product without an inventory. The unique index on `Product.inventory`
  treats a missing reference as null, so every later `createProduct` fails
  with 500 (`OrphanBlocksLaterCreates`).
- The front-end `matcher` lists exact paths, so pages below `/dashboard` are
  never guarded (`SubpageUnguarded`).

The high-availability filter of `getProducts` keeps rows with at least 100
available. This follows the `$gte: 100` in the code; the comment beside it
says "> 100".

## Model

| member | source | states |
|---|---|---|
| Text.Trim | Backend/src/models/Product.ts:15 | The result has no leading or trailing white space, is no longer than the input, and is empty exactly when the input is all white space (Mongoose `trim`). |
| Text.TrimIsInfix | Backend/src/models/Product.ts:15 | What `trim` returns is taken from the input: the infix between a blank prefix and a blank suffix. |
| Text.TrimmedUnchanged | Backend/src/models/Category.ts:12 | Trimming an already trimmed string leaves it unchanged. |
| Text.TrimIdempotent | Backend/src/routes/uploadRoutes.ts:56-57 | Trimming twice is the same as trimming once, so a name trimmed by the handler and again by the schema is stored as trimmed once. |
| Text.RemoveFirst | Backend/src/middlewares/auth.ts:14 | `replace` with a string pattern: with no occurrence the string is unchanged; with one at the front that prefix is dropped; otherwise the first occurrence, wherever it starts, is cut out and the rest is kept. |
| Models.SetCounts | Backend/src/controllers/inventoryController.ts:48-49 | A count that is given replaces the stored one and a missing count keeps it; `productId` is unchanged. |
| Models.EmptyValid | Backend/src/models/Product.ts:13-24 | The empty database satisfies every schema and unique index. |
| Models.OneInventoryPerProduct | Backend/src/models/Inventory.ts:11 | In a valid database two inventory rows with the same `productId` are the same row. |
| Models.InventoryReferencedOnce | Backend/src/models/Product.ts:20 | In a valid database two products with the same `inventory` reference are the same product. |
| Models.CategoryNameIdentifies | Backend/src/models/Category.ts:12 | In a valid database a category name identifies its category across all owners. |
| Models.ValidIndexes | Backend/src/models/Category.ts:12-20 | A valid database has unique `Inventory.productId`, unique category names (hence unique `(name, createdBy)`) and unique e-mails. |
| Links.AddToSet | Backend/src/controllers/productController.ts:45 | `$addToSet`: the id ends up in the list, is appended only when absent and never gains a second copy; every other entry keeps its count. |
| Links.Pull | Backend/src/controllers/productController.ts:209 | `$pull`: every occurrence of the id is removed and every other entry keeps its count (the multiset minus that id). |
| Links.PullAppend | Backend/src/controllers/productController.ts:209 | `$pull` keeps the order of the remaining entries: pulling from a concatenation is pulling from each part. |
| Links.AddProductToCategories | Backend/src/controllers/productController.ts:43-46 | `updateMany` with `$in`/`$addToSet`: each selected category that lacked the product holds it once, one that had it keeps its count; other categories and all names and owners are unchanged. |
| Links.PullProductFromCategories | Backend/src/controllers/productController.ts:171-174 | `updateMany` with `$nin`/`$pull`: no category outside the kept set lists the product afterwards, other entries keep their counts, and kept categories are unchanged. |
| Links.AddCategoryToProducts | Backend/src/controllers/categoryController.ts:24-27 | Each selected product that lacked the category holds it once, one that had it keeps its count; only `categories` changes, and only on selected products. |
| Links.PullCategoryFromProducts | Backend/src/controllers/categoryController.ts:86 | No product lists the category afterwards, every other entry keeps its count, and only `categories` changes. |
| Links.RelinkExact | Backend/src/controllers/productController.ts:169-180 | Pulling the product from categories outside `ids` and then adding it to those in `ids` leaves it in exactly the categories in `ids`. |
| Mongo.InventoryOf | Backend/src/controllers/productController.ts:183 | `Inventory.findOne({productId})` returns a row of that product, and None exactly when no row has it. |
| Mongo.CategoryNamed | Backend/src/routes/uploadRoutes.ts:67 | `Category.findOne({name, createdBy})` returns a matching category, and None exactly when none exists. |
| Mongo.UserWithEmail | Backend/src/controllers/authController.ts:32 | `User.findOne({email})` returns a user with that e-mail, and None exactly when no user has it. |
| Mongo.NextIdUnused | Backend/src/models/Product.ts:20 | In a valid database the next id is in no collection and no product or inventory row refers to it. |
| Mongo.InsertUserKeepsValid | Backend/src/controllers/authController.ts:19-20 | Inserting a user with a free e-mail and username keeps the database valid. |
| Mongo.ProductWriteKeepsValid | Backend/src/models/Product.ts:13-24 | A product write that passes the schema and the `inventory` index keeps the database valid. |
| Mongo.InsertProductKeepsValid | Backend/src/controllers/productController.ts:19-27 | Inserting a product without an inventory keeps the database valid, whether the store accepts it or not. |
| Mongo.SaveProductKeepsValid | Backend/src/controllers/productController.ts:38-39 | Re-saving an existing product keeps the database valid when its inventory reference is an allocated id. |
| Mongo.DeleteProductKeepsValid | Backend/src/controllers/productController.ts:201 | Deleting a product keeps the database valid; dangling references are allowed. |
| Mongo.CategoryWriteKeepsValid | Backend/src/models/Category.ts:10-20 | A category write that passes the schema and the name index keeps the database valid. |
| Mongo.InsertCategoryKeepsValid | Backend/src/controllers/categoryController.ts:20-21 | Inserting a category keeps the database valid. |
| Mongo.SaveCategoryKeepsValid | Backend/src/controllers/categoryController.ts:66 | Re-saving an existing category keeps the database valid. |
| Mongo.DeleteCategoryKeepsValid | Backend/src/controllers/categoryController.ts:79 | Deleting a category keeps the database valid. |
| Mongo.InventoryWriteKeepsValid | Backend/src/models/Inventory.ts:9-16 | An inventory write that passes the schema and the `productId` index keeps the database valid. |
| Mongo.InsertInventoryKeepsValid | Backend/src/controllers/productController.ts:30-35 | Inserting a row for an allocated product id keeps the database valid. |
| Mongo.SaveInventoryKeepsValid | Backend/src/controllers/inventoryController.ts:51 | Re-saving a row with its own `productId` keeps the database valid. |
| Mongo.DeleteInventoryKeepsValid | Backend/src/controllers/productController.ts:213 | Deleting a row keeps the database valid. |
| Mongo.CategoryLinksKeepValid | Backend/src/controllers/productController.ts:171-179 | Changing only the `products` lists of categories keeps the database valid. |
| Mongo.ProductLinksKeepValid | Backend/src/controllers/categoryController.ts:24-27 | Changing only the `categories` lists of products keeps the database valid. |
| Mongo.UpdateManyKeepsValid | Backend/src/controllers/categoryController.ts:86 | Each of the four `updateMany` calls keeps the database valid. |
| Database.Store.constructor | Backend/src/models/Product.ts:13-24 | A new store is empty and valid; every controller method requires and keeps `Valid`. |
| Database.Store.InsertUser | Backend/src/controllers/authController.ts:19-20 | The store's new state is `Mongo.InsertUser` of the old one, and the new user's id is the old counter. |
| Database.Store.InsertProduct | Backend/src/controllers/productController.ts:19-27 | The store's new state and `ok` are those of `Mongo.InsertProduct` on the old state. |
| Database.Store.SaveProduct | Backend/src/controllers/productController.ts:38-39 | The store's new state and `ok` are those of `Mongo.SaveProduct` on the old state. |
| Database.Store.DeleteProduct | Backend/src/controllers/productController.ts:201 | The store's new state is the old one without that product. |
| Database.Store.InsertCategory | Backend/src/controllers/categoryController.ts:20-21 | The store's new state and `ok` are those of `Mongo.InsertCategory` on the old state. |
| Database.Store.SaveCategory | Backend/src/controllers/categoryController.ts:66 | The store's new state and `ok` are those of `Mongo.SaveCategory` on the old state. |
| Database.Store.DeleteCategory | Backend/src/controllers/categoryController.ts:79 | The store's new state is the old one without that category. |
| Database.Store.InsertInventory | Backend/src/controllers/productController.ts:30-35 | The store's new state and `ok` are those of `Mongo.InsertInventory` on the old state. |
| Database.Store.SaveInventory | Backend/src/controllers/inventoryController.ts:51 | The store's new state and `ok` are those of `Mongo.SaveInventory` on the old state. |
| Database.Store.DeleteInventory | Backend/src/controllers/productController.ts:213 | The store's new state is the old one without that row. |
| Database.Store.AddProductToCategories | Backend/src/controllers/productController.ts:43-46 | The store's new state is `Mongo.AddProductToCategories` of the old one. |
| Database.Store.PullProductFromCategories | Backend/src/controllers/productController.ts:207-210 | The store's new state is `Mongo.PullProductFromCategories` of the old one. |
| Database.Store.AddCategoryToProducts | Backend/src/controllers/categoryController.ts:24-27 | The store's new state is `Mongo.AddCategoryToProducts` of the old one. |
| Database.Store.PullCategoryFromProducts | Backend/src/controllers/categoryController.ts:86 | The store's new state is `Mongo.PullCategoryFromProducts` of the old one. |
| Access.Authorize | Backend/src/middlewares/auth.ts:28-40 | 401 without a user; 403 for a role outside the list; `next()` exactly when there is a user whose role is in the list. |
| Access.AccessTable | Backend/src/routes/productRoutes.ts:18-25 | A master reaches every route. An admin reaches only the three GET listings of products, categories and inventory rows; every other route, including the `/csv` upload at uploadRoutes.ts:42, is master-only. |
| Access.Authenticate | Backend/src/middlewares/auth.ts:13-26 | 401 "No token" when the header is missing or empty after removing the first `Bearer `; success exactly when the token verifies to a registered user id, with that user as the caller; every refusal is 401. |
| Access.BearerTokenExtracted | Backend/src/middlewares/auth.ts:14 | `Bearer <token>` yields `<token>`. |
| Access.BareSchemeRefused | Backend/src/middlewares/auth.ts:14-15 | A header value of exactly `Bearer ` leaves an empty token and is refused with 401 "No token". Node's HTTP parser strips trailing white space, so over the wire it arrives as `Bearer` and fails verification instead. |
| ProductController.NewProduct | Backend/src/controllers/productController.ts:19-26 | The document is built exactly when `name`, `price` and `stock` are present; it is owned by the caller, has no inventory, the trimmed name, and `categories = categoryIds` (or empty). |
| ProductController.ListInCategoriesScope | Backend/src/controllers/productController.ts:42-47 | Step 4 changes only categories, and exactly as `$addToSet` over `categoryIds`; an absent or empty list changes nothing. |
| ProductController.CreateProduct | Backend/src/controllers/productController.ts:14-55 | The method's response and new store state equal `CreateProductSpec` on the old state, and a valid store stays valid: the three saves in order, then the category update. |
| ProductController.CreateProductKeepsValid | Backend/src/controllers/productController.ts:14-55 | createProduct keeps the database valid whichever step it stops at. |
| ProductController.CreateProductStatus | Backend/src/controllers/productController.ts:27-53 | The answer is 201 or 500. It is 201 exactly when the product passes its schema, every stored product already has an inventory, and the counts (default 0) are not negative; a 201 reports the new id. |
| ProductController.CreateProductRefused | Backend/src/controllers/productController.ts:27-53 | A product missing required fields, failing its schema, or meeting a stored product without an inventory gets 500 and nothing is written. |
| ProductController.CreateProductLeavesOrphan | Backend/src/controllers/productController.ts:27-53 | Counts the Inventory schema rejects give 500, but the product from the first save stays, without an inventory. |
| ProductController.OrphanBlocksLaterCreates | Backend/src/models/Product.ts:20 | After such an orphan, every later createProduct, by anyone, gets 500 and writes nothing. |
| ProductController.CreateProductLinks | Backend/src/controllers/productController.ts:19-39 | A 201 adds one product, owned by the caller with `categories = categoryIds`, pointing at one new row with the given counts; that row points back and is the product's only row; users are unchanged. |
| ProductController.CreateProductCategories | Backend/src/controllers/productController.ts:42-47 | A 201 adds the new id at most once to each category listed in `categoryIds` and changes no other category. |
| ProductController.GetProducts | Backend/src/controllers/productController.ts:57-144 | Each result is a product whose inventory resolves, with its row and listed categories. A master gets only its own products. `highAvailableOnly == "true"` gives exactly the products in scope with at least 100 available, ignoring the other parameters. Otherwise it gives exactly the products in scope listing every requested category, with at least `minAvailable` available when that is a number; a `minAvailable` that is not a number gives no products, since `$gte: NaN` matches no count. |
| ProductController.RelinkCategories | Backend/src/controllers/productController.ts:169-180 | After the two `updateMany` calls, exactly the categories in `ids` list the product and every other entry keeps its count. |
| ProductController.UpdateProduct | Backend/src/controllers/productController.ts:147-195 | The method's response and new store state equal `UpdateProductSpec` on the old state, and a valid store stays valid. |
| ProductController.UpdateProductRefused | Backend/src/controllers/productController.ts:153-166 | 404 exactly for an unknown id and 403 exactly for another owner's product, neither writing; a patch that fails the schema gives 500 with no write. |
| ProductController.UpdateProductFields | Backend/src/controllers/productController.ts:160-166 | After a 200 only that product changed: `name`/`description` only when truthy (name trimmed), `price`/`stock` only when present, `categories` only when `categoryIds` is present; owner and inventory reference never. |
| ProductController.UpdateProductCategories | Backend/src/controllers/productController.ts:168-180 | After a 200 with `categoryIds` present (even empty), a category lists the product exactly when `categoryIds` names it; other entries keep their counts; without `categoryIds` no category changes. |
| ProductController.UpdateProductInventory | Backend/src/controllers/productController.ts:182-190 | When the product has a row, it takes the counts given (each only when present), and the request succeeds exactly when they are not negative. When the product has no row, the request gets 200 and no row changes. |
| ProductController.RelinkKeepsValid | Backend/src/controllers/productController.ts:169-180 | The category relinking keeps the database valid. |
| ProductController.UpdateCountsKeepsValid | Backend/src/controllers/productController.ts:182-188 | The inventory update keeps the database valid. |
| ProductController.UpdateProductKeepsValid | Backend/src/controllers/productController.ts:147-195 | updateProduct keeps the database valid. |
| ProductController.DeleteProduct | Backend/src/controllers/productController.ts:197-220 | The method's response and new store state equal `DeleteProductSpec` on the old state, and a valid store stays valid. |
| ProductController.DeleteProductRefused | Backend/src/controllers/productController.ts:201-205 | 404 with no write exactly for an unknown id. 403 exactly for another owner's product, which is deleted anyway while categories and inventory rows stay. |
| ProductController.DeleteProductCascade | Backend/src/controllers/productController.ts:206-215 | A 200 removes the product, removes its id from every category (other entries keep their counts) and deletes its row; every other row and product stays. |
| ProductController.DeleteProductKeepsValid | Backend/src/controllers/productController.ts:197-220 | deleteProduct keeps the database valid. |
| CategoryController.CreateCategory | Backend/src/controllers/categoryController.ts:12-35 | The method's response and new store state equal `CreateCategorySpec` on the old state, and a valid store stays valid. |
| CategoryController.CreateCategoryStatus | Backend/src/controllers/categoryController.ts:17-21 | 400 exactly when the caller already has a category of the trimmed name. 201 exactly when that name is non-empty and no category of any owner holds it. Otherwise 500. Only a 201 writes. |
| CategoryController.CreateCategoryLinks | Backend/src/controllers/categoryController.ts:20-28 | A 201 adds one category owned by the caller, with the trimmed name and `products = productIds` (or empty), and adds its id at most once to each listed product; users and inventory rows are unchanged. |
| CategoryController.SaveAndLinkEffect | Backend/src/controllers/categoryController.ts:20-28 | After the save succeeds, the new category sits under the next id and the listed products gain its id. |
| CategoryController.CreateCategoryKeepsValid | Backend/src/controllers/categoryController.ts:12-35 | createCategory keeps the database valid. |
| CategoryController.GetCategories | Backend/src/controllers/categoryController.ts:37-48 | A master gets exactly its own categories; an admin gets all of them, unchanged. |
| CategoryController.UpdateCategory | Backend/src/controllers/categoryController.ts:50-73 | The method's response and new store state equal `UpdateCategorySpec` on the old state, and a valid store stays valid. |
| CategoryController.UpdateCategoryEffect | Backend/src/controllers/categoryController.ts:56-66 | 404, then 403, before any write. A 200 changes only that category's `name` (trimmed) and `description`, each only when truthy, never `products` or the owner. The owner's request succeeds exactly when the renamed category passes the schema and the name index. |
| CategoryController.UpdateCategoryKeepsValid | Backend/src/controllers/categoryController.ts:50-73 | updateCategory keeps the database valid. |
| CategoryController.DeleteCategory | Backend/src/controllers/categoryController.ts:75-93 | The method's response and new store state equal `DeleteCategorySpec` on the old state, and a valid store stays valid. |
| CategoryController.DeleteCategoryEffect | Backend/src/controllers/categoryController.ts:79-88 | 404 with no write exactly for an unknown id. A 403 leaves the category deleted and every product untouched. A 200 removes the id from the `categories` list of every product, whoever owns it; other entries keep their counts. |
| CategoryController.DeleteCategoryKeepsValid | Backend/src/controllers/categoryController.ts:75-93 | deleteCategory keeps the database valid. |
| InventoryController.GetInventories | Backend/src/controllers/inventoryController.ts:13-24 | An admin gets every row. A master gets every row or none, depending on whether Mongoose drops the unknown `createdBy` path (`strictQuery`). |
| InventoryController.UpdateInventory | Backend/src/controllers/inventoryController.ts:26-57 | The method's response and new store state equal `UpdateInventorySpec` on the old state, and a valid store stays valid. |
| InventoryController.UpdateInventoryRefused | Backend/src/controllers/inventoryController.ts:32-46 | 404 exactly for an unknown row; 403 exactly when the row's product belongs to someone else; any answer other than 200 writes nothing. |
| InventoryController.UpdateInventoryCounts | Backend/src/controllers/inventoryController.ts:48-52 | For the product's owner the update succeeds exactly when the resulting counts are not negative, and a 200 changes only that row's given counts. |
| InventoryController.UpdateInventoryKeepsValid | Backend/src/controllers/inventoryController.ts:26-57 | updateInventory keeps the database valid. |
| InventoryController.CreateInventory | Backend/src/controllers/inventoryController.ts:59-93 | The method's response and new store state equal `CreateInventorySpec` on the old state, and a valid store stays valid. |
| InventoryController.CreateInventoryChecks | Backend/src/controllers/inventoryController.ts:64-79 | In order, with no write: 400 for a missing field, 404 for an unknown product, 403 for another owner's product, 400 when the product already has a row. |
| InventoryController.CreateInventoryLinks | Backend/src/controllers/inventoryController.ts:81-88 | Once the checks pass, 201 exactly when both counts are not negative. A 201 inserts one row with the given values, which is then the product's only row, and points the product at it; nothing else changes. |
| InventoryController.CreateInventoryKeepsValid | Backend/src/controllers/inventoryController.ts:59-93 | createInventory keeps the database valid. |
| InventoryController.SaveAndPointKeepsValid | Backend/src/controllers/inventoryController.ts:81-86 | Saving the row and repointing the product keeps the database valid. |
| Stock.SaveStocked | Backend/src/controllers/productController.ts:19-39 | The three saves on the store, stopping at the first refused one; the result and the new store state equal `AddStocked` on the old state. |
| Stock.AddStockedDone | Backend/src/controllers/productController.ts:27-39 | When all three saves succeed, the product sits under the next id, pointing at its row under the id after, which holds the counts and points back; nothing else changes. |
| Stock.AddStockedBackLink | Backend/src/controllers/productController.ts:30-35 | After the three saves the new row is the only one pointing at the new product. |
| Stock.AddStockedScope | Backend/src/controllers/productController.ts:27-39 | The three saves change no user and no category. |
| Stock.AddStockedWhen | Backend/src/routes/uploadRoutes.ts:90-103 | On a valid database the saves succeed exactly when the product passes its schema, every stored product has an inventory and the counts are not negative. A product refused at once writes nothing; counts refused later leave the product without an inventory. |
| Stock.AddStockedKeepsValid | Backend/src/routes/uploadRoutes.ts:90-103 | The three saves keep the database valid, whichever step stops them. |
| AuthController.Register | Backend/src/controllers/authController.ts:8-26 | The method's response and new store state equal `RegisterSpec` on the old state, and a valid store stays valid. |
| AuthController.RegisterEffect | Backend/src/controllers/authController.ts:12-21 | A taken e-mail gets "Email already registered" even when the username is taken too; otherwise a taken username gets "Username already taken"; neither adds a user. Otherwise exactly one user with the given fields is added under a new id, with 201. |
| AuthController.RegisterKeepsValid | Backend/src/controllers/authController.ts:8-26 | register keeps the database valid and e-mails unique. |
| AuthController.Login | Backend/src/controllers/authController.ts:28-50 | Success exactly when a user with that e-mail accepts the password, returning that user's role and username; every refusal is 400 "Invalid credentials". |
| AuthController.LoginSameRefusal | Backend/src/controllers/authController.ts:32-35 | An unknown e-mail and a wrong password get the same answer. |
| AuthController.Logout | Backend/src/controllers/authController.ts:52-61 | logout always answers 200 "Logged out successfully". |
| CsvImport.CategoryFor | Backend/src/routes/uploadRoutes.ts:66-76 | The caller's category of that name is reused with no write. Otherwise a new one, with the description and no products, goes under the next id, or the database is left unchanged when the name index refuses it. On success the id names a category of that name owned by the caller. |
| CsvImport.ImportAll | Backend/src/routes/uploadRoutes.ts:55-109 | The loop keeps category names unique. |
| CsvImport.UploadCsv | Backend/src/routes/uploadRoutes.ts:44-118 | The handler's response and new store state equal `UploadCsvSpec` on the old state, and a valid store stays valid; the loop invariant ties each step to the rows still to come. |
| CsvImport.ReconcileRow | Backend/src/routes/uploadRoutes.ts:56-108 | One pass of the loop body on the store has exactly the effect and outcome of `ImportRow`. |
| CsvImport.FindOrCreateCategory | Backend/src/routes/uploadRoutes.ts:67-76 | The find-or-create on the store has exactly the effect of `CategoryFor`. |
| CsvImport.AddListingTo | Backend/src/routes/uploadRoutes.ts:82-107 | Creating the product, its row and the category link on the store has exactly the effect of `AddListing`. |
| CsvImport.CategoryForKeepsValid | Backend/src/routes/uploadRoutes.ts:67-76 | Finding or creating the category keeps the database valid. |
| CsvImport.CategoryForKeeps | Backend/src/routes/uploadRoutes.ts:67-76 | Finding or creating the category touches no user, product, row or existing category. |
| CsvImport.AddListingKeepsValid | Backend/src/routes/uploadRoutes.ts:82-107 | Creating a row's product keeps the database valid. |
| CsvImport.ImportRowKeepsValid | Backend/src/routes/uploadRoutes.ts:56-108 | One row keeps the database valid. |
| CsvImport.AddListingKeepsNamesUnique | Backend/src/routes/uploadRoutes.ts:106-107 | Appending to the category keeps category names unique. |
| CsvImport.ImportRowKeepsNamesUnique | Backend/src/routes/uploadRoutes.ts:56-108 | One row keeps category names unique. |
| CsvImport.ImportAllKeepsValid | Backend/src/routes/uploadRoutes.ts:55-109 | The whole loop keeps the database valid, including when it stops early. |
| CsvImport.ImportRowExisting | Backend/src/routes/uploadRoutes.ts:61-80 | A skipped row writes nothing. A row whose product the caller already has changes no product, no row and no existing category, even when its price differs. |
| CsvImport.ImportRowKnown | Backend/src/routes/uploadRoutes.ts:79-108 | A row with an existing product stops once its category is resolved. |
| CsvImport.ImportRowCreates | Backend/src/routes/uploadRoutes.ts:67-107 | For a new product name the category step touches no product or row. If it fails, nothing is written; otherwise the row goes on to create the product in that category. |
| CsvImport.ListingSchema | Backend/src/routes/uploadRoutes.ts:82-89 | The new product has the trimmed name, the caller as owner, `categories = [that category]` and no inventory. It passes the schema exactly when price and units are not negative. |
| CsvImport.AddListingDone | Backend/src/routes/uploadRoutes.ts:90-107 | On success the product gets `inventory` pointing at a row with `available = units`, `sold = 0` and `productId` pointing back, and its id is appended last to the category's `products`. |
| CsvImport.AddListingEffect | Backend/src/routes/uploadRoutes.ts:90-107 | On a valid database the creation succeeds exactly when the product passes its schema, units are not negative, and every stored product has an inventory; the ids it takes were free. |
| CsvImport.ImportAllAppend | Backend/src/routes/uploadRoutes.ts:55 | Rows run in file order: importing `a + b` imports `a`, then `b` unless `a` stopped. |
| CsvImport.ImportedStays | Backend/src/routes/uploadRoutes.ts:67-80 | A row already imported stays imported while names and owners are kept. |
| CsvImport.AddListingGrows | Backend/src/routes/uploadRoutes.ts:82-107 | Creating a product keeps every name and owner, and on success the caller has a product of that name. |
| CsvImport.ImportRowImports | Backend/src/routes/uploadRoutes.ts:56-108 | A row keeps every name and owner, and after a row that went through, its category and product both exist for the caller. |
| CsvImport.ImportAllGrows | Backend/src/routes/uploadRoutes.ts:55-109 | The loop keeps every category and product with its name and owner. |
| CsvImport.ImportAllImports | Backend/src/routes/uploadRoutes.ts:55-109 | After a loop that went through, every row of the file is imported. |
| CsvImport.ImportedNoop | Backend/src/routes/uploadRoutes.ts:67-80 | A row already imported writes nothing. |
| CsvImport.AllImportedNoop | Backend/src/routes/uploadRoutes.ts:55-109 | Rows that are all imported already change nothing. |
| CsvImport.ImportTwice | Backend/src/routes/uploadRoutes.ts:55-109 | Importing the same rows again after a successful import changes nothing, so it creates no category and no product. |
| CsvImport.UploadCsvOutcome | Backend/src/routes/uploadRoutes.ts:45-117 | 400 without a file and 401 without a caller id, neither writing; otherwise 200 or 500; the database stays valid; a second upload of the same file after a 200 answers 200 and changes nothing. |
| FrontendMiddleware.SomePrefix | Frontend/src/middleware.ts:9 | `some(startsWith)`: true exactly when some prefix in the list starts the path. |
| FrontendMiddleware.Middleware | Frontend/src/middleware.ts:5-16 | Redirect exactly for a protected path without a `token` cookie, always to `/login`; everything else passes through. |
| FrontendMiddleware.Handle | Frontend/src/middleware.ts:18-20 | With the matcher applied, a redirect happens exactly for `/dashboard`, `/add` or `/upload-csv` without a token. |
| FrontendMiddleware.ProtectedByPrefix | Frontend/src/middleware.ts:8-9 | A path is protected exactly when it starts with `/dashboard`, `/add` or `/upload-csv`. |
| FrontendMiddleware.AdditionProtected | Frontend/src/middleware.ts:9 | `/addition` counts as protected and redirects without a token. |
| FrontendMiddleware.SubpageUnguarded | Frontend/src/middleware.ts:18-20 | `/dashboard/stats` is protected by the prefix test, yet the middleware never runs for it. |

## Left out

- Owner checks: `productController.ts:156,203`, `categoryController.ts:59,82` and `inventoryController.ts:71` compare `createdBy.toString()` with `req.user._id`. The request type declares that id a string, but at run time it is the user document's ObjectId. The model compares the two ids, so it does not capture any effect of that comparison.
- Numbers are integers. In the CSV import, `parseFloat` and `parseInt` are modelled as an already parsed `Option<int>`, with None standing for NaN. `Number(minAvailable)` in `getProducts` is an already parsed `MinAvailable`: no filter for an absent or empty parameter, `AtLeast(n)` for a number, `NotANumber` for NaN. Fractional values and floating-point prices are not modelled.
- JSON `null` and `undefined` are both a missing field (`Option`). The source distinguishes them for `available`/`sold` (`!== undefined`, `== null`).
- JWT signing and verification are not modelled: verification is a function parameter of `Access.Authenticate`. Cookie options are also left out. `AuthController.Login` returns the role and username without the token.
- The User model (`Backend/src/models/User.ts`) is not part of this model. `comparePassword` is a parameter of `AuthController.Login`. The user `save()` in register is modelled as always succeeding, since the User schema and hashing hook are not available.
- AuthController.RegisterEffect: states no schema failure for the new user, because the User schema is not part of this model.
- express-validator chains on the auth routes are not modelled.
- Reading the CSV upload (multer, `fs` streams, csv-parser, `unlinkSync`) is not modelled. The handler receives the parsed rows, or None when no file was sent.
- `UploadCsv` takes `req.user?._id` as a separate parameter `userId`. The authenticated caller always has one, so the 401 branch is reachable only through that parameter.
- `populate` projections (`'products', 'name'`, `'productId', 'name price'`) and the order of query results are not modelled. Listings are maps keyed by id.
- ProductController.GetProducts: malformed ids in `categoryIds` are not modelled; `new Types.ObjectId` throws on them, giving 500. Ids are taken as already parsed.
- InventoryController.GetInventories: the master case depends on the Mongoose `strictQuery` setting, which is a parameter.
- Casting errors on malformed `:id` parameters are not modelled: ids are naturals.
- Concurrency is not modelled. Each request runs alone, and the multi-step writes are not atomic, which the model keeps by leaving earlier writes in place.
- Timestamps (`timestamps: true`) are not modelled.
- `Frontend/src/app/middleware.ts` is not part of this model; Next.js does not load it from there.
- The React pages and components, the server wiring and the configuration files are not modelled.
