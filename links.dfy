/**
 * The array operators the controllers apply through `updateMany`:
 * `$addToSet` and `$pull` on one array, and the same applied to every
 * document of a collection that the filter selects.
 */
module Links {
  import opened Models

  /** How many times `x` occurs in `xs`. */
  function Count(xs: seq<Id>, x: Id): nat {
    multiset(xs)[x]
  }

  /**
   * `$addToSet`: `x` ends up in the array, appended only when it was not
   * already there, so no entry gains a second copy.
   */
  function AddToSet(xs: seq<Id>, x: Id): (r: seq<Id>)
    ensures x in r
    ensures forall y :: y in r <==> y in xs || y == x
    ensures Count(r, x) == if x in xs then Count(xs, x) else 1
    ensures forall y :: y != x ==> Count(r, y) == Count(xs, y)
    ensures |xs| <= |r| <= |xs| + 1 && r[..|xs|] == xs
  {
    if x in xs then xs else xs + [x]
  }

  /** `$pull`: every occurrence of `x` is removed and nothing else. */
  function Pull(xs: seq<Id>, x: Id): (r: seq<Id>)
    ensures multiset(r) == multiset(xs)[x := 0]
    ensures x !in r
    ensures forall y :: y != x ==> Count(r, y) == Count(xs, y)
    ensures |r| == |xs| - Count(xs, x)
    ensures x !in xs ==> r == xs
  {
    if xs == [] then []
    else
      var rest := Pull(xs[1..], x);
      assert xs == [xs[0]] + xs[1..];
      assert multiset(xs) == multiset{xs[0]} + multiset(xs[1..]);
      if xs[0] == x then rest
      else
        assert multiset([xs[0]] + rest) == multiset{xs[0]} + multiset(rest);
        [xs[0]] + rest
  }

  /**
   * `$pull` keeps the order of what remains: pulling from a concatenation
   * is pulling from each part, so an entry before another stays before it.
   */
  lemma {:induction false} PullAppend(xs: seq<Id>, ys: seq<Id>, x: Id)
    ensures Pull(xs + ys, x) == Pull(xs, x) + Pull(ys, x)
    decreases |xs|
  {
    if xs != [] {
      assert (xs + ys)[0] == xs[0];
      assert (xs + ys)[1..] == xs[1..] + ys;
      PullAppend(xs[1..], ys, x);
      assert Pull(xs + ys, x) == (if xs[0] == x then [] else [xs[0]]) + Pull(xs[1..] + ys, x);
      assert Pull(xs, x) == (if xs[0] == x then [] else [xs[0]]) + Pull(xs[1..], x);
    } else {
      assert xs + ys == ys;
    }
  }

  /**
   * `Category.updateMany({_id: {$in: ids}}, {$addToSet: {products: pid}})`:
   * every listed category holds `pid` afterwards, once if it was absent and
   * with its count unchanged if it was there; every other category, and every other field, is unchanged.
   */
  function AddProductToCategories(cats: map<Id, Category>, ids: set<Id>, pid: Id): (r: map<Id, Category>)
    ensures r.Keys == cats.Keys
    ensures forall c :: c in r ==>
      r[c].name == cats[c].name && r[c].description == cats[c].description && r[c].createdBy == cats[c].createdBy
    ensures forall c :: c in r && c !in ids ==> r[c] == cats[c]
    ensures forall c :: c in r && c in ids ==>
      pid in r[c].products
      && Count(r[c].products, pid) == (if pid in cats[c].products then Count(cats[c].products, pid) else 1)
      && (forall y :: y != pid ==> Count(r[c].products, y) == Count(cats[c].products, y))
  {
    map c | c in cats :: if c in ids then cats[c].(products := AddToSet(cats[c].products, pid)) else cats[c]
  }

  /**
   * `Category.updateMany({products: pid, _id: {$nin: keep}}, {$pull: {products: pid}})`:
   * no category outside `keep` holds `pid` afterwards; the categories in
   * `keep`, and every other entry and field, are unchanged.
   */
  function PullProductFromCategories(cats: map<Id, Category>, keep: set<Id>, pid: Id): (r: map<Id, Category>)
    ensures r.Keys == cats.Keys
    ensures forall c :: c in r ==>
      r[c].name == cats[c].name && r[c].description == cats[c].description && r[c].createdBy == cats[c].createdBy
    ensures forall c :: c in r && c in keep ==> r[c] == cats[c]
    ensures forall c :: c in r && c !in keep ==>
      pid !in r[c].products && (forall y :: y != pid ==> Count(r[c].products, y) == Count(cats[c].products, y))
  {
    map c | c in cats :: if c !in keep && pid in cats[c].products then cats[c].(products := Pull(cats[c].products, pid)) else cats[c]
  }

  /** `Product.updateMany({_id: {$in: ids}}, {$addToSet: {categories: cid}})`, as above. */
  function AddCategoryToProducts(products: map<Id, Product>, ids: set<Id>, cid: Id): (r: map<Id, Product>)
    ensures r.Keys == products.Keys
    ensures forall p :: p in r ==> r[p] == products[p].(categories := r[p].categories)
    ensures forall p :: p in r && p !in ids ==> r[p] == products[p]
    ensures forall p :: p in r && p in ids ==>
      cid in r[p].categories
      && Count(r[p].categories, cid) == (if cid in products[p].categories then Count(products[p].categories, cid) else 1)
      && (forall y :: y != cid ==> Count(r[p].categories, y) == Count(products[p].categories, y))
  {
    map p | p in products :: if p in ids then products[p].(categories := AddToSet(products[p].categories, cid)) else products[p]
  }

  /** `Product.updateMany({categories: cid}, {$pull: {categories: cid}})`: no product keeps `cid`. */
  function PullCategoryFromProducts(products: map<Id, Product>, cid: Id): (r: map<Id, Product>)
    ensures r.Keys == products.Keys
    ensures forall p :: p in r ==> r[p] == products[p].(categories := r[p].categories)
    ensures forall p :: p in r ==>
      cid !in r[p].categories && (forall y :: y != cid ==> Count(r[p].categories, y) == Count(products[p].categories, y))
    ensures forall p :: p in r && cid !in products[p].categories ==> r[p] == products[p]
  {
    map p | p in products :: if cid in products[p].categories then products[p].(categories := Pull(products[p].categories, cid)) else products[p]
  }

  /**
   * Pulling `pid` from the categories outside `ids` and then adding it to
   * those in `ids` (what updateProduct does with `categoryIds`) leaves `pid`
   * in exactly the categories listed.
   */
  lemma RelinkExact(cats: map<Id, Category>, ids: set<Id>, pid: Id)
    ensures var r := AddProductToCategories(PullProductFromCategories(cats, ids, pid), ids, pid);
      forall c :: c in r ==> (pid in r[c].products <==> c in ids)
  {
  }
}
