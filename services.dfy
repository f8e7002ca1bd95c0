/**
 * The service layer: one-line delegations to the repository, and the sorted
 * listing, which fetches every product and sorts the fetched list in place.
 */
module Services {
  import opened Common
  import opened Model
  import opened Repository
  import opened Sorting

  method AddProduct(repo: ProductRepository, product: Product) returns (r: Result<Product>)
    requires repo.Valid()
    modifies repo
    ensures repo.Valid()
    ensures Saved(repo, product, r)
  {
    r := repo.SaveProduct(product);
  }

  function GetAllProducts(repo: ProductRepository): (r: seq<ProductData>)
    reads repo
    ensures r == repo.GetAllProducts()
  {
    repo.GetAllProducts()
  }

  function GetProductById(repo: ProductRepository, id: string): (r: Result<ProductData>)
    reads repo
    ensures r == repo.GetProductById(id)
  {
    repo.GetProductById(id)
  }

  function GetProductsByName(repo: ProductRepository, name: string): (r: seq<ProductData>)
    reads repo
    ensures r == repo.GetProductsByName(name)
  {
    repo.GetProductsByName(name)
  }

  function GetProductsByIdOrName(repo: ProductRepository, idOrName: string): (r: Result<seq<ProductData>>)
    reads repo
    ensures r == repo.GetProductsByIdOrName(idOrName)
  {
    repo.GetProductsByIdOrName(idOrName)
  }

  function GetProductsByCategory(repo: ProductRepository, category: string): (r: seq<ProductData>)
    reads repo
    ensures r == repo.GetProductsByCategory(category)
  {
    repo.GetProductsByCategory(category)
  }

  function GetProductsByNameAndCategory(repo: ProductRepository, name: string, category: string): (r: seq<ProductData>)
    reads repo
    ensures r == repo.GetProductsByNameAndCategory(name, category)
  {
    repo.GetProductsByNameAndCategory(name, category)
  }

  /**
   * What the sorted listing promises about the fetched products `all`: the
   * comparator throws exactly when the price key meets a null price in a list
   * of two or more (any sort of such a list compares every element, a shorter
   * list is returned before any comparison); otherwise the result is a sorted,
   * stable permutation of `all`.
   */
  ghost predicate IsSortedListing(all: seq<ProductData>, sortBy: string, r: Result<seq<ProductData>>) {
    var field := SortFieldOf(sortBy);
    && (r.Err? <==> |all| >= 2 && !AllKeyed(all, field))
    && (r.Err? ==> r.error == NullPointer)
    && (r.Ok? ==> multiset(r.value) == multiset(all) && Sorted(r.value, field) && Stable(all, r.value, field))
  }

  /** getSortedProducts: fetch every product, pick the comparator from the key, sort in place. */
  method GetSortedProducts(repo: ProductRepository, sortBy: string) returns (r: Result<seq<ProductData>>)
    ensures IsSortedListing(repo.GetAllProducts(), sortBy, r)
  {
    var products := repo.GetAllProducts();
    var field := SortFieldOf(sortBy);
    if !AllKeyed(products, field) {
      if |products| < 2 {
        return Ok(products);
      }
      return Err(NullPointer);
    }
    var a := new ProductData[|products|](i requires 0 <= i < |products| => products[i]);
    assert a[..] == products;
    SortInPlace(a, field);
    InsertionSortCorrect(products, field);
    r := Ok(a[..]);
  }
}
