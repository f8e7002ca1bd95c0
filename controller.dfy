/**
 * The HTTP endpoints, stripped of routing and serialisation: each one branches
 * on which optional request parameters are present and delegates to a service.
 */
module Controller {
  import opened Common
  import opened Model
  import opened Repository
  import Services

  /** POST /products/ */
  method AddProduct(repo: ProductRepository, product: Product) returns (r: Result<Product>)
    requires repo.Valid()
    modifies repo
    ensures repo.Valid()
    ensures Saved(repo, product, r)
  {
    r := Services.AddProduct(repo, product);
  }

  /** GET /products/ */
  function GetAllProducts(repo: ProductRepository): (r: seq<ProductData>)
    reads repo
    ensures r == Services.GetAllProducts(repo)
  {
    Services.GetAllProducts(repo)
  }

  /** GET /products/{idOrName} */
  function GetProductsByIdOrName(repo: ProductRepository, idOrName: string): (r: Result<seq<ProductData>>)
    reads repo
    ensures r == Services.GetProductsByIdOrName(repo, idOrName)
  {
    Services.GetProductsByIdOrName(repo, idOrName)
  }

  /** GET /products/search: the four-way choice on which of `name` and `category` is present. */
  function SearchProducts(repo: ProductRepository, name: Option<string>, category: Option<string>): (r: seq<ProductData>)
    reads repo
    ensures name.Some? && category.Some? ==> r == Services.GetProductsByNameAndCategory(repo, name.value, category.value)
    ensures name.Some? && category.None? ==> r == Services.GetProductsByName(repo, name.value)
    ensures name.None? && category.Some? ==> r == Services.GetProductsByCategory(repo, category.value)
    ensures name.None? && category.None? ==> r == Services.GetAllProducts(repo)
  {
    if name.Some? && category.Some? then Services.GetProductsByNameAndCategory(repo, name.value, category.value)
    else if name.Some? then Services.GetProductsByName(repo, name.value)
    else if category.Some? then Services.GetProductsByCategory(repo, category.value)
    else Services.GetAllProducts(repo)
  }

  /**
   * Whatever parameters are present, the search returns exactly the stored rows
   * that meet every present predicate: an absent parameter filters nothing.
   */
  lemma SearchMeaning(repo: ProductRepository, name: Option<string>, category: Option<string>)
    ensures forall p :: p in SearchProducts(repo, name, category) <==>
      exists row :: row in repo.table
        && (name.Some? ==> NameMatches(row, name.value))
        && (category.Some? ==> CategoryMatches(row, category.value))
        && MapRowToProduct(row) == p
  {
    if name.None? && category.None? {
      var all := repo.GetAllProducts();
      forall p | p in all ensures exists row :: row in repo.table && MapRowToProduct(row) == p {
        var i :| 0 <= i < |all| && all[i] == p;
        assert repo.table[i] in repo.table;
      }
      forall row | row in repo.table ensures MapRowToProduct(row) in all {
        var i :| 0 <= i < |repo.table| && repo.table[i] == row;
        assert all[i] == MapRowToProduct(row);
      }
    }
  }

  /** The `sortBy` request parameter, "name" when absent. */
  function SortKey(sortBy: Option<string>): (key: string)
    ensures sortBy.None? ==> key == "name"
    ensures sortBy.Some? ==> key == sortBy.value
  {
    sortBy.GetOr("name")
  }

  /** GET /products/sorted */
  method GetSortedProducts(repo: ProductRepository, sortBy: Option<string>) returns (r: Result<seq<ProductData>>)
    ensures Services.IsSortedListing(repo.GetAllProducts(), SortKey(sortBy), r)
  {
    r := Services.GetSortedProducts(repo, SortKey(sortBy));
  }
}
