# Inventory management: a verified model of the product catalogue core

This project models the core of a small Spring/JDBC inventory service in Dafny.
The service stores products in one `product` table and answers a few searches
over it. It also returns the whole catalogue sorted by price, category or name.

The model has four layers, following the Java packages:

- **`Model` (product.dfy)**: `Product` is a class with the five mutable fields of
  the Java entity: `id`, `name`, `category`, `price` and `stockQuantity`. It has
  both constructors, the getters and the setters. `ProductData` is the value of
  those fields at one moment. The three subclasses appear only as a
  discriminator tag, `ProductType`.
- **`Repository` (repository.dfy)**: `ProductRepository` is a class whose
  `table` field holds the rows of the `product` table.
  - Each SELECT is a filter (`Query`) over the table, and each row is read back
    by `MapRowToProduct`.
  - The lookup by primary key fails with `NotFound` when no row has the id.
  - `SaveProduct` is a method that appends a row. It rejects a null id and a
    duplicate id, and keeps the primary-key invariant `Valid()`.
- **`Sorting` (sorting.dfy)**: this layer holds the sort-key dispatch, the three
  comparators, and a stable insertion sort used as the reference definition of
  `List.sort`. It proves that the sort yields a sorted, stable permutation.
  `SortInPlace` is an in-place array insertion sort, proved to compute that
  reference sort.
- **`Services` and `Controller` (services.dfy, controller.dfy)**:
  - the delegations;
  - the sorted listing, which fetches the products and then sorts the array
    in place;
  - the four-way choice in the search endpoint on which optional parameters are
    present;
  - the default sort key `"name"`.

`Common` (common.dfy) holds `Option`, which stands for a Java reference that may
be null, and `Result`, which stands for a call that may throw.

`Text` (text.dfy) holds the string operations the SQL and the comparators rely on:
- case folding;
- the `%text%` substring match of `LIKE`;
- the `\d+` test;
- `String.compareTo`.

Services and controller take the repository as an explicit parameter. This
stands in for the injected field of the Java classes.

The entity puts no NOT NULL on `name`, `category` or `price`
(src/main/java/com/retail/inventory/model/Product.java:37-42), so all three are
`Option`s. Names and categories sort with nulls last, and a null price makes the
price comparator throw.

## Model

| member | source | states |
|---|---|---|
| Model.Product.Empty | src/main/java/com/retail/inventory/model/Product.java:47 | the no-argument constructor leaves id, name, category and price null and the quantity 0 |
| Model.Product.constructor | src/main/java/com/retail/inventory/model/Product.java:49-56 | the five arguments are stored unchanged, with no validation of quantity or price |
| Model.Product.GetId | src/main/java/com/retail/inventory/model/Product.java:57-59 | returns the current value of the id field |
| Model.Product.GetName | src/main/java/com/retail/inventory/model/Product.java:63-65 | returns the current value of the name field |
| Model.Product.GetCategory | src/main/java/com/retail/inventory/model/Product.java:69-71 | returns the current value of the category field |
| Model.Product.GetPrice | src/main/java/com/retail/inventory/model/Product.java:75-77 | returns the current value of the price field |
| Model.Product.GetStockQuantity | src/main/java/com/retail/inventory/model/Product.java:81-83 | returns the current value of the quantity field |
| Model.Product.SetId | src/main/java/com/retail/inventory/model/Product.java:60-62 | replaces the id and leaves the other four fields unchanged |
| Model.Product.SetName | src/main/java/com/retail/inventory/model/Product.java:66-68 | replaces the name and leaves the other four fields unchanged |
| Model.Product.SetCategory | src/main/java/com/retail/inventory/model/Product.java:72-74 | replaces the category and leaves the other four fields unchanged |
| Model.Product.SetPrice | src/main/java/com/retail/inventory/model/Product.java:78-80 | replaces the price (any value, null included) and leaves the other four fields unchanged |
| Model.Product.SetStockQuantity | src/main/java/com/retail/inventory/model/Product.java:84-86 | replaces the quantity (any int, negatives included) and leaves the other four fields unchanged |
| Repository.SameKeySameRow | src/main/java/com/retail/inventory/model/Product.java:34-36 | under the primary-key constraint, two stored rows with the same id are the same row |
| Repository.ProductRepository.constructor | src/main/java/com/retail/inventory/model/Product.java:34-36 | a repository starts from a table whose ids are unique |
| Repository.MapRowToProduct | src/main/java/com/retail/inventory/repository/ProductRepository.java:119-127 | a row is read back as a plain product that carries the row's id |
| Repository.MapRowIgnoresType | src/main/java/com/retail/inventory/repository/ProductRepository.java:119-127 | the discriminator column does not affect what is read: no subtype is reconstructed |
| Repository.RowRoundTrip | src/main/java/com/retail/inventory/repository/ProductRepository.java:113-127 | reading back the row the INSERT writes gives exactly the five inserted values |
| Repository.Query | src/main/java/com/retail/inventory/repository/ProductRepository.java:41-105 | a product is in a SELECT result exactly when some stored row meets the WHERE clause and maps to it; the result is no longer than the table |
| Repository.QueryDistinct | src/main/java/com/retail/inventory/repository/ProductRepository.java:41-105 | under the primary-key constraint a SELECT lists no product twice |
| Repository.QueryEverything | src/main/java/com/retail/inventory/repository/ProductRepository.java:41-44 | with no WHERE clause every row is returned, in table order |
| Repository.QueryCongruence | src/main/java/com/retail/inventory/repository/ProductRepository.java:63-66 | two WHERE clauses that accept the same rows give the same result |
| Repository.Lookup | src/main/java/com/retail/inventory/repository/ProductRepository.java:52-55 | succeeds exactly when the id is stored, then with a row of that id; otherwise fails with NotFound |
| Repository.LookupUnique | src/main/java/com/retail/inventory/repository/ProductRepository.java:52-55 | under the primary-key constraint the lookup of a stored row's id returns that row |
| Repository.ProductRepository.GetAllProducts | src/main/java/com/retail/inventory/repository/ProductRepository.java:41-44 | one product per stored row, position by position |
| Repository.ProductRepository.GetProductById | src/main/java/com/retail/inventory/repository/ProductRepository.java:52-55 | succeeds exactly when the id is stored, with the product of that id; a missing id is the NotFound error, not an empty result |
| Repository.ProductRepository.GetProductsByName | src/main/java/com/retail/inventory/repository/ProductRepository.java:63-66 | exactly the rows whose lower-cased name contains the lower-cased argument, each listed once under unique keys |
| Repository.ProductRepository.GetProductsByCategory | src/main/java/com/retail/inventory/repository/ProductRepository.java:102-105 | exactly the rows whose lower-cased category equals the lower-cased argument, each listed once under unique keys |
| Repository.ProductRepository.GetProductsByNameAndCategory | src/main/java/com/retail/inventory/repository/ProductRepository.java:91-94 | exactly the rows meeting both the name predicate and the category predicate, each listed once under unique keys |
| Repository.ProductRepository.GetProductsByIdOrName | src/main/java/com/retail/inventory/repository/ProductRepository.java:76-82 | a non-empty all-digit argument gives the one-element list of getProductById (or its NotFound error); any other argument, the empty string included, gives exactly the result of getProductsByName |
| Repository.ProductRepository.SaveProduct | src/main/java/com/retail/inventory/repository/ProductRepository.java:113-117 | a null or already stored id fails and leaves the table unchanged; otherwise the argument is returned and its row appended; key uniqueness is preserved |
| Repository.SavedIsFound | src/main/java/com/retail/inventory/repository/ProductRepository.java:113-117 | after a successful insert the keys stay unique and the lookup of the new id returns exactly the saved values |
| Repository.ConjunctionIsIntersection | src/main/java/com/retail/inventory/repository/ProductRepository.java:91-94 | the name-and-category result is the intersection of the name result and the category result |
| Repository.NameSearchIgnoresCase | src/main/java/com/retail/inventory/repository/ProductRepository.java:64 | arguments differing only in letter case give the same name search result |
| Repository.CategorySearchIgnoresCase | src/main/java/com/retail/inventory/repository/ProductRepository.java:103 | arguments differing only in letter case give the same category search result |
| Repository.EmptyNameMatchesAllNamed | src/main/java/com/retail/inventory/repository/ProductRepository.java:64-65 | an empty name argument matches exactly the rows whose name is not null |
| Repository.NullCategoryNeverMatches | src/main/java/com/retail/inventory/repository/ProductRepository.java:92-93 | a row with a null category matches neither search on category |
| Repository.NumericNameUnreachable | src/main/java/com/retail/inventory/repository/ProductRepository.java:76-82 | a product named "123" is found by the name search but not by the id-or-name endpoint, which treats "123" as an id |
| Text.LowerFolds | src/main/java/com/retail/inventory/repository/ProductRepository.java:64 | lower-casing keeps the length, leaves no upper-case letter and is idempotent |
| Text.ContainsIff | src/main/java/com/retail/inventory/repository/ProductRepository.java:64-65 | the `%text%` match holds exactly when the text occurs as a contiguous block at some index |
| Text.EmptyContained | src/main/java/com/retail/inventory/repository/ProductRepository.java:65 | the pattern `%%` matches every string |
| Text.CompareToSwap | src/main/java/com/retail/inventory/services/ProductServicesImpl.java:107-111 | String.compareTo is antisymmetric |
| Text.CompareToZero | src/main/java/com/retail/inventory/services/ProductServicesImpl.java:107-111 | String.compareTo is zero exactly on equal strings |
| Text.CompareToTransitive | src/main/java/com/retail/inventory/services/ProductServicesImpl.java:107-111 | String.compareTo is transitive |
| Sorting.SortFieldOf | src/main/java/com/retail/inventory/services/ProductServicesImpl.java:102-112 | price order exactly when the lower-cased key is "price", category order exactly when it is "category", name order for every other key |
| Sorting.SortFieldIgnoresCase | src/main/java/com/retail/inventory/services/ProductServicesImpl.java:102 | keys differing only in letter case select the same order |
| Sorting.CompareSwap | src/main/java/com/retail/inventory/services/ProductServicesImpl.java:104-111 | each of the three comparators is antisymmetric |
| Sorting.CompareZero | src/main/java/com/retail/inventory/services/ProductServicesImpl.java:104-111 | each comparator is zero exactly on products with the same key |
| Sorting.NullsLastTransitive | src/main/java/com/retail/inventory/services/ProductServicesImpl.java:107-111 | nullsLast(naturalOrder()) on strings is transitive |
| Sorting.CompareTransitive | src/main/java/com/retail/inventory/services/ProductServicesImpl.java:104-111 | each comparator is transitive, so List.sort's contract holds for it |
| Sorting.Insert | src/main/java/com/retail/inventory/services/ProductServicesImpl.java:104-111 | inserting an element yields only that element and elements of the list |
| Sorting.InsertionSort | src/main/java/com/retail/inventory/services/ProductServicesImpl.java:104-111 | the reference stable sort yields only elements of its input |
| Sorting.InsertPermutes | src/main/java/com/retail/inventory/services/ProductServicesImpl.java:104-111 | insertion adds exactly one occurrence of the element |
| Sorting.InsertionSortPermutes | src/main/java/com/retail/inventory/services/ProductServicesImpl.java:100-114 | the sorted list is a permutation of the fetched list |
| Sorting.SortedSnoc | src/main/java/com/retail/inventory/services/ProductServicesImpl.java:104-111 | appending an element no smaller than every element keeps a list sorted |
| Sorting.InsertSorted | src/main/java/com/retail/inventory/services/ProductServicesImpl.java:104-111 | inserting into a sorted list keeps it sorted |
| Sorting.InsertionSortSorted | src/main/java/com/retail/inventory/services/ProductServicesImpl.java:104-111 | the output is sorted under the selected comparator |
| Sorting.InsertKeyFilter | src/main/java/com/retail/inventory/services/ProductServicesImpl.java:104-111 | insertion places the new element after every element with an equal key |
| Sorting.InsertionSortStable | src/main/java/com/retail/inventory/services/ProductServicesImpl.java:104-111 | elements with equal keys keep their fetched relative order |
| Sorting.InsertionSortCorrect | src/main/java/com/retail/inventory/services/ProductServicesImpl.java:104-111 | the reference sort is a sorted, stable permutation of its input |
| Sorting.SortedByPrice | src/main/java/com/retail/inventory/services/ProductServicesImpl.java:103-104 | under the price key a sorted list of two or more has no null price and is non-decreasing in price |
| Sorting.SortedNullsLast | src/main/java/com/retail/inventory/services/ProductServicesImpl.java:106-111 | under the category or name key every null comes after every non-null value and the non-null values are non-decreasing under compareTo |
| Sorting.InsertIntoPrefix | src/main/java/com/retail/inventory/services/ProductServicesImpl.java:104-111 | shifting the array in place inserts the next element into the sorted prefix exactly as the reference insertion does, leaving the rest unchanged |
| Sorting.SortInPlace | src/main/java/com/retail/inventory/services/ProductServicesImpl.java:104-111 | the in-place sort leaves the array holding the reference stable sort of its old contents |
| Services.AddProduct | src/main/java/com/retail/inventory/services/ProductServicesImpl.java:34-36 | same outcome and table change as the repository's saveProduct |
| Services.GetAllProducts | src/main/java/com/retail/inventory/services/ProductServicesImpl.java:42-44 | exactly the repository's getAllProducts |
| Services.GetProductById | src/main/java/com/retail/inventory/services/ProductServicesImpl.java:51-53 | exactly the repository's getProductById |
| Services.GetProductsByName | src/main/java/com/retail/inventory/services/ProductServicesImpl.java:60-62 | exactly the repository's getProductsByName |
| Services.GetProductsByIdOrName | src/main/java/com/retail/inventory/services/ProductServicesImpl.java:69-71 | exactly the repository's getProductsByIdOrName |
| Services.GetProductsByCategory | src/main/java/com/retail/inventory/services/ProductServicesImpl.java:78-80 | exactly the repository's getProductsByCategory |
| Services.GetProductsByNameAndCategory | src/main/java/com/retail/inventory/services/ProductServicesImpl.java:88-90 | exactly the repository's getProductsByNameAndCategory |
| Services.GetSortedProducts | src/main/java/com/retail/inventory/services/ProductServicesImpl.java:99-115 | fails with NullPointer exactly when the price key meets a null price among two or more products; otherwise returns a sorted, stable permutation of all products |
| Controller.AddProduct | src/main/java/com/retail/inventory/controller/ProductManagementController.java:50-53 | same outcome and table change as the service's addProduct |
| Controller.GetAllProducts | src/main/java/com/retail/inventory/controller/ProductManagementController.java:60-64 | exactly the service's getAllproducts |
| Controller.GetProductsByIdOrName | src/main/java/com/retail/inventory/controller/ProductManagementController.java:72-75 | exactly the service's getProductsByIdOrName |
| Controller.SearchProducts | src/main/java/com/retail/inventory/controller/ProductManagementController.java:84-96 | both parameters: the name-and-category search; name only: the name search; category only: the category search; neither: all products |
| Controller.SearchMeaning | src/main/java/com/retail/inventory/controller/ProductManagementController.java:84-96 | whatever parameters are present, the result holds exactly the stored rows meeting every present predicate |
| Controller.SortKey | src/main/java/com/retail/inventory/controller/ProductManagementController.java:106 | an absent sortBy is "name"; a present one is passed on unchanged |
| Controller.GetSortedProducts | src/main/java/com/retail/inventory/controller/ProductManagementController.java:105-108 | the sorted listing for the given key, or for "name" when the key is absent |

## Left out

- HTTP routing, JSON (de)serialisation, status codes and Spring wiring are not modelled. The application bootstrap is not part of this model.
- JDBC, SQL text, connections, transactions and concurrency are not modelled. The table is an in-memory sequence of rows, and each statement is a filter over it.
- SQL gives no row order without ORDER BY. The model returns rows in table order, so the result order of every query is one admissible order, not the only one.
- Repository.ProductRepository.GetProductsByName: `%` and `_` in the argument are not treated as LIKE wildcards. The argument is matched as literal text. The same holds for GetProductsByNameAndCategory and the name branch of GetProductsByIdOrName.
- Case folding is ASCII lower-casing. Locale-dependent `toLowerCase` and the database collation are not modelled.
- Text.CompareTo compares Unicode scalar values. Java compares UTF-16 code units, which differs only for characters outside the Basic Multilingual Plane.
- Prices are exact reals. BigDecimal scale and the column's precision are not modelled; `compareTo` ignores scale anyway.
- `List.sort` (TimSort) is replaced by a stable insertion sort. Every stable sort yields the same sorted, stable permutation, but the model does not prove that uniqueness.
- Services.GetSortedProducts: a NullPointerException is a `NullPointer` error result. With fewer than two products TimSort compares nothing, so a null price is not reached and the list comes back as fetched.
- Queries return `ProductData` values rather than fresh `Product` objects, so the identity and aliasing of the returned objects are not modelled.
- Database constraints other than the primary key, such as column types, are not modelled.
- Repository.ProductRepository.SaveProduct: the INSERT never writes the `dtype` discriminator column. The model stores it as unset and lets the insert succeed. If the deployed schema made that column NOT NULL, every insert would fail, and that failure is not captured.
- A null in the quantity column reads as 0, as `getInt` does.
- The `Electronics`, `Clothing` and `Grocery` subclasses add only a discriminator. They appear only as the `ProductType` tag, which the repository neither writes nor reads.
- Controller.GetSortedProducts: Spring's treatment of an empty `sortBy` parameter is not modelled. A present empty string is passed on and falls to the name order.
