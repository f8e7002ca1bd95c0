/**
 * The product store: the `product` table as an in-memory sequence of rows, the
 * SQL statements of the repository as filters over it, and the INSERT as a
 * method that extends it.
 */
module Repository {
  import opened Common
  import opened Text
  import opened Model

  /**
   * One row of the `product` table. `id` is the primary key and so never null;
   * `stockQuantity` may be SQL NULL; `dtype` is the discriminator column, which
   * this code neither writes nor reads.
   */
  datatype Row = Row(
    id: string,
    name: Option<string>,
    category: Option<string>,
    price: Option<real>,
    stockQuantity: Option<int32>,
    dtype: Option<ProductType>)

  /** The primary-key constraint: no two rows share an id. */
  ghost predicate KeysUnique(rows: seq<Row>) {
    forall i, j :: 0 <= i < j < |rows| ==> rows[i].id != rows[j].id
  }

  /** Some row has the given id. */
  predicate Stored(rows: seq<Row>, id: string) {
    exists row | row in rows :: row.id == id
  }

  lemma SameKeySameRow(rows: seq<Row>, r1: Row, r2: Row)
    requires KeysUnique(rows) && r1 in rows && r2 in rows && r1.id == r2.id
    ensures r1 == r2
  {
    var i :| 0 <= i < |rows| && rows[i] == r1;
    var j :| 0 <= j < |rows| && rows[j] == r2;
    assert !(i < j) && !(j < i);
  }

  /**
   * mapRowToProduct: a plain product built from the five columns; SQL NULL in
   * the quantity column reads as 0 and the discriminator is not consulted.
   */
  function MapRowToProduct(row: Row): (p: ProductData)
    ensures p.id == Some(row.id)
  {
    ProductData(Some(row.id), row.name, row.category, row.price, row.stockQuantity.GetOr(0))
  }

  /** No subtype is reconstructed: the discriminator does not affect what is read. */
  lemma MapRowIgnoresType(row: Row, t: Option<ProductType>)
    ensures MapRowToProduct(row.(dtype := t)) == MapRowToProduct(row)
  {
  }

  /** The row the INSERT writes: the five columns, the discriminator left unset. */
  function RowOf(p: ProductData): Row
    requires p.id.Some?
  {
    Row(p.id.value, p.name, p.category, p.price, Some(p.stockQuantity), None)
  }

  /** Reading back an inserted row gives the inserted values. */
  lemma RowRoundTrip(p: ProductData)
    requires p.id.Some?
    ensures MapRowToProduct(RowOf(p)) == p
  {
  }

  /** `LOWER(name) LIKE LOWER('%' || text || '%')`; a null name never matches. */
  predicate NameMatches(row: Row, text: string) {
    row.name.Some? && Contains(Lower(row.name.value), Lower(text))
  }

  /** `LOWER(category) = LOWER(?)`; a null category never matches. */
  predicate CategoryMatches(row: Row, category: string) {
    row.category.Some? && Lower(row.category.value) == Lower(category)
  }

  /** The WHERE clauses of the repository's SELECT statements. */
  datatype Condition =
    | Everything
    | NameLike(text: string)
    | CategoryIs(category: string)
    | NameLikeAndCategoryIs(text: string, category: string)

  predicate Holds(cond: Condition, row: Row) {
    match cond
    case Everything => true
    case NameLike(text) => NameMatches(row, text)
    case CategoryIs(category) => CategoryMatches(row, category)
    case NameLikeAndCategoryIs(text, category) => NameMatches(row, text) && CategoryMatches(row, category)
  }

  /** `SELECT * FROM product WHERE cond`, each row mapped by mapRowToProduct. */
  function Query(rows: seq<Row>, cond: Condition): (r: seq<ProductData>)
    ensures |r| <= |rows|
    ensures forall p :: p in r <==> exists row :: row in rows && Holds(cond, row) && MapRowToProduct(row) == p
  {
    if rows == [] then []
    else
      assert forall row :: row in rows <==> row == rows[0] || row in rows[1..];
      (if Holds(cond, rows[0]) then [MapRowToProduct(rows[0])] else []) + Query(rows[1..], cond)
  }

  /** No product occurs twice. */
  ghost predicate Distinct(s: seq<ProductData>) {
    forall i, j :: 0 <= i < j < |s| ==> s[i] != s[j]
  }

  /**
   * Under the primary-key constraint a SELECT lists each matching row once: the
   * products it returns carry pairwise different ids.
   */
  lemma {:induction false} QueryDistinct(rows: seq<Row>, cond: Condition)
    requires KeysUnique(rows)
    ensures Distinct(Query(rows, cond))
  {
    if rows != [] {
      var tail := rows[1..];
      forall i, j | 0 <= i < j < |tail| ensures tail[i].id != tail[j].id {
        assert tail[i] == rows[i + 1] && tail[j] == rows[j + 1];
      }
      QueryDistinct(tail, cond);
      var r := Query(rows, cond);
      var rest := Query(tail, cond);
      if Holds(cond, rows[0]) {
        var p0 := MapRowToProduct(rows[0]);
        assert r == [p0] + rest;
        forall p | p in rest ensures p.id != p0.id {
          var row :| row in tail && Holds(cond, row) && MapRowToProduct(row) == p;
          var k :| 0 <= k < |tail| && tail[k] == row;
          assert rows[k + 1] == row;
        }
        forall i, j | 0 <= i < j < |r| ensures r[i] != r[j] {
          assert r[j] == rest[j - 1];
          if i > 0 {
            assert r[i] == rest[i - 1];
          }
        }
      } else {
        assert r == rest;
      }
    }
  }

  /** With no WHERE clause every row is returned, in table order. */
  lemma {:induction false} QueryEverything(rows: seq<Row>)
    ensures |Query(rows, Everything)| == |rows|
    ensures forall i :: 0 <= i < |rows| ==> Query(rows, Everything)[i] == MapRowToProduct(rows[i])
  {
    if rows != [] {
      QueryEverything(rows[1..]);
    }
  }

  /** Two conditions that accept the same rows select the same result. */
  lemma {:induction false} QueryCongruence(rows: seq<Row>, c1: Condition, c2: Condition)
    requires forall row :: Holds(c1, row) == Holds(c2, row)
    ensures Query(rows, c1) == Query(rows, c2)
  {
    if rows != [] {
      QueryCongruence(rows[1..], c1, c2);
    }
  }

  /** `SELECT * FROM product WHERE id = ?` through queryForObject. */
  function Lookup(rows: seq<Row>, id: string): (r: Result<ProductData>)
    ensures r.Ok? <==> Stored(rows, id)
    ensures r.Ok? ==> exists row :: row in rows && row.id == id && r.value == MapRowToProduct(row)
    ensures r.Err? ==> r.error == NotFound
  {
    if rows == [] then Err(NotFound)
    else if rows[0].id == id then Ok(MapRowToProduct(rows[0]))
    else
      assert forall row :: row in rows <==> row == rows[0] || row in rows[1..];
      Lookup(rows[1..], id)
  }

  /** Under the primary-key constraint the lookup returns the one row with that id. */
  lemma {:induction false} LookupUnique(rows: seq<Row>, row: Row)
    requires KeysUnique(rows) && row in rows
    ensures Lookup(rows, row.id) == Ok(MapRowToProduct(row))
  {
    if rows[0] != row {
      assert rows[0].id != row.id by {
        var k :| 0 <= k < |rows| && rows[k] == row;
      }
      assert row in rows[1..];
      LookupUnique(rows[1..], row);
    }
  }

  /** getProductsByIdOrName: `\d+` means an id lookup wrapped in a list, anything else a name search. */
  function IdOrName(rows: seq<Row>, idOrName: string): Result<seq<ProductData>> {
    if IsAllDigits(idOrName) then
      match Lookup(rows, idOrName)
      case Ok(p) => Ok([p])
      case Err(e) => Err(e)
    else
      Ok(Query(rows, NameLike(idOrName)))
  }

  class ProductRepository {
    /** The contents of the `product` table. */
    var table: seq<Row>

    ghost predicate Valid()
      reads this
    {
      KeysUnique(table)
    }

    constructor (rows: seq<Row>)
      requires KeysUnique(rows)
      ensures Valid() && table == rows
    {
      table := rows;
    }

    /** getAllProducts: every stored row, each read by mapRowToProduct. */
    function GetAllProducts(): (r: seq<ProductData>)
      reads this
      ensures |r| == |table|
      ensures forall i :: 0 <= i < |table| ==> r[i] == MapRowToProduct(table[i])
    {
      QueryEverything(table);
      Query(table, Everything)
    }

    /** getProductById: the row with that id; a missing id is an error, not an empty result. */
    function GetProductById(id: string): (r: Result<ProductData>)
      reads this
      ensures r.Ok? <==> Stored(table, id)
      ensures r.Ok? ==> r.value.id == Some(id)
      ensures r.Ok? ==> exists row :: row in table && row.id == id && r.value == MapRowToProduct(row)
      ensures r.Err? ==> r.error == NotFound
    {
      Lookup(table, id)
    }

    /** getProductsByName: the rows whose lower-cased name contains the lower-cased text. */
    function GetProductsByName(name: string): (r: seq<ProductData>)
      reads this
      ensures forall p :: p in r <==> exists row :: row in table && NameMatches(row, name) && MapRowToProduct(row) == p
      ensures Valid() ==> Distinct(r)
    {
      assert Valid() ==> Distinct(Query(table, NameLike(name))) by {
        if Valid() { QueryDistinct(table, NameLike(name)); }
      }
      Query(table, NameLike(name))
    }

    /** getProductsByCategory: the rows whose lower-cased category equals the lower-cased argument. */
    function GetProductsByCategory(category: string): (r: seq<ProductData>)
      reads this
      ensures forall p :: p in r <==> exists row :: row in table && CategoryMatches(row, category) && MapRowToProduct(row) == p
      ensures Valid() ==> Distinct(r)
    {
      assert Valid() ==> Distinct(Query(table, CategoryIs(category))) by {
        if Valid() { QueryDistinct(table, CategoryIs(category)); }
      }
      Query(table, CategoryIs(category))
    }

    /** getProductsByNameAndCategory: the rows meeting both predicates. */
    function GetProductsByNameAndCategory(name: string, category: string): (r: seq<ProductData>)
      reads this
      ensures forall p :: p in r <==>
        exists row :: row in table && NameMatches(row, name) && CategoryMatches(row, category) && MapRowToProduct(row) == p
      ensures Valid() ==> Distinct(r)
    {
      assert Valid() ==> Distinct(Query(table, NameLikeAndCategoryIs(name, category))) by {
        if Valid() { QueryDistinct(table, NameLikeAndCategoryIs(name, category)); }
      }
      Query(table, NameLikeAndCategoryIs(name, category))
    }

    /**
     * getProductsByIdOrName: a non-empty all-digit token is an id lookup giving a
     * one-element list (or the lookup's error); every other token is a name search.
     */
    function GetProductsByIdOrName(idOrName: string): (r: Result<seq<ProductData>>)
      reads this
      ensures IsAllDigits(idOrName) ==> (r.Ok? <==> Stored(table, idOrName))
      ensures IsAllDigits(idOrName) && r.Ok? ==> |r.value| == 1 && r.value[0].id == Some(idOrName)
      ensures IsAllDigits(idOrName) && r.Ok? ==> r.value == [GetProductById(idOrName).value]
      ensures IsAllDigits(idOrName) && r.Err? ==> r.error == NotFound
      ensures !IsAllDigits(idOrName) ==> r == Ok(GetProductsByName(idOrName))
      ensures !IsAllDigits(idOrName) && r.Ok? ==>
        forall p :: p in r.value <==> exists row :: row in table && NameMatches(row, idOrName) && MapRowToProduct(row) == p
    {
      IdOrName(table, idOrName)
    }

    /**
     * saveProduct: INSERT of the five columns. A null id violates the primary key's
     * NOT NULL constraint, an id already stored violates its uniqueness; either
     * way the table is unchanged. On success the argument itself is returned.
     */
    method SaveProduct(product: Product) returns (r: Result<Product>)
      requires Valid()
      modifies this
      ensures Valid()
      ensures Saved(this, product, r)
    {
      var id := product.GetId();
      if id.None? {
        return Err(NullId);
      }
      if Stored(table, id.value) {
        return Err(DuplicateKey);
      }
      var row := Row(id.value, product.GetName(), product.GetCategory(), product.GetPrice(),
                     Some(product.GetStockQuantity()), None);
      table := table + [row];
      r := Ok(product);
    }
  }

  /**
   * The outcome of saveProduct: a null id fails with NullId and a stored id with
   * DuplicateKey, both leaving the table as it was; otherwise the argument itself
   * is returned and its row is appended.
   */
  twostate predicate Saved(repo: ProductRepository, product: Product, new r: Result<Product>)
    reads repo, product
  {
    && (product.id.None? ==> r == Err(NullId) && repo.table == old(repo.table))
    && (product.id.Some? && Stored(old(repo.table), product.id.value) ==>
          r == Err(DuplicateKey) && repo.table == old(repo.table))
    && (product.id.Some? && !Stored(old(repo.table), product.id.value) ==>
          r == Ok(product) && repo.table == old(repo.table) + [RowOf(product.Data())])
  }

  /** After a successful insert, looking the id up returns exactly the inserted values. */
  lemma SavedIsFound(rows: seq<Row>, p: ProductData)
    requires KeysUnique(rows) && p.id.Some? && !Stored(rows, p.id.value)
    ensures KeysUnique(rows + [RowOf(p)])
    ensures Lookup(rows + [RowOf(p)], p.id.value) == Ok(p)
  {
    var rows' := rows + [RowOf(p)];
    forall i, j | 0 <= i < j < |rows'| ensures rows'[i].id != rows'[j].id {
      if j == |rows| {
        assert rows'[i] in rows;
      }
    }
    LookupUnique(rows', RowOf(p));
  }

  /** The conjunctive search is the intersection of the name search and the category search. */
  lemma ConjunctionIsIntersection(rows: seq<Row>, name: string, category: string)
    requires KeysUnique(rows)
    ensures forall p :: p in Query(rows, NameLikeAndCategoryIs(name, category)) <==>
      p in Query(rows, NameLike(name)) && p in Query(rows, CategoryIs(category))
  {
    forall p | p in Query(rows, NameLike(name)) && p in Query(rows, CategoryIs(category))
      ensures p in Query(rows, NameLikeAndCategoryIs(name, category))
    {
      var r1 :| r1 in rows && Holds(NameLike(name), r1) && MapRowToProduct(r1) == p;
      var r2 :| r2 in rows && Holds(CategoryIs(category), r2) && MapRowToProduct(r2) == p;
      SameKeySameRow(rows, r1, r2);
      assert Holds(NameLikeAndCategoryIs(name, category), r1);
    }
  }

  /** Name search ignores letter case in its argument. */
  lemma NameSearchIgnoresCase(rows: seq<Row>, a: string, b: string)
    requires Lower(a) == Lower(b)
    ensures Query(rows, NameLike(a)) == Query(rows, NameLike(b))
  {
    QueryCongruence(rows, NameLike(a), NameLike(b));
  }

  /** Category search ignores letter case in its argument. */
  lemma CategorySearchIgnoresCase(rows: seq<Row>, a: string, b: string)
    requires Lower(a) == Lower(b)
    ensures Query(rows, CategoryIs(a)) == Query(rows, CategoryIs(b))
  {
    QueryCongruence(rows, CategoryIs(a), CategoryIs(b));
  }

  /** An empty name argument (`%%`) matches every row whose name is not null. */
  lemma EmptyNameMatchesAllNamed(rows: seq<Row>)
    ensures forall p :: p in Query(rows, NameLike("")) <==>
      exists row :: row in rows && row.name.Some? && MapRowToProduct(row) == p
  {
    forall row: Row | row.name.Some? ensures NameMatches(row, "") {
      EmptyContained(Lower(row.name.value));
    }
  }

  /** A row whose category is null is never returned by either search on category. */
  lemma NullCategoryNeverMatches(row: Row, name: string, category: string)
    requires row.category.None?
    ensures !Holds(CategoryIs(category), row) && !Holds(NameLikeAndCategoryIs(name, category), row)
  {
  }

  /**
   * The id-or-name heuristic makes an all-digit product name unreachable: a row
   * named "123" with id "7" matches a name search for "123", yet the combined
   * lookup treats "123" as an id and fails.
   */
  lemma NumericNameUnreachable()
    ensures var row := Row("7", Some("123"), None, None, Some(1), None);
      NameMatches(row, "123") && IdOrName([row], "123") == Err(NotFound)
  {
    var row := Row("7", Some("123"), None, None, Some(1), None);
    assert "123" <= Lower("123");
    assert IsAllDigits("123");
    assert !Stored([row], "123");
  }
}
