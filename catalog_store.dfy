/**
 * The catalog store of `lib/db.ts`: the `categories` and `products` tables, held as maps
 * from id to row, with one SERIAL counter per table. Each SQL statement of the source is
 * one state change of a `Db` object; the constraints the schema declares (a unique
 * category name, a product's category id referencing an existing category) are the
 * object invariant, and the statements that would violate them fail as Postgres does.
 */
module CatalogStore {
  import opened Common
  import opened Orders

  /** One entry of a product's `variations` list. */
  datatype Variation = Variation(name: string, price: int)

  /**
   * The columns of a `products` row other than its id: what `createProduct` takes.
   * The nullable columns the TypeScript type marks optional are `Option`s. The column
   * `cor_codigo` is exposed as `corCodigo` at the store boundary; here both are one field.
   */
  datatype ProductFields = ProductFields(
    name: string,
    description: string,
    price: int,
    categoryId: int,
    imagePath: string,
    corCodigo: Option<string>,
    variations: Option<seq<Variation>>,
    stock: Option<int>)

  /** A product as `getProductById` returns it. */
  datatype Product = Product(id: int, fields: ProductFields)

  /** A product as `getProducts` returns it: the row joined with its category's name. */
  datatype ListedProduct = ListedProduct(id: int, fields: ProductFields, categoryName: Option<string>)

  datatype Category = Category(id: int, name: string)

  /** `Partial<Product>` as `updateProduct` takes it: `None` is a field left null or undefined. */
  datatype ProductPatch = ProductPatch(
    name: Option<string>,
    description: Option<string>,
    price: Option<int>,
    categoryId: Option<int>,
    imagePath: Option<string>,
    corCodigo: Option<string>,
    variations: Option<seq<Variation>>,
    stock: Option<int>)

  const NoChanges := ProductPatch(None, None, None, None, None, None, None, None)

  /**
   * The category names `init` inserts into an empty `categories` table, in order. The
   * accented names are written character for character as the source file holds them: its
   * UTF-8 text was once read as Windows-1250 and saved again, so "í" became U+0102 U+00AD.
   */
  const Seed: seq<string> := [
    "Tubos", "Rolamentos", "Rod\U{0102}\U{00AD}zios", "Tampas", "Estacionamentos",
    "Sa\U{0102}\U{00AD}das", "Acabamentos", "Fechaduras", "Roldanas", "Aparadores", "Batentes"]

  /** "Categoria já existe", as the source file holds it (see `Seed`). */
  const DuplicateCategoryMessage := "Categoria j\U{0102}\U{02C7} existe"
  /** "Não é possível excluir categoria com produtos vinculados", as the source file holds it. */
  const CategoryInUseMessage :=
    "N\U{0102}\U{0141}o \U{0102}\U{00A9} poss\U{0102}\U{00AD}vel excluir categoria com produtos vinculados"
  /** What Postgres reports for a rename onto a name another category has. */
  const UniqueViolationMessage := "duplicate key value violates unique constraint \"categories_name_key\""
  /** What Postgres reports for a product row whose category does not exist. */
  const ForeignKeyViolationMessage :=
    "insert or update on table \"products\" violates foreign key constraint \"products_category_id_fkey\""

  /**
   * The read-modify-write merge of `updateProduct`: each column is `updates.x ?? current.x`,
   * so a supplied value (an empty string and zero included) overwrites, and a null or
   * undefined one keeps the current value.
   */
  function Merge(current: ProductFields, patch: ProductPatch): (r: ProductFields)
    ensures r.name == current.name || patch.name == Some(r.name)
    ensures r.description == current.description || patch.description == Some(r.description)
    ensures r.price == current.price || patch.price == Some(r.price)
    ensures r.categoryId == current.categoryId || patch.categoryId == Some(r.categoryId)
    ensures r.imagePath == current.imagePath || patch.imagePath == Some(r.imagePath)
    ensures r.corCodigo == current.corCodigo || r.corCodigo == patch.corCodigo
    ensures r.variations == current.variations || r.variations == patch.variations
    ensures r.stock == current.stock || r.stock == patch.stock
  {
    ProductFields(
      Coalesce(patch.name, current.name),
      Coalesce(patch.description, current.description),
      Coalesce(patch.price, current.price),
      Coalesce(patch.categoryId, current.categoryId),
      Coalesce(patch.imagePath, current.imagePath),
      OrElse(patch.corCodigo, current.corCodigo),
      OrElse(patch.variations, current.variations),
      OrElse(patch.stock, current.stock))
  }

  /** The patch that supplies every column of `f` that is not null. */
  function PatchOf(f: ProductFields): ProductPatch
  {
    ProductPatch(Some(f.name), Some(f.description), Some(f.price), Some(f.categoryId),
                 Some(f.imagePath), f.corCodigo, f.variations, f.stock)
  }

  /** The UNIQUE constraint on `categories.name`. */
  ghost predicate UniqueNames(categories: map<int, string>)
  {
    forall a, b :: a in categories && b in categories && a != b ==> categories[a] != categories[b]
  }

  /** The REFERENCES constraint on `products.category_id`. */
  ghost predicate ReferencesResolve(products: map<int, ProductFields>, categories: map<int, string>)
  {
    forall id :: id in products ==> products[id].categoryId in categories
  }

  /** Some product row has `category_id = categoryId`. */
  ghost predicate Referenced(products: map<int, ProductFields>, categoryId: int)
  {
    exists id :: id in products && products[id].categoryId == categoryId
  }

  /** `SELECT count(*) ... WHERE category_id = id` is positive exactly when the category is referenced. */
  lemma ReferencedIffCounted(products: map<int, ProductFields>, categoryId: int)
    ensures Referenced(products, categoryId) <==>
      |set p | p in products && products[p].categoryId == categoryId| > 0
  {
    var referencing := set p | p in products && products[p].categoryId == categoryId;
    if Referenced(products, categoryId) {
      var w :| w in products && products[w].categoryId == categoryId;
      assert w in referencing;
    } else if |referencing| > 0 {
      var w := Pick(referencing);
    }
  }

  /** One row of `products p LEFT JOIN categories c ON p.category_id = c.id`. */
  function Joined(categories: map<int, string>, id: int, fields: ProductFields): (r: ListedProduct)
    ensures r.id == id && r.fields == fields
    ensures r.categoryName.Some? <==> fields.categoryId in categories
    ensures r.categoryName.Some? ==> r.categoryName.value == categories[fields.categoryId]
  {
    ListedProduct(id, fields,
      if fields.categoryId in categories then Some(categories[fields.categoryId]) else None)
  }

  /** `categories` holds exactly the first `count` seed names, under ids `start` onwards. */
  ghost predicate SeededPrefix(categories: map<int, string>, start: int, count: nat)
    requires count <= |Seed|
  {
    && (forall k :: k in categories <==> start <= k < start + count)
    && (forall k :: k in categories ==> categories[k] == Seed[k - start])
  }

  lemma SeedNamesDistinct()
    ensures forall i, j :: 0 <= i < j < |Seed| ==> Seed[i] != Seed[j]
  {
  }

  /** The seeded names satisfy the UNIQUE constraint, so no seed insert can fail. */
  lemma SeededNamesUnique(categories: map<int, string>, start: int, count: nat)
    requires count <= |Seed| && SeededPrefix(categories, start, count)
    ensures UniqueNames(categories)
  {
    SeedNamesDistinct();
    forall a, b | a in categories && b in categories && a != b ensures categories[a] != categories[b] {
      assert categories[a] == Seed[a - start] && categories[b] == Seed[b - start];
    }
  }

  /** Updating with a patch that supplies nothing leaves the row as it was. */
  lemma MergeNoChanges(current: ProductFields)
    ensures Merge(current, NoChanges) == current
  {
  }

  /**
   * Column by column: a supplied value wins, whatever it is (an empty string and zero
   * included); a null or undefined one keeps the current value.
   */
  lemma MergeFieldwise(current: ProductFields, patch: ProductPatch)
    ensures patch.name.Some? ==> Merge(current, patch).name == patch.name.value
    ensures patch.name.None? ==> Merge(current, patch).name == current.name
    ensures patch.description.Some? ==> Merge(current, patch).description == patch.description.value
    ensures patch.description.None? ==> Merge(current, patch).description == current.description
    ensures patch.price.Some? ==> Merge(current, patch).price == patch.price.value
    ensures patch.price.None? ==> Merge(current, patch).price == current.price
    ensures patch.categoryId.Some? ==> Merge(current, patch).categoryId == patch.categoryId.value
    ensures patch.categoryId.None? ==> Merge(current, patch).categoryId == current.categoryId
    ensures patch.imagePath.Some? ==> Merge(current, patch).imagePath == patch.imagePath.value
    ensures patch.imagePath.None? ==> Merge(current, patch).imagePath == current.imagePath
    ensures patch.corCodigo.Some? ==> Merge(current, patch).corCodigo == patch.corCodigo
    ensures patch.corCodigo.None? ==> Merge(current, patch).corCodigo == current.corCodigo
    ensures patch.variations.Some? ==> Merge(current, patch).variations == patch.variations
    ensures patch.variations.None? ==> Merge(current, patch).variations == current.variations
    ensures patch.stock.Some? ==> Merge(current, patch).stock == patch.stock
    ensures patch.stock.None? ==> Merge(current, patch).stock == current.stock
  {
  }

  /** Applying the same patch twice is the same as applying it once. */
  lemma MergeIdempotent(current: ProductFields, patch: ProductPatch)
    ensures Merge(Merge(current, patch), patch) == Merge(current, patch)
  {
  }

  /**
   * Writing a whole row back through `updateProduct` reproduces it exactly when no
   * nullable column goes from a value to null: `??` can never clear a column.
   */
  lemma MergePatchOf(current: ProductFields, f: ProductFields)
    ensures Merge(current, PatchOf(f)) == f <==>
      && (f.corCodigo.None? ==> current.corCodigo.None?)
      && (f.variations.None? ==> current.variations.None?)
      && (f.stock.None? ==> current.stock.None?)
  {
  }

  /** Inserting a category keeps every product's reference valid. */
  lemma ReferencesSurviveInsert(products: map<int, ProductFields>, categories: map<int, string>, id: int, name: string)
    requires ReferencesResolve(products, categories)
    ensures ReferencesResolve(products, categories[id := name])
  {
  }

  /** With the FOREIGN KEY in force, the LEFT JOIN always finds the category. */
  lemma JoinedFindsCategory(products: map<int, ProductFields>, categories: map<int, string>, id: int)
    requires ReferencesResolve(products, categories) && id in products
    ensures Joined(categories, id, products[id]).categoryName == Some(categories[products[id].categoryId])
  {
  }

  /**
   * `list` holds, in ascending name order and each once, exactly the categories whose
   * ids are not in `remaining`, and every name it holds sorts at or before every
   * remaining one.
   */
  ghost predicate CategoriesListed(categories: map<int, string>, list: seq<Category>, remaining: set<int>)
  {
    && remaining <= categories.Keys
    && (forall c :: c in list <==> c.id in categories && c.id !in remaining && categories[c.id] == c.name)
    && (forall i, j :: 0 <= i < j < |list| ==> list[i].id != list[j].id)
    && (forall i, j :: 0 <= i < j < |list| ==> NameAtOrBefore(list[i].name, list[j].name))
    && (forall i, k :: 0 <= i < |list| && k in remaining ==> NameAtOrBefore(list[i].name, categories[k]))
  }

  /** Moving the remaining category with the least name to the end of the list keeps it sorted. */
  lemma CategoriesListedStep(categories: map<int, string>, list: seq<Category>, remaining: set<int>, k: int)
    requires CategoriesListed(categories, list, remaining)
    requires k in remaining && forall j :: j in remaining ==> NameAtOrBefore(categories[k], categories[j])
    ensures CategoriesListed(categories, list + [Category(k, categories[k])], remaining - {k})
  {
    var list' := list + [Category(k, categories[k])];
    forall c ensures c in list' <==> c.id in categories && c.id !in remaining - {k} && categories[c.id] == c.name {
      assert c in list' <==> c in list || c == Category(k, categories[k]);
    }
  }

  /**
   * `list` holds, in strictly descending id order, exactly the joined rows of the products
   * whose ids are not in `remaining`, all with ids above every remaining one.
   */
  ghost predicate ProductsListed(categories: map<int, string>, products: map<int, ProductFields>,
                                 list: seq<ListedProduct>, remaining: set<int>)
  {
    && remaining <= products.Keys
    && (forall p :: p in list <==> p.id in products && p.id !in remaining && p == Joined(categories, p.id, products[p.id]))
    && (forall i, j :: 0 <= i < j < |list| ==> list[i].id > list[j].id)
    && (forall i, k :: 0 <= i < |list| && k in remaining ==> list[i].id > k)
  }

  /** Moving the largest remaining id to the end of the list keeps it in descending order. */
  lemma ProductsListedStep(categories: map<int, string>, products: map<int, ProductFields>,
                           list: seq<ListedProduct>, remaining: set<int>, k: int)
    requires ProductsListed(categories, products, list, remaining)
    requires k in remaining && forall j :: j in remaining ==> j <= k
    ensures ProductsListed(categories, products, list + [Joined(categories, k, products[k])], remaining - {k})
  {
    var row := Joined(categories, k, products[k]);
    var list' := list + [row];
    forall p ensures p in list' <==> p.id in products && p.id !in remaining - {k} && p == Joined(categories, p.id, products[p.id]) {
      assert p in list' <==> p in list || p == row;
    }
  }

  class Db {
    /** The `categories` table: id to name. */
    var categories: map<int, string>
    /** The `products` table: id to the other columns. */
    var products: map<int, ProductFields>
    /** The next value of the SERIAL sequence behind `categories.id`. */
    var nextCategoryId: int
    /** The next value of the SERIAL sequence behind `products.id`. */
    var nextProductId: int

    ghost predicate Valid()
      reads this
    {
      && 1 <= nextCategoryId && 1 <= nextProductId
      && (forall id :: id in categories ==> 1 <= id < nextCategoryId)
      && (forall id :: id in products ==> 1 <= id < nextProductId)
      && UniqueNames(categories)
      && ReferencesResolve(products, categories)
    }

    /** Both tables freshly created, empty, with their sequences at 1. */
    constructor ()
      ensures Valid()
      ensures categories == map[] && products == map[]
      ensures nextCategoryId == 1 && nextProductId == 1
    {
      categories := map[];
      products := map[];
      nextCategoryId := 1;
      nextProductId := 1;
    }

    /** `init`: when `categories` is empty, insert the seed names one by one. */
    method Init()
      requires Valid()
      modifies this
      ensures Valid()
      ensures products == old(products) && nextProductId == old(nextProductId)
      ensures old(categories) != map[] ==>
        categories == old(categories) && nextCategoryId == old(nextCategoryId)
      ensures old(categories) == map[] ==>
        && SeededPrefix(categories, old(nextCategoryId), |Seed|)
        && nextCategoryId == old(nextCategoryId) + |Seed|
    {
      if |categories| == 0 {
        var start := nextCategoryId;
        var i := 0;
        while i < |Seed|
          invariant 0 <= i <= |Seed|
          invariant nextCategoryId == start + i
          invariant SeededPrefix(categories, start, i)
          invariant products == old(products) && nextProductId == old(nextProductId)
          invariant ReferencesResolve(products, categories)
        {
          ReferencesSurviveInsert(products, categories, nextCategoryId, Seed[i]);
          categories := categories[nextCategoryId := Seed[i]];
          nextCategoryId := nextCategoryId + 1;
          i := i + 1;
        }
        SeededNamesUnique(categories, start, |Seed|);
      }
    }

    /** `getCategories`: every category, ascending by name. */
    method GetCategories() returns (list: seq<Category>)
      requires Valid()
      ensures forall c :: c in list <==> c.id in categories && categories[c.id] == c.name
      ensures forall i, j :: 0 <= i < j < |list| ==> list[i].id != list[j].id
      ensures forall i, j :: 0 <= i < j < |list| ==> NameAtOrBefore(list[i].name, list[j].name)
    {
      list := [];
      var remaining := categories.Keys;
      while remaining != {}
        invariant CategoriesListed(categories, list, remaining)
        decreases remaining
      {
        // Witness that a remaining category with the least name exists, for the `:|` below.
        ghost var first := FirstByName(categories, remaining);
        var k :| k in remaining && forall j :: j in remaining ==> NameAtOrBefore(categories[k], categories[j]);
        CategoriesListedStep(categories, list, remaining, k);
        list := list + [Category(k, categories[k])];
        remaining := remaining - {k};
      }
    }

    /** `getProducts`: every product joined with its category's name, newest id first. */
    method GetProducts() returns (list: seq<ListedProduct>)
      requires Valid()
      ensures forall p :: p in list <==> p.id in products && p == Joined(categories, p.id, products[p.id])
      ensures forall i, j :: 0 <= i < j < |list| ==> list[i].id > list[j].id
      ensures forall i :: 0 <= i < |list| ==> list[i].categoryName.Some?
    {
      list := [];
      var remaining := products.Keys;
      while remaining != {}
        invariant ProductsListed(categories, products, list, remaining)
        decreases remaining
      {
        // Witness that a largest remaining id exists, for the `:|` below.
        ghost var largest := LargestId(remaining);
        var k :| k in remaining && forall j :: j in remaining ==> j <= k;
        ProductsListedStep(categories, products, list, remaining, k);
        list := list + [Joined(categories, k, products[k])];
        remaining := remaining - {k};
      }
      forall i | 0 <= i < |list| ensures list[i].categoryName.Some? {
        assert list[i] in list;
        JoinedFindsCategory(products, categories, list[i].id);
      }
    }

    /** `getProductById`: the row with that id, or null. */
    method GetProductById(id: int) returns (r: Option<Product>)
      ensures r.Some? <==> id in products
      ensures r.Some? ==> r.value.id == id && r.value.fields == products[id]
    {
      if id in products {
        r := Some(Product(id, products[id]));
      } else {
        r := None;
      }
    }

    /**
     * `createProduct`: insert one row under the next sequence value. The sequence advances
     * even when the insert then fails on the foreign key.
     */
    method CreateProduct(fields: ProductFields) returns (r: Result<Product>)
      requires Valid()
      modifies this
      ensures Valid()
      ensures categories == old(categories) && nextCategoryId == old(nextCategoryId)
      ensures nextProductId == old(nextProductId) + 1
      ensures old(nextProductId) !in old(products)
      ensures fields.categoryId in categories ==>
        && r == Ok(Product(old(nextProductId), fields))
        && products == old(products)[old(nextProductId) := fields]
      ensures fields.categoryId !in categories ==>
        r == Err(ForeignKeyViolationMessage) && products == old(products)
    {
      var id := nextProductId;
      nextProductId := nextProductId + 1;
      if fields.categoryId in categories {
        products := products[id := fields];
        r := Ok(Product(id, fields));
      } else {
        r := Err(ForeignKeyViolationMessage);
      }
    }

    /**
     * `updateProduct`: read the row, merge the patch over it, write it back. A missing id
     * gives `false`; a merged row whose category does not exist is refused by the database.
     */
    method UpdateProduct(id: int, patch: ProductPatch) returns (r: Result<bool>)
      requires Valid()
      modifies this
      ensures Valid()
      ensures categories == old(categories)
      ensures nextCategoryId == old(nextCategoryId) && nextProductId == old(nextProductId)
      ensures id !in old(products) ==> r == Ok(false) && products == old(products)
      ensures id in old(products) && Merge(old(products)[id], patch).categoryId in categories ==>
        r == Ok(true) && products == old(products)[id := Merge(old(products)[id], patch)]
      ensures id in old(products) && Merge(old(products)[id], patch).categoryId !in categories ==>
        r == Err(ForeignKeyViolationMessage) && products == old(products)
    {
      var current := GetProductById(id);
      if current.None? {
        return Ok(false);
      }
      var merged := Merge(current.value.fields, patch);
      if merged.categoryId !in categories {
        return Err(ForeignKeyViolationMessage);
      }
      products := products[id := merged];
      r := Ok(true);
    }

    /** `deleteProduct`: remove the row with that id, if any. */
    method DeleteProduct(id: int)
      requires Valid()
      modifies this
      ensures Valid()
      ensures products == old(products) - {id}
      ensures categories == old(categories)
      ensures nextCategoryId == old(nextCategoryId) && nextProductId == old(nextProductId)
    {
      products := products - {id};
    }

    /** `clearProducts`: empty the products table; categories stay. */
    method ClearProducts()
      requires Valid()
      modifies this
      ensures Valid()
      ensures products == map[]
      ensures categories == old(categories)
      ensures nextCategoryId == old(nextCategoryId) && nextProductId == old(nextProductId)
    {
      products := map[];
    }

    /**
     * `createCategory`: insert a name under the next sequence value; a name already in
     * use violates the UNIQUE constraint, reported with `DuplicateCategoryMessage`.
     */
    method CreateCategory(name: string) returns (r: Outcome)
      requires Valid()
      modifies this
      ensures Valid()
      ensures products == old(products) && nextProductId == old(nextProductId)
      ensures nextCategoryId == old(nextCategoryId) + 1
      ensures old(nextCategoryId) !in old(categories)
      ensures name in old(categories).Values ==>
        r == Failed(DuplicateCategoryMessage) && categories == old(categories)
      ensures name !in old(categories).Values ==>
        r == Done && categories == old(categories)[old(nextCategoryId) := name]
    {
      var id := nextCategoryId;
      nextCategoryId := nextCategoryId + 1;
      if name in categories.Values {
        r := Failed(DuplicateCategoryMessage);
      } else {
        categories := categories[id := name];
        r := Done;
      }
    }

    /**
     * `updateCategory`: `UPDATE ... WHERE id = id`. No row matches a missing id, which is
     * not an error; a name another category has violates the UNIQUE constraint.
     */
    method UpdateCategory(id: int, name: string) returns (r: Outcome)
      requires Valid()
      modifies this
      ensures Valid()
      ensures products == old(products)
      ensures nextCategoryId == old(nextCategoryId) && nextProductId == old(nextProductId)
      ensures id !in old(categories) ==> r == Done && categories == old(categories)
      ensures id in old(categories) ==>
        if exists other :: other in old(categories) && other != id && old(categories)[other] == name
        then r == Failed(UniqueViolationMessage) && categories == old(categories)
        else r == Done && categories == old(categories)[id := name]
    {
      if id !in categories {
        return Done;
      }
      if exists other :: other in categories && other != id && categories[other] == name {
        return Failed(UniqueViolationMessage);
      }
      categories := categories[id := name];
      r := Done;
    }

    /**
     * `deleteCategory`: count the products that reference the category; refuse when there
     * is at least one, otherwise delete it (a missing id deletes nothing and succeeds).
     */
    method DeleteCategory(id: int) returns (r: Outcome)
      requires Valid()
      modifies this
      ensures Valid()
      ensures products == old(products)
      ensures nextCategoryId == old(nextCategoryId) && nextProductId == old(nextProductId)
      ensures Referenced(old(products), id) ==>
        r == Failed(CategoryInUseMessage) && categories == old(categories)
      ensures !Referenced(old(products), id) ==>
        r == Done && categories == old(categories) - {id}
    {
      var referencing := set p | p in products && products[p].categoryId == id;
      if |referencing| > 0 {
        // Witness of the referencing product, so that `Referenced` holds.
        ghost var p := Pick(referencing);
        r := Failed(CategoryInUseMessage);
      } else {
        assert forall p :: p in products ==> products[p].categoryId != id by {
          forall p | p in products ensures products[p].categoryId != id {
            assert p in referencing <==> products[p].categoryId == id;
          }
        }
        categories := categories - {id};
        r := Done;
      }
    }
  }

  /**
   * A product created and then looked up by the id the insert returned comes back with
   * exactly the fields it was created with.
   */
  method CreateThenGet(db: Db, fields: ProductFields) returns (created: Result<Product>, fetched: Option<Product>)
    requires db.Valid() && fields.categoryId in db.categories
    modifies db
    ensures db.Valid()
    ensures created.Ok? && fetched == Some(created.value)
    ensures created.value.fields == fields && created.value.id !in old(db.products)
  {
    created := db.CreateProduct(fields);
    fetched := db.GetProductById(created.value.id);
  }
}
