# Catalog store, admin actions and quote link of the Multkits catalog

This project is a Dafny model of the logic under the catalog web application. It has three parts:

- **The catalog store** (`lib/db.ts`). Its two Postgres tables, `categories` and `products`, are
  held as maps from id to row in a `Db` object. The object also holds one SERIAL counter per
  table. Each SQL statement is one state change. The schema's constraints are the object
  invariant: category names are unique, and a product's `category_id` names an existing category.
  A statement that would break them fails the way Postgres makes it fail. A failed `INSERT`
  still uses up its sequence value.
- **The admin actions** (`app/admin/actions.ts`). These are the server actions that create,
  update and delete products and categories. The blob store for product images is a
  `BlobStore` object: the set of urls it serves, plus a log of the calls made on it. Each action
  takes as parameters the answers the blob service gives to its `put` and `del` calls (a url or
  an error). The contracts state the order of the calls, which failures are swallowed, and what
  the catalog then holds.
- **The cart summary** of the catalog header (`app/catalogo/components/Header.tsx`). This is the
  item count shown on the cart badge and the WhatsApp link asking for a quote. The message is
  specified by a function over the cart. The `forEach` loop that builds it is a method proved
  against that function. `encodeURIComponent` is a concrete UTF-8 percent-encoder, as in the
  `encodeURIComponent` function of ECMA-262 and section 2.1 of RFC 3986. A decoder
  (`decodeURIComponent`) comes with it, and the round trip is proved, so the link provably
  carries the message.

Modules: `Common` (Option, Result, Outcome, `??`), `Orders` (the two `ORDER BY` orders),
`CatalogStore`, `AdminActions`, `PercentEncoding`, `QuoteMessage`.

**Text in `lib/db.ts`.** The accented string literals in `lib/db.ts` (lines 48, 49, 139, 153)
are stored double-encoded: UTF-8 text that was read as Windows-1250 and saved again. For
example, "Rodízios" is written there as `Rod` U+0102 U+00AD `zios`, and "Categoria já existe"
as `Categoria j` U+0102 U+02C7 ` existe`. The program inserts and throws exactly those strings,
so the model's constants (`CatalogStore.Seed`, `DuplicateCategoryMessage`,
`CategoryInUseMessage`) spell them character for character as the file does.

## Model

| member | source | states |
|---|---|---|
| Orders.NameAtOrBefore | lib/db.ts:58 | the `ORDER BY name` comparison: a prefix sorts at or before any longer name, and a name sorting first never starts with a later character |
| Orders.NameOrderReflexive | lib/db.ts:58 | every name sorts at or before itself |
| Orders.NameOrderTotal | lib/db.ts:58 | `ORDER BY name` can compare any two names |
| Orders.NameOrderAntisymmetric | lib/db.ts:58 | two names that each sort at or before the other are equal |
| Orders.NameOrderTransitive | lib/db.ts:58 | the name order is transitive |
| Orders.FirstByName | lib/db.ts:58 | among a non-empty set of categories, one whose name sorts at or before all the others' |
| Orders.LargestId | lib/db.ts:67 | a non-empty set of ids has a largest member, the next row of `ORDER BY id DESC` |
| CatalogStore.Db.Valid | lib/db.ts:24-42 | the schema invariant: ids lie between 1 and below their SERIAL sequence values, category names are unique, every product's category id resolves; every operation of `Db` requires and preserves it |
| CatalogStore.Referenced | lib/db.ts:151-152 | some product row has that category id |
| CatalogStore.ReferencedIffCounted | lib/db.ts:151-152 | the `count(*)` of referencing products is positive exactly when the category is referenced |
| CatalogStore.SeedNamesDistinct | lib/db.ts:47-50 | the eleven seed names are pairwise distinct |
| CatalogStore.SeededNamesUnique | lib/db.ts:27 | a table holding a prefix of the seed list satisfies the UNIQUE constraint on `name` |
| CatalogStore.Merge | lib/db.ts:95-102 | the `??` merge: every column either keeps the current value or takes the value the update supplies |
| CatalogStore.MergeNoChanges | lib/db.ts:95-102 | an update that supplies nothing leaves the row as it was |
| CatalogStore.MergeFieldwise | lib/db.ts:95-102 | for each column, a supplied value wins (`""` and `0` included) and a null or undefined one keeps the current value |
| CatalogStore.MergeIdempotent | lib/db.ts:95-102 | merging the same update twice equals merging it once |
| CatalogStore.MergePatchOf | lib/db.ts:95-102 | writing a whole row back reproduces it exactly when no nullable column goes from a value to null, in both directions: `??` cannot clear a column |
| CatalogStore.ReferencesSurviveInsert | lib/db.ts:36 | inserting a category keeps every product's `category_id` reference valid |
| CatalogStore.Joined | lib/db.ts:64-66 | one LEFT JOIN row: the product's id and columns, with a category name exactly when the category id resolves, and then that category's name |
| CatalogStore.JoinedFindsCategory | lib/db.ts:64-66 | with the foreign key in force, the LEFT JOIN finds the product's category and its name |
| CatalogStore.Db.constructor | lib/db.ts:24-42 | freshly created tables are empty, with both sequences at 1, and satisfy the invariant |
| CatalogStore.Db.Init | lib/db.ts:44-54 | an empty `categories` table receives the seed names in order under consecutive ids; a non-empty one is left alone; products are never touched |
| CatalogStore.Db.GetCategories | lib/db.ts:57-60 | the result lists exactly the categories, each once, in ascending name order |
| CatalogStore.Db.GetProducts | lib/db.ts:62-75 | the result lists exactly the products, each joined with its category's name, in strictly descending id order; every name is present |
| CatalogStore.CategoriesListedStep | lib/db.ts:57-60 | taking the remaining category with the least name keeps the listing sorted, duplicate-free and exact |
| CatalogStore.ProductsListedStep | lib/db.ts:62-75 | taking the largest remaining id keeps the listing in descending order and exact |
| CatalogStore.Db.GetProductById | lib/db.ts:114-124 | the row with that id when it exists, null otherwise |
| CatalogStore.Db.CreateProduct | lib/db.ts:77-85 | the sequence advances; a product whose category exists is added under a fresh id with exactly the given fields, leaving other rows untouched; otherwise the foreign-key error and no change |
| CatalogStore.Db.UpdateProduct | lib/db.ts:87-112 | a missing id gives `false` and no change; otherwise only that row becomes the `??` merge and the result is `true`, unless the merged category is missing (foreign-key error, no change) |
| CatalogStore.Db.DeleteProduct | lib/db.ts:126-128 | removes exactly that id; categories are unchanged |
| CatalogStore.Db.ClearProducts | lib/db.ts:130-132 | empties products and leaves categories intact |
| CatalogStore.Db.CreateCategory | lib/db.ts:134-143 | the sequence advances; a name already present fails with the "Categoria já existe" message and no change; otherwise exactly one category is added |
| CatalogStore.Db.UpdateCategory | lib/db.ts:145-147 | a missing id changes nothing and succeeds; a name held by another category is a unique violation with no change; otherwise only that category is renamed |
| CatalogStore.Db.DeleteCategory | lib/db.ts:149-156 | fails with the in-use message and keeps the category when some product references it; otherwise removes exactly that id (a missing id succeeds) |
| CatalogStore.CreateThenGet | lib/db.ts:114-124 | a product created under an existing category is then found by the returned id with exactly the fields it was created with |
| PercentEncoding.EncodeURIComponent | app/catalogo/components/Header.tsx:43 | `encodeURIComponent`: the output is never shorter than the input, so only the empty string encodes to the empty string |
| PercentEncoding.EncodeIsUrlSafe | app/catalogo/components/Header.tsx:43 | `encodeURIComponent` output holds only unreserved characters and `%` |
| PercentEncoding.DecodeEncode | app/catalogo/components/Header.tsx:43 | decoding the encoding of any string gives the string back |
| PercentEncoding.EncodeUnreservedIsIdentity | app/catalogo/components/Header.tsx:43 | a string of unreserved characters encodes to itself |
| PercentEncoding.EncodeAppend | app/catalogo/components/Header.tsx:43 | encoding works character by character: the encoding of `a + b` is the encoding of `a` followed by that of `b` |
| QuoteMessage.CountFrom | app/catalogo/components/Header.tsx:26 | the `reduce` from `acc`: with non-negative quantities the result never drops below `acc` |
| QuoteMessage.CartCount | app/catalogo/components/Header.tsx:26 | `cartCount`: with non-negative quantities the badge is never negative |
| QuoteMessage.CountFromOffset | app/catalogo/components/Header.tsx:26 | starting the `reduce` at `acc` adds `acc` to the cart count |
| QuoteMessage.CartCountBase | app/catalogo/components/Header.tsx:26 | the empty cart counts 0; a one-item cart counts its quantity |
| QuoteMessage.CartCountAppend | app/catalogo/components/Header.tsx:26 | the count of two carts put together is the sum of their counts |
| QuoteMessage.CartCountAtLeastLength | app/catalogo/components/Header.tsx:26 | with positive quantities, the badge shows at least as many units as there are cart entries |
| QuoteMessage.IntToDecimal | app/catalogo/components/Header.tsx:36 | `${item.quantity}`: a non-empty rendering that starts with a minus sign exactly when the quantity is negative |
| QuoteMessage.DecimalRoundTrip | app/catalogo/components/Header.tsx:36 | the rendered quantity reads back as the number |
| QuoteMessage.NatToDecimalDigits | app/catalogo/components/Header.tsx:36 | the rendered quantity is digits only, with no leading zero |
| QuoteMessage.IntToDecimalOneLine | app/catalogo/components/Header.tsx:36 | a rendered quantity holds no newline |
| QuoteMessage.HasCode | app/catalogo/components/Header.tsx:37 | `if (item.corCodigo)`: a code is shown only when present and non-empty; an empty code is falsy |
| QuoteMessage.ItemLine | app/catalogo/components/Header.tsx:36-40 | one entry's text starts with the bullet `* ` |
| QuoteMessage.ItemLines | app/catalogo/components/Header.tsx:35-41 | the lines of a cart hold at least two characters per entry, so every entry contributes text |
| QuoteMessage.Message | app/catalogo/components/Header.tsx:34-41 | the message starts with the greeting and has more than the greeting exactly when the cart is non-empty |
| QuoteMessage.QuoteLink | app/catalogo/components/Header.tsx:28-44 | `whatsappLink` as a value: on both branches the link starts with the fixed `wa.me` prefix and carries text after it |
| QuoteMessage.LineAppended | app/catalogo/components/Header.tsx:36-40 | the three appends of one iteration add exactly the entry's line, with the code only when it is non-empty |
| QuoteMessage.ItemLinesSnoc | app/catalogo/components/Header.tsx:35-41 | one more entry appends exactly its line to the message body |
| QuoteMessage.WhatsappLink | app/catalogo/components/Header.tsx:28-44 | the loop-built link equals the specified link of the cart |
| QuoteMessage.ItemLinesAppend | app/catalogo/components/Header.tsx:35-41 | the lines of two carts put together are the lines of each, in order |
| QuoteMessage.ItemLinesAt | app/catalogo/components/Header.tsx:35-41 | entry k's line sits after the lines of the entries before it and before those after it |
| QuoteMessage.QuoteLinkEmptyCart | app/catalogo/components/Header.tsx:29-32 | the empty cart yields exactly the fixed link followed by the default text, left unencoded |
| QuoteMessage.EmptyCartLinkIsDistinct | app/catalogo/components/Header.tsx:29-32 | the empty cart's link carries a raw space, which no encoded text does, so it differs from every non-empty cart's link |
| QuoteMessage.ItemLineEndsLine | app/catalogo/components/Header.tsx:36-40 | every entry's line is non-empty and ends with a newline |
| QuoteMessage.QuoteLinkCarriesMessage | app/catalogo/components/Header.tsx:43 | a non-empty cart's link is the fixed prefix followed by a URL-safe text that decodes to the message |
| QuoteMessage.MessageShape | app/catalogo/components/Header.tsx:34-41 | a non-empty cart's message starts with the greeting header and ends with a newline |
| QuoteMessage.ItemLineIsOneLine | app/catalogo/components/Header.tsx:36-40 | an entry without newlines in its name or code adds exactly one newline |
| QuoteMessage.ItemLinesCount | app/catalogo/components/Header.tsx:35-41 | no aggregation: the item lines hold one newline per cart entry, repeated names included |
| QuoteMessage.QuoteLinkIgnoresIdAndPrice | app/catalogo/components/Header.tsx:28-44 | carts that agree on names, codes and quantities give the same lines and link, whatever their ids and prices |
| QuoteMessage.TwoItemExample | app/catalogo/components/Header.tsx:34-41 | a two-entry cart gives its lines in cart order, with a code only where one is given |
| AdminActions.AfterPut | app/admin/actions.ts:37-40 | a successful `put` adds its url and nothing else; a failed one changes nothing |
| AdminActions.AfterDel | app/admin/actions.ts:72 | a successful `del` removes that url and nothing else; a failed one changes nothing |
| AdminActions.BlobStore.Put | app/admin/actions.ts:37-40 | logs one `put` call, returns the url or the error, and updates the urls accordingly |
| AdminActions.BlobStore.Del | app/admin/actions.ts:72 | logs one `del` call, reports the outcome, and updates the urls accordingly |
| AdminActions.StockValue | app/admin/actions.ts:50 | the stock falls back to 0: 0 exactly when the parse is NaN or 0, the parsed value otherwise |
| AdminActions.HasUpload | app/admin/actions.ts:36 | `image && image.size > 0`, the test of both lines 36 and 68: an upload has at least one byte |
| AdminActions.IsRemoteUrl | app/admin/actions.ts:70 | `image_path && image_path.startsWith('http')`, the test of both lines 70 and 99: holds exactly when the path starts with "http", so the emptiness test adds nothing |
| AdminActions.ResultingPath | app/admin/actions.ts:34-41 | the image path after the upload step of lines 34-41 and 66-82: it is the url `put` returned when a file was chosen and stored, and the path already held otherwise |
| AdminActions.CreatedFields | app/admin/actions.ts:43-51 | the inserted row carries the given image path, category and code, has no variations, and always has a stock |
| AdminActions.UpdatePatch | app/admin/actions.ts:84-92 | the update supplies every column from the form (the image path given, the stock defaulted) and leaves only `variations` unsupplied |
| AdminActions.UpdateRewritesRow | app/admin/actions.ts:84-92 | the update overwrites every column from the form and keeps only the row's variations; an empty stock becomes 0 |
| AdminActions.CreateProduct | app/admin/actions.ts:26-55 | `put` is called exactly when an image of size > 0 is given; a failed upload creates no row; otherwise one row with image path `""` or the uploaded url; a refused insert leaves the uploaded url stored with no new row pointing at it |
| AdminActions.UpdateProduct | app/admin/actions.ts:57-96 | with no new image there are no blob calls and the current path is passed through; with one, `del` of the old path only when it starts with "http", before exactly one `put`; a failed `del` is swallowed; a failed `put` leaves the row unchanged, although the old file may already be gone; otherwise the row becomes the merge and `false` for a missing id is ignored |
| AdminActions.DeleteProduct | app/admin/actions.ts:98-110 | `del` is attempted only for "http" paths; the row is removed whatever `del` answered |
| AdminActions.CreateCategory | app/admin/actions.ts:112-122 | success adds the category; a duplicate returns the store's error message with no change |
| AdminActions.UpdateCategory | app/admin/actions.ts:124-135 | fails, with the fixed message "Erro ao atualizar categoria" and no change, exactly when another category has the name; otherwise succeeds |
| AdminActions.DeleteCategory | app/admin/actions.ts:137-146 | a referenced category returns the in-use message with no change; otherwise success and the category is removed |

## Left out

- `login` and `logout` (app/admin/actions.ts:9-24): cookies, redirects and the static password are framework plumbing, not catalog logic.
- `revalidatePath` calls and `console.error` logging: cache invalidation and logging change nothing the model holds.
- The SQL text and `CREATE TABLE IF NOT EXISTS`: the tables are state that always exists. `Db.constructor` stands for freshly created, empty tables.
- Prices are integers. `parseFloat`, `DECIMAL(10, 2)` rounding and `Number(row.price)` are floating-point conversions and are not modelled.
- `parseInt` and `parseFloat` themselves: the actions receive their results (`ProductForm.stock` is `None` for NaN). A NaN `id` or `category_id` is not represented.
- `JSON.stringify` of `variations`, and `row.variations || undefined` on reads: variations are an `Option` held as is.
- `CatalogStore.Db.CreateProduct` returns the created product as id and fields. The raw `RETURNING *` row (snake_case `cor_codigo`, price as text) is not modelled.
- `description`, `category_id` and `image_path` (lib/db.ts:34, 36, 37) are nullable columns, but `ProductFields` holds them as plain values, because every caller supplies all three: the actions always pass the form's text and a parsed number. Hence a product with a NULL `category_id` cannot occur in the model, nor can the LEFT JOIN's missing category name for such a row (lib/db.ts:66); `CatalogStore.Db.GetProducts` promises a name for every row only under this assumption.
- Database errors other than the UNIQUE and foreign-key violations (lost connections, NOT NULL violations) are not modelled. The dashboard form always sends every text field.
- Concurrency: the check-then-delete of `deleteCategory` and the read-modify-write of `updateProduct` are modelled as single sequential calls.
- Orders.NameAtOrBefore: category names are ordered by code point, a binary collation. The database's configured collation may order accented names differently.
- The blob service's internals (how a url is made from a pathname, the random suffix): each answer is a parameter of the action.
- `PercentEncoding.EncodeURIComponent`: strings are sequences of Unicode scalar values. A JavaScript string holding a lone UTF-16 surrogate, on which `encodeURIComponent` throws, cannot be represented.
- QuoteMessage.CartCount: quantities are unbounded integers and the count is their exact sum. JavaScript adds doubles, which round once a running total passes 2^53, so `CartCountAppend` describes the program only below that bound.
- `QuoteMessage.IntToDecimal`: quantities render as integers. Fractional quantities and numbers at or above 1e21, which JavaScript prints differently, are not modelled.
- The header's search box, menu toggling and markup, and the React UI files (dashboard, login form, pages): UI state, not logic.
