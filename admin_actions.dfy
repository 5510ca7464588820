/**
 * The server actions of the admin dashboard (`app/admin/actions.ts`): they turn a submitted
 * form into calls on the catalog store and on the blob store that keeps product images.
 * The blob service is outside the model; what it answers to each call is a parameter of the
 * action, and a `BlobStore` object records which urls it holds and which calls it received.
 */
module AdminActions {
  import opened Common
  import opened CatalogStore

  /** A call made on the blob service, in the order the action makes them. */
  datatype BlobCall = PutCall(pathname: string) | DelCall(url: string)

  /** What the service answers to `put`: the public url of the stored file, or an error. */
  datatype PutResponse = Stored(url: string) | PutFailed(message: string)

  /** What the service answers to `del`. */
  datatype DelResponse = Removed | DelFailed(message: string)

  /** The urls the store holds after a `put` answered by `response`. */
  function AfterPut(urls: set<string>, response: PutResponse): (r: set<string>)
    ensures urls <= r
    ensures response.Stored? ==> response.url in r
    ensures r - urls <= (if response.Stored? then {response.url} else {})
  {
    if response.Stored? then urls + {response.url} else urls
  }

  /** The urls the store holds after a `del` of `url` answered by `response`. */
  function AfterDel(urls: set<string>, url: string, response: DelResponse): (r: set<string>)
    ensures r <= urls
    ensures response.Removed? ==> url !in r
    ensures urls - r <= {url}
  {
    if response.Removed? then urls - {url} else urls
  }

  class BlobStore {
    /** The urls of the files the service currently serves. */
    var urls: set<string>
    /** Every call the service has received. */
    ghost var calls: seq<BlobCall>

    constructor (initial: set<string>)
      ensures urls == initial && calls == []
    {
      urls := initial;
      calls := [];
    }

    /** `put(pathname, file, { access: 'public' })`: store a file and return its url, or throw. */
    method Put(pathname: string, response: PutResponse) returns (r: Result<string>)
      modifies this
      ensures calls == old(calls) + [PutCall(pathname)]
      ensures urls == AfterPut(old(urls), response)
      ensures response.Stored? ==> r == Ok(response.url)
      ensures response.PutFailed? ==> r == Err(response.message)
    {
      calls := calls + [PutCall(pathname)];
      match response
      case Stored(url) =>
        urls := urls + {url};
        r := Ok(url);
      case PutFailed(message) =>
        r := Err(message);
    }

    /** `del(url)`: remove the file at that url, or throw. */
    method Del(url: string, response: DelResponse) returns (r: Outcome)
      modifies this
      ensures calls == old(calls) + [DelCall(url)]
      ensures urls == AfterDel(old(urls), url, response)
      ensures response.Removed? ==> r == Done
      ensures response.DelFailed? ==> r == Failed(response.message)
    {
      calls := calls + [DelCall(url)];
      match response
      case Removed =>
        urls := urls - {url};
        r := Done;
      case DelFailed(message) =>
        r := Failed(message);
    }
  }

  /** The file input of the product form; when nothing is chosen it is an empty file. */
  datatype Image = Image(name: string, size: int)

  /**
   * The product form as the actions read it. `price`, `categoryId` and `stock` are what
   * `parseFloat` and `parseInt` make of their fields; `stock` is `None` when `parseInt`
   * gives NaN.
   */
  datatype ProductForm = ProductForm(
    name: string,
    description: string,
    price: int,
    categoryId: int,
    corCodigo: string,
    stock: Option<int>,
    image: Image)

  /** `parseInt(stock) || 0`: NaN and 0 are both falsy and give 0. */
  function StockValue(parsed: Option<int>): (s: int)
    ensures s == 0 <==> parsed.None? || parsed.value == 0
    ensures s != 0 ==> parsed == Some(s)
  {
    match parsed
    case Some(v) => if v != 0 then v else 0
    case None => 0
  }

  /** `image && image.size > 0`: a file was chosen. */
  predicate HasUpload(image: Image): (r: bool)
    ensures r ==> image.size >= 1
  {
    image.size > 0
  }

  /** `path && path.startsWith('http')`: the stored path is a blob url rather than empty or local. */
  predicate IsRemoteUrl(path: string): (r: bool)
    ensures r <==> StartsWith(path, "http")
  {
    path != "" && StartsWith(path, "http")
  }

  /** The row `createProduct` inserts: no variations, the code as typed, the stock defaulted. */
  function CreatedFields(form: ProductForm, imagePath: string): (f: ProductFields)
    ensures f.imagePath == imagePath && f.categoryId == form.categoryId
    ensures f.corCodigo == Some(form.corCodigo) && f.variations.None? && f.stock.Some?
  {
    ProductFields(form.name, form.description, form.price, form.categoryId, imagePath,
                  Some(form.corCodigo), None, Some(StockValue(form.stock)))
  }

  /** The patch `updateProduct` sends: every column but `variations` is supplied. */
  function UpdatePatch(form: ProductForm, imagePath: string): (p: ProductPatch)
    ensures p.variations.None? && p.imagePath == Some(imagePath)
    ensures p.name == Some(form.name) && p.description == Some(form.description)
    ensures p.price == Some(form.price) && p.categoryId == Some(form.categoryId)
    ensures p.corCodigo == Some(form.corCodigo) && p.stock == Some(StockValue(form.stock))
  {
    ProductPatch(Some(form.name), Some(form.description), Some(form.price), Some(form.categoryId),
                 Some(imagePath), Some(form.corCodigo), None, Some(StockValue(form.stock)))
  }

  /** The image path a product form ends up with: the new upload's url, or `otherwise`. */
  function ResultingPath(form: ProductForm, response: PutResponse, otherwise: string): (r: string)
    ensures r != otherwise ==> HasUpload(form.image) && response == Stored(r)
    ensures HasUpload(form.image) && response.Stored? ==> r == response.url
    ensures !HasUpload(form.image) || response.PutFailed? ==> r == otherwise
  {
    if HasUpload(form.image) && response.Stored? then response.url else otherwise
  }

  /**
   * Updating a row with the product form overwrites every column from the form and keeps
   * only the row's variations; in particular a stock left empty becomes 0, not the old stock.
   */
  lemma UpdateRewritesRow(current: ProductFields, form: ProductForm, imagePath: string)
    ensures Merge(current, UpdatePatch(form, imagePath))
         == CreatedFields(form, imagePath).(variations := current.variations)
    ensures form.stock.None? ==> Merge(current, UpdatePatch(form, imagePath)).stock == Some(0)
  {
    MergeFieldwise(current, UpdatePatch(form, imagePath));
  }

  /**
   * `createProduct`: upload the chosen image, then insert the row. A failed upload throws
   * before the insert; an insert refused by the database throws after the upload, and the
   * uploaded file stays in the blob store with no row pointing at it.
   */
  method CreateProduct(db: Db, blobs: BlobStore, form: ProductForm, put: PutResponse)
    returns (r: Outcome)
    requires db.Valid()
    modifies db, blobs
    ensures db.Valid()
    ensures db.categories == old(db.categories) && db.nextCategoryId == old(db.nextCategoryId)
    ensures HasUpload(form.image) ==>
      blobs.calls == old(blobs.calls) + [PutCall(form.image.name)] && blobs.urls == AfterPut(old(blobs.urls), put)
    ensures !HasUpload(form.image) ==> blobs.calls == old(blobs.calls) && blobs.urls == old(blobs.urls)
    ensures HasUpload(form.image) && put.PutFailed? ==>
      && r == Failed(put.message)
      && db.products == old(db.products) && db.nextProductId == old(db.nextProductId)
    ensures !(HasUpload(form.image) && put.PutFailed?) ==>
      var fields := CreatedFields(form, ResultingPath(form, put, ""));
      && db.nextProductId == old(db.nextProductId) + 1
      && (form.categoryId in db.categories ==>
            r == Done && db.products == old(db.products)[old(db.nextProductId) := fields])
      && (form.categoryId !in db.categories ==>
            r == Failed(ForeignKeyViolationMessage) && db.products == old(db.products))
    ensures HasUpload(form.image) && put.Stored? && r.Failed? ==>
      put.url in blobs.urls && !exists id :: id in db.products && db.products[id].imagePath == put.url && id !in old(db.products)
  {
    var imagePath := "";
    if HasUpload(form.image) {
      var blob := blobs.Put(form.image.name, put);
      if blob.Err? {
        return Failed(blob.message);
      }
      imagePath := blob.value;
    }
    var created := db.CreateProduct(CreatedFields(form, imagePath));
    if created.Err? {
      return Failed(created.message);
    }
    r := Done;
  }

  /**
   * `updateProduct`: with a new image chosen, first delete the old one when it is a blob
   * url (a failed delete is only logged), then upload the new one (a failed upload throws
   * before the row changes). The row is then merged with the form; the store's `false`
   * for a missing id is ignored.
   */
  method UpdateProduct(db: Db, blobs: BlobStore, id: int, form: ProductForm, currentImagePath: string,
                       put: PutResponse, del: DelResponse)
    returns (r: Outcome)
    requires db.Valid()
    modifies db, blobs
    ensures db.Valid()
    ensures db.categories == old(db.categories)
    ensures db.nextCategoryId == old(db.nextCategoryId) && db.nextProductId == old(db.nextProductId)
    ensures !HasUpload(form.image) ==> blobs.calls == old(blobs.calls) && blobs.urls == old(blobs.urls)
    ensures HasUpload(form.image) && IsRemoteUrl(currentImagePath) ==>
      && blobs.calls == old(blobs.calls) + [DelCall(currentImagePath), PutCall(form.image.name)]
      && blobs.urls == AfterPut(AfterDel(old(blobs.urls), currentImagePath, del), put)
    ensures HasUpload(form.image) && !IsRemoteUrl(currentImagePath) ==>
      && blobs.calls == old(blobs.calls) + [PutCall(form.image.name)]
      && blobs.urls == AfterPut(old(blobs.urls), put)
    ensures HasUpload(form.image) && put.PutFailed? ==>
      r == Failed(put.message) && db.products == old(db.products)
    ensures HasUpload(form.image) && IsRemoteUrl(currentImagePath) && del.Removed? && put.PutFailed? ==>
      currentImagePath !in blobs.urls
    ensures !(HasUpload(form.image) && put.PutFailed?) ==>
      var patch := UpdatePatch(form, ResultingPath(form, put, currentImagePath));
      && (id !in old(db.products) ==> r == Done && db.products == old(db.products))
      && (id in old(db.products) && Merge(old(db.products)[id], patch).categoryId in db.categories ==>
            r == Done && db.products == old(db.products)[id := Merge(old(db.products)[id], patch)])
      && (id in old(db.products) && Merge(old(db.products)[id], patch).categoryId !in db.categories ==>
            r == Failed(ForeignKeyViolationMessage) && db.products == old(db.products))
  {
    var imagePath := currentImagePath;
    if HasUpload(form.image) {
      if IsRemoteUrl(imagePath) {
        // The delete's outcome is only logged.
        var _ := blobs.Del(imagePath, del);
      }
      var blob := blobs.Put(form.image.name, put);
      if blob.Err? {
        return Failed(blob.message);
      }
      imagePath := blob.value;
    }
    var updated := db.UpdateProduct(id, UpdatePatch(form, imagePath));
    if updated.Err? {
      return Failed(updated.message);
    }
    r := Done;
  }

  /**
   * `deleteProduct`: delete the image when it is a blob url (a failed delete is only
   * logged), then delete the row whatever the delete answered.
   */
  method DeleteProduct(db: Db, blobs: BlobStore, id: int, imagePath: string, del: DelResponse)
    requires db.Valid()
    modifies db, blobs
    ensures db.Valid()
    ensures db.products == old(db.products) - {id}
    ensures db.categories == old(db.categories)
    ensures db.nextCategoryId == old(db.nextCategoryId) && db.nextProductId == old(db.nextProductId)
    ensures IsRemoteUrl(imagePath) ==>
      blobs.calls == old(blobs.calls) + [DelCall(imagePath)] && blobs.urls == AfterDel(old(blobs.urls), imagePath, del)
    ensures !IsRemoteUrl(imagePath) ==> blobs.calls == old(blobs.calls) && blobs.urls == old(blobs.urls)
  {
    if IsRemoteUrl(imagePath) {
      // The delete's outcome is only logged.
      var _ := blobs.Del(imagePath, del);
    }
    db.DeleteProduct(id);
  }

  /** What the category actions return to the dashboard: `{ success: true }` or `{ error }`. */
  datatype ActionResult = Success | Error(message: string)

  /** The message `updateCategory` reports for any failure. */
  const UpdateCategoryError := "Erro ao atualizar categoria"

  /** `createCategory`: the store's error message is passed on. */
  method CreateCategory(db: Db, name: string) returns (r: ActionResult)
    requires db.Valid()
    modifies db
    ensures db.Valid()
    ensures db.products == old(db.products) && db.nextProductId == old(db.nextProductId)
    ensures db.nextCategoryId == old(db.nextCategoryId) + 1
    ensures name in old(db.categories).Values ==>
      r == Error(DuplicateCategoryMessage) && db.categories == old(db.categories)
    ensures name !in old(db.categories).Values ==>
      r == Success && db.categories == old(db.categories)[old(db.nextCategoryId) := name]
  {
    var outcome := db.CreateCategory(name);
    r := if outcome.Failed? then Error(outcome.message) else Success;
  }

  /** `updateCategory`: every failure is reported with one fixed message. */
  method UpdateCategory(db: Db, id: int, name: string) returns (r: ActionResult)
    requires db.Valid()
    modifies db
    ensures db.Valid()
    ensures db.products == old(db.products)
    ensures db.nextCategoryId == old(db.nextCategoryId) && db.nextProductId == old(db.nextProductId)
    ensures r.Error? ==> r.message == UpdateCategoryError && db.categories == old(db.categories)
    ensures r.Error? <==>
      id in old(db.categories) &&
      exists other :: other in old(db.categories) && other != id && old(db.categories)[other] == name
    ensures r.Success? && id in old(db.categories) ==> db.categories == old(db.categories)[id := name]
    ensures id !in old(db.categories) ==> db.categories == old(db.categories)
  {
    var outcome := db.UpdateCategory(id, name);
    r := if outcome.Failed? then Error(UpdateCategoryError) else Success;
  }

  /** `deleteCategory`: the store's refusal message is passed on. */
  method DeleteCategory(db: Db, id: int) returns (r: ActionResult)
    requires db.Valid()
    modifies db
    ensures db.Valid()
    ensures db.products == old(db.products)
    ensures db.nextCategoryId == old(db.nextCategoryId) && db.nextProductId == old(db.nextProductId)
    ensures Referenced(old(db.products), id) ==>
      r == Error(CategoryInUseMessage) && db.categories == old(db.categories)
    ensures !Referenced(old(db.products), id) ==>
      r == Success && db.categories == old(db.categories) - {id}
  {
    var outcome := db.DeleteCategory(id);
    r := if outcome.Failed? then Error(outcome.message) else Success;
  }
}
