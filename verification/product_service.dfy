/**
 * `ProductServiceImpl`: inserting a product under an existing category,
 * editing its catalogue fields, switching its verification flag, deleting it
 * together with its image files, and the category id list the
 * parent-category listing queries.
 */
module ProductService {
  import opened Wrappers
  import opened Store
  import opened Errors
  import opened JavaText
  import CS = CategoryService

  type ProductId = int

  /** A product row; `category` is the id of its (mandatory) category, `icons` that of its icon set. */
  datatype Product = Product(
    id: ProductId,
    title: string,
    description: string,
    purchasPrice: int,
    sellingPrice: int,
    discountPercentage: int,
    isVerified: bool,
    quantity: int,
    color: string,
    category: CS.CategoryId,
    viewsCounter: int,
    searchCounter: int,
    images: seq<string>,
    imagesDetails: seq<string>,
    icons: Option<int>)

  type Products = seq<Product>

  /** The fields of `ProductDto` the service reads; a null list is `None`. */
  datatype ProductDto = ProductDto(
    id: Option<ProductId>,
    title: string,
    description: string,
    purchasPrice: int,
    sellingPrice: int,
    discountPercentage: int,
    quantity: int,
    color: string,
    categoryId: CS.CategoryId,
    viewsCounter: int,
    searchCounter: int,
    images: Option<seq<string>>,
    isVerified: bool,
    iconsId: Option<int>,
    imagesDetails: Option<seq<string>>)

  function WithId(id: ProductId): Product -> bool {
    (p: Product) => p.id == id
  }

  /** `findById` */
  function FindById(ps: Products, id: ProductId): (r: Option<Product>)
    ensures r.None? <==> forall i :: 0 <= i < |ps| ==> ps[i].id != id
    ensures r.Some? ==> r.value in ps && r.value.id == id
  {
    Find(ps, WithId(id))
  }

  function ListOrEmpty(l: Option<seq<string>>): seq<string> {
    if l.Some? then l.value else []
  }

  /** No two products share an id: the primary key. */
  predicate UniqueIds(ps: Products) {
    forall i, j :: 0 <= i < j < |ps| ==> ps[i].id != ps[j].id
  }

  const CategoryNotFoundMessage: string := "Category not found"
  const IconsNotFoundMessage: string := "Icons not found"

  /**
   * `insert`: the category must exist, and so must the icon set when one is
   * named; the DTO's id is discarded and the database generates a new one
   * (`generated`); uploaded images and detail images (the stored names of the
   * uploaded files, one per file) replace the DTO's lists when there are any.
   */
  function Insert(ps: Products, cats: CS.Categories, iconIds: set<int>, dto: ProductDto,
                  imageNames: seq<string>, detailNames: seq<string>, generated: ProductId)
    : (r: Result<(Products, Product), Exception>)
    requires forall k :: 0 <= k < |ps| ==> ps[k].id != generated
    ensures CS.FindById(cats, dto.categoryId).None? <==> r == Err(Runtime(CategoryNotFoundMessage))
    ensures CS.FindById(cats, dto.categoryId).Some? && dto.iconsId.Some? && dto.iconsId.value !in iconIds ==>
      r == Err(Runtime(IconsNotFoundMessage))
    ensures r.Ok? <==> CS.FindById(cats, dto.categoryId).Some? && (dto.iconsId.Some? ==> dto.iconsId.value in iconIds)
    ensures r.Ok? ==> var p := r.value.1;
      r.value.0 == ps + [p] && p.id == generated && p.category == dto.categoryId && p.icons == dto.iconsId &&
      p.title == dto.title && p.description == dto.description && p.purchasPrice == dto.purchasPrice &&
      p.sellingPrice == dto.sellingPrice && p.discountPercentage == dto.discountPercentage &&
      p.quantity == dto.quantity && p.color == dto.color && p.isVerified == dto.isVerified &&
      p.viewsCounter == dto.viewsCounter && p.searchCounter == dto.searchCounter &&
      (|imageNames| == 0 ==> p.images == ListOrEmpty(dto.images)) &&
      (|imageNames| > 0 ==>
        |p.images| == |imageNames| && forall i :: 0 <= i < |imageNames| ==> p.images[i] == CS.FileUrl(imageNames[i])) &&
      (|detailNames| == 0 ==> p.imagesDetails == ListOrEmpty(dto.imagesDetails)) &&
      (|detailNames| > 0 ==>
        |p.imagesDetails| == |detailNames| && forall i :: 0 <= i < |detailNames| ==> p.imagesDetails[i] == CS.FileUrl(detailNames[i]))
    ensures r.Ok? && UniqueIds(ps) ==> UniqueIds(r.value.0)
  {
    if CS.FindById(cats, dto.categoryId).None? then Err(Runtime(CategoryNotFoundMessage))
    else if dto.iconsId.Some? && dto.iconsId.value !in iconIds then Err(Runtime(IconsNotFoundMessage))
    else
      var images := if |imageNames| > 0 then UploadedUrls(imageNames) else ListOrEmpty(dto.images);
      var details := if |detailNames| > 0 then UploadedUrls(detailNames) else ListOrEmpty(dto.imagesDetails);
      var p := Product(generated, dto.title, dto.description, dto.purchasPrice, dto.sellingPrice,
        dto.discountPercentage, dto.isVerified, dto.quantity, dto.color, dto.categoryId,
        dto.viewsCounter, dto.searchCounter, images, details, dto.iconsId);
      Ok((ps + [p], p))
  }

  /** `uploadImages`: the URL the file service returns for each stored file, in order. */
  function UploadedUrls(names: seq<string>): (r: seq<string>)
    ensures |r| == |names|
    ensures forall i :: 0 <= i < |names| ==> r[i] == CS.FileUrl(names[i])
  {
    seq(|names|, i requires 0 <= i < |names| => CS.FileUrl(names[i]))
  }

  /** The id a client sends with a new product never reaches the table. */
  lemma InsertIgnoresDtoId(ps: Products, cats: CS.Categories, iconIds: set<int>, dto: ProductDto,
                           imageNames: seq<string>, detailNames: seq<string>, generated: ProductId, other: Option<ProductId>)
    requires forall k :: 0 <= k < |ps| ==> ps[k].id != generated
    ensures Insert(ps, cats, iconIds, dto, imageNames, detailNames, generated) ==
            Insert(ps, cats, iconIds, dto.(id := other), imageNames, detailNames, generated)
  {
  }

  /** Every image of a newly inserted product leads back to the name of its stored file. */
  lemma InsertedImagesNameTheirFiles(ps: Products, cats: CS.Categories, iconIds: set<int>, dto: ProductDto,
                                     imageNames: seq<string>, detailNames: seq<string>, generated: ProductId, i: int)
    requires forall k :: 0 <= k < |ps| ==> ps[k].id != generated
    requires Insert(ps, cats, iconIds, dto, imageNames, detailNames, generated).Ok?
    requires 0 <= i < |imageNames| && !Contains(imageNames[i], CS.FilesPrefix)
    ensures CS.ExtractFileName(Insert(ps, cats, iconIds, dto, imageNames, detailNames, generated).value.1.images[i]) == imageNames[i]
  {
    CS.ExtractFileNameInvertsUpload(imageNames[i]);
  }

  /**
   * `updateProductStatus`: `true` and the flag set when the product exists,
   * `false` and nothing saved otherwise.
   */
  function UpdateProductStatus(ps: Products, id: ProductId, status: bool): (r: (bool, Products))
    ensures r.0 <==> exists i :: 0 <= i < |ps| && ps[i].id == id
    ensures |r.1| == |ps|
    ensures forall i :: 0 <= i < |ps| ==> r.1[i] == if ps[i].id == id then ps[i].(isVerified := status) else ps[i]
  {
    var found := FindById(ps, id).Some?;
    (found, Store.Update(ps, WithId(id), (p: Product) => p.(isVerified := status)))
  }

  /** After the status update, reading the product back shows the new flag. */
  lemma StatusReadBack(ps: Products, id: ProductId, status: bool)
    requires UpdateProductStatus(ps, id, status).0
    ensures FindById(UpdateProductStatus(ps, id, status).1, id).Some?
    ensures FindById(UpdateProductStatus(ps, id, status).1, id).value.isVerified == status
  {
    FindAfterUpdate(ps, WithId(id), (p: Product) => p.(isVerified := status), WithId(id));
  }

  /** Setting the same status twice is the same as setting it once. */
  lemma UpdateProductStatusIdempotent(ps: Products, id: ProductId, status: bool)
    ensures UpdateProductStatus(UpdateProductStatus(ps, id, status).1, id, status) == UpdateProductStatus(ps, id, status)
  {
    var once := UpdateProductStatus(ps, id, status);
    var twice := UpdateProductStatus(once.1, id, status);
    assert twice.1 == once.1;
    if once.0 {
      var i :| 0 <= i < |ps| && ps[i].id == id;
      assert once.1[i].id == id;
    }
  }

  /**
   * `updateProduct`: the seven catalogue fields come from the DTO, the image
   * list only when the DTO carries a non-empty one; empty for an unknown id.
   */
  function UpdateProduct(ps: Products, id: ProductId, dto: ProductDto): (r: Option<(Products, Product)>)
    ensures r.None? <==> forall i :: 0 <= i < |ps| ==> ps[i].id != id
    ensures r.Some? ==> var prev := FindById(ps, id).value; var s := r.value.1;
      s.title == dto.title && s.description == dto.description && s.sellingPrice == dto.sellingPrice &&
      s.purchasPrice == dto.purchasPrice && s.discountPercentage == dto.discountPercentage &&
      s.quantity == dto.quantity && s.color == dto.color &&
      (dto.images.Some? && |dto.images.value| > 0 ==> s.images == dto.images.value) &&
      (dto.images.None? || |dto.images.value| == 0 ==> s.images == prev.images) &&
      s.id == prev.id && s.category == prev.category && s.viewsCounter == prev.viewsCounter &&
      s.searchCounter == prev.searchCounter && s.isVerified == prev.isVerified &&
      s.icons == prev.icons && s.imagesDetails == prev.imagesDetails
    ensures r.Some? ==> |r.value.0| == |ps|
    ensures r.Some? ==> forall i :: 0 <= i < |ps| ==> r.value.0[i] == if ps[i].id == id then r.value.1 else ps[i]
  {
    match FindById(ps, id)
    case None => None
    case Some(prev) =>
      var saved := Edit(prev, dto);
      Some((Store.Update(ps, WithId(id), _ => saved), saved))
  }

  /** The changes `updateProduct` makes to one row. */
  function Edit(p: Product, dto: ProductDto): Product {
    p.(title := dto.title, description := dto.description, sellingPrice := dto.sellingPrice,
      purchasPrice := dto.purchasPrice, discountPercentage := dto.discountPercentage,
      quantity := dto.quantity, color := dto.color,
      images := if dto.images.Some? && |dto.images.value| > 0 then dto.images.value else p.images)
  }

  /** Repeating an edit changes nothing more. */
  lemma UpdateProductIdempotent(ps: Products, id: ProductId, dto: ProductDto)
    requires UpdateProduct(ps, id, dto).Some?
    ensures UpdateProduct(UpdateProduct(ps, id, dto).value.0, id, dto) == UpdateProduct(ps, id, dto)
  {
    var once := UpdateProduct(ps, id, dto).value;
    var found := FindById(once.0, id).value;
    var j :| 0 <= j < |once.0| && once.0[j] == found;
    assert found == once.1;
    var twice := UpdateProduct(once.0, id, dto).value;
    assert twice.1 == once.1;
    assert twice.0 == once.0;
  }

  /** An edit never changes the verification flag a status update set. */
  lemma UpdateProductKeepsStatus(ps: Products, id: ProductId, status: bool, dto: ProductDto)
    requires UpdateProductStatus(ps, id, status).0
    ensures UpdateProduct(UpdateProductStatus(ps, id, status).1, id, dto).value.1.isVerified == status
  {
    StatusReadBack(ps, id, status);
  }

  /** Where `fileStorageLocation.resolve(arg)` points: an absolute argument replaces the upload directory. */
  datatype Location = InUploads(name: string) | Outside(path: string)

  function Resolve(arg: string): (r: Location)
    ensures r.InUploads? <==> |arg| == 0 || arg[0] != '/'
    ensures r == InUploads(arg) || r == Outside(arg)
  {
    if |arg| > 0 && arg[0] == '/' then Outside(arg) else InUploads(arg)
  }

  /**
   * `deleteProduct` as written: each stored image URL is handed to
   * `deleteFile` unchanged, then the row is removed. Returns the table and
   * the locations `deleteFile` was asked to remove.
   */
  function DeleteProductAsWritten(ps: Products, id: ProductId): (r: (Products, seq<Location>))
    ensures forall i :: 0 <= i < |r.0| ==> r.0[i].id != id
    ensures forall i :: 0 <= i < |ps| && ps[i].id != id ==> ps[i] in r.0
    ensures forall i :: 0 <= i < |r.0| ==> r.0[i] in ps
    ensures FindById(ps, id).None? ==> r.0 == ps && r.1 == []
    ensures FindById(ps, id).Some? ==> var images := FindById(ps, id).value.images;
      |r.1| == |images| && forall i :: 0 <= i < |images| ==> r.1[i] == Resolve(images[i])
  {
    match FindById(ps, id)
    case None => (ps, [])
    case Some(p) =>
      (Filter(ps, (q: Product) => q.id != id), seq(|p.images|, i requires 0 <= i < |p.images| => Resolve(p.images[i])))
  }

  /**
   * The stored URLs are absolute paths, so the files the upload wrote into
   * the upload directory are never the ones deleted.
   */
  lemma AsWrittenDeleteMissesUploads(ps: Products, id: ProductId, names: seq<string>, i: int)
    requires FindById(ps, id).Some? && FindById(ps, id).value.images == UploadedUrls(names)
    requires 0 <= i < |names|
    ensures DeleteProductAsWritten(ps, id).1[i] == Outside(CS.FileUrl(names[i]))
    ensures forall j :: 0 <= j < |names| ==> DeleteProductAsWritten(ps, id).1[i] != InUploads(names[j])
  {
  }

  /**
   * `deleteProduct` as the category service does it: the file name is
   * recovered from each URL before `deleteFile` is called.
   */
  function DeleteProduct(ps: Products, id: ProductId): (r: (Products, seq<Location>))
    ensures forall i :: 0 <= i < |r.0| ==> r.0[i].id != id
    ensures forall i :: 0 <= i < |ps| && ps[i].id != id ==> ps[i] in r.0
    ensures forall i :: 0 <= i < |r.0| ==> r.0[i] in ps
    ensures FindById(ps, id).None? ==> r.0 == ps && r.1 == []
    ensures FindById(ps, id).Some? ==> |r.1| == |FindById(ps, id).value.images|
  {
    match FindById(ps, id)
    case None => (ps, [])
    case Some(p) =>
      (Filter(ps, (q: Product) => q.id != id),
        seq(|p.images|, i requires 0 <= i < |p.images| => Resolve(CS.ExtractFileName(p.images[i]))))
  }

  /** Deleting a product removes exactly the files its images were uploaded to. */
  lemma DeleteRemovesUploads(ps: Products, id: ProductId, names: seq<string>)
    requires FindById(ps, id).Some? && FindById(ps, id).value.images == UploadedUrls(names)
    requires forall i :: 0 <= i < |names| ==> !Contains(names[i], CS.FilesPrefix) && (|names[i]| > 0 ==> names[i][0] != '/')
    ensures DeleteProduct(ps, id).1 == seq(|names|, i requires 0 <= i < |names| => InUploads(names[i]))
  {
    forall i | 0 <= i < |names|
      ensures CS.ExtractFileName(CS.FileUrl(names[i])) == names[i]
    {
      CS.ExtractFileNameInvertsUpload(names[i]);
    }
  }

  /**
   * `getProductsByParentCategory`: the category ids queried are the parent's
   * descendants followed by the parent itself (`None` when the walk does not finish).
   */
  function ParentCategoryIds(cats: CS.Categories, parent: CS.CategoryId, fuel: nat): (r: Option<seq<CS.CategoryId>>)
    ensures r.Some? <==> CS.Descendants(cats, parent, fuel).Some?
    ensures r.Some? ==> |r.value| > 0 && r.value[|r.value| - 1] == parent
  {
    var ids :- CS.Descendants(cats, parent, fuel);
    Some(ids + [parent])
  }

  /**
   * On an acyclic tree with enough fuel the id list exists and names the
   * parent exactly once, last. This is the listing whose walk is not served
   * from the cache.
   */
  lemma ParentListedOnce(cats: CS.Categories, rank: CS.CategoryId -> nat, parent: CS.CategoryId, fuel: nat)
    requires CS.Ranked(cats, rank) && fuel > rank(parent)
    ensures ParentCategoryIds(cats, parent, fuel).Some?
    ensures var ids := ParentCategoryIds(cats, parent, fuel).value;
      forall i :: 0 <= i < |ids| - 1 ==> ids[i] != parent
  {
    CS.DescendantsFinish(cats, rank, parent, fuel);
    CS.DescendantsRankBelow(cats, rank, parent, fuel);
    var d := CS.Descendants(cats, parent, fuel).value;
    var ids := ParentCategoryIds(cats, parent, fuel).value;
    assert forall i :: 0 <= i < |ids| - 1 ==> ids[i] == d[i];
  }

  /**
   * The `childCategoryIds` cache: a parent id mapped to the list object
   * `getAllChildCategoryIds` returned for it. The in-memory cache manager keeps
   * that very object rather than a copy, so whatever a caller appends to the
   * returned list stays in the cache. Every category write empties the cache.
   */
  type ChildIdCache = map<CS.CategoryId, seq<CS.CategoryId>>

  /**
   * `getProductsByParentCategory` as written, with the cache: the parent is
   * appended to the list the cache hands out, which is the cached list itself.
   * Yields the queried ids and the cache afterwards.
   */
  function ParentCategoryIdsAsWritten(cache: ChildIdCache, cats: CS.Categories, parent: CS.CategoryId, fuel: nat)
    : (r: Option<(seq<CS.CategoryId>, ChildIdCache)>)
    ensures parent !in cache ==> (r.Some? <==> ParentCategoryIds(cats, parent, fuel).Some?)
    ensures parent !in cache && r.Some? ==> r.value.0 == ParentCategoryIds(cats, parent, fuel).value
    ensures parent in cache ==> r.Some? && r.value.0 == cache[parent] + [parent]
    ensures r.Some? ==> r.value.0[|r.value.0| - 1] == parent && r.value.1 == cache[parent := r.value.0]
  {
    var ids :- if parent in cache then Some(cache[parent]) else CS.Descendants(cats, parent, fuel);
    var queried := ids + [parent];
    Some((queried, cache[parent := queried]))
  }

  /**
   * Two listings of one parent with no category write between them: the
   * second queries the first one's ids with the parent appended once more, so
   * the parent is named twice and the cached list keeps growing.
   */
  lemma CachedListingRepeatsParent(cats: CS.Categories, parent: CS.CategoryId, fuel: nat)
    requires ParentCategoryIds(cats, parent, fuel).Some?
    ensures var first := ParentCategoryIdsAsWritten(map[], cats, parent, fuel);
      first.Some? &&
      var second := ParentCategoryIdsAsWritten(first.value.1, cats, parent, fuel);
      second.Some? && second.value.0 == ParentCategoryIds(cats, parent, fuel).value + [parent] &&
      |second.value.0| >= 2 && second.value.0[|second.value.0| - 2] == parent && second.value.0[|second.value.0| - 1] == parent
  {
  }

  /** Every cached entry is the descendant list the walk gives for its key. */
  predicate CacheCoherent(cache: ChildIdCache, cats: CS.Categories, fuel: nat) {
    forall q :: q in cache ==> CS.Descendants(cats, q, fuel) == Some(cache[q])
  }

  /**
   * The listing with the parent appended to a copy: the cache keeps the
   * descendant list the walk returned.
   */
  function ParentCategoryIdsCached(cache: ChildIdCache, cats: CS.Categories, parent: CS.CategoryId, fuel: nat)
    : (r: Option<(seq<CS.CategoryId>, ChildIdCache)>)
    ensures r.Some? ==> |r.value.0| > 0 && r.value.0[|r.value.0| - 1] == parent && r.value.1.Keys == cache.Keys + {parent}
    ensures r.Some? ==> forall q :: q in cache ==> r.value.1[q] == cache[q]
  {
    if parent in cache then Some((cache[parent] + [parent], cache))
    else
      var ids :- CS.Descendants(cats, parent, fuel);
      Some((ids + [parent], cache[parent := ids]))
  }

  /**
   * With the copy, a coherent cache stays coherent and every listing queries
   * exactly the ids the uncached listing would, however often it is repeated.
   */
  lemma CachedListingAgrees(cache: ChildIdCache, cats: CS.Categories, parent: CS.CategoryId, fuel: nat)
    requires CacheCoherent(cache, cats, fuel)
    ensures var r := ParentCategoryIdsCached(cache, cats, parent, fuel);
      (r.Some? <==> ParentCategoryIds(cats, parent, fuel).Some?) &&
      (r.Some? ==> r.value.0 == ParentCategoryIds(cats, parent, fuel).value && CacheCoherent(r.value.1, cats, fuel))
  {
  }

  /** On an acyclic tree every cached listing, first or later, names the parent exactly once, last. */
  lemma CachedListingNamesParentOnce(cache: ChildIdCache, cats: CS.Categories, rank: CS.CategoryId -> nat,
                                     parent: CS.CategoryId, fuel: nat)
    requires CacheCoherent(cache, cats, fuel) && CS.Ranked(cats, rank) && fuel > rank(parent)
    ensures var r := ParentCategoryIdsCached(cache, cats, parent, fuel);
      r.Some? && r.value.0[|r.value.0| - 1] == parent &&
      forall i :: 0 <= i < |r.value.0| - 1 ==> r.value.0[i] != parent
  {
    CachedListingAgrees(cache, cats, parent, fuel);
    ParentListedOnce(cats, rank, parent, fuel);
  }

  /** `findByCategoryIdIn`, without paging: the products filed under any of the ids, in table order. */
  function InCategories(ps: Products, ids: seq<CS.CategoryId>): (r: Products)
    ensures forall i :: 0 <= i < |r| ==> r[i] in ps && r[i].category in ids
    ensures forall i :: 0 <= i < |ps| && ps[i].category in ids ==> ps[i] in r
  {
    Filter(ps, (p: Product) => p.category in ids)
  }

  /** The parent-category listing includes the products filed directly under the parent. */
  lemma ParentListingIncludesParent(ps: Products, cats: CS.Categories, parent: CS.CategoryId, fuel: nat, i: int)
    requires ParentCategoryIds(cats, parent, fuel).Some?
    requires 0 <= i < |ps| && ps[i].category == parent
    ensures ps[i] in InCategories(ps, ParentCategoryIds(cats, parent, fuel).value)
  {
    var ids := ParentCategoryIds(cats, parent, fuel).value;
    assert ids[|ids| - 1] == parent;
  }
}
