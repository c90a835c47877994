/**
 * `CategoryServiceImpl`: the category tree (each row names its parent), the
 * recursive walk that lists a category's descendants, the parent handling of
 * create and update, and the helper that turns a stored image URL back into
 * the file name the file service wrote.
 */
module CategoryService {
  import opened Wrappers
  import opened JavaText
  import opened Store

  type CategoryId = int

  /** A category row; `parent` is the id of `parentCategory`, `None` for a root. */
  datatype Category = Category(
    id: CategoryId,
    nameEn: string,
    nameAr: string,
    categoryId: string,
    level: int,
    parent: Option<CategoryId>,
    imageUrl: Option<string>)

  type Categories = seq<Category>

  /** The fields of `CategoryDto` the service reads. */
  datatype CategoryDto = CategoryDto(
    id: CategoryId,
    nameEn: string,
    nameAr: string,
    categoryId: string,
    parentId: Option<CategoryId>,
    level: int,
    imageUrl: Option<string>)

  /** The path prefix of every URL `FileServiceImpl.uploadFile` returns. */
  const FilesPrefix: string := "/api/files/"

  /** The URL the file service hands back for a stored file name. */
  function FileUrl(name: string): string {
    FilesPrefix + name
  }

  /**
   * `extractFileName`: a URL starting with the files prefix loses every
   * occurrence of it; otherwise the text after the last occurrence of the
   * prefix (the code skips the literal 11, the prefix's length), or else after
   * the last '/'.
   */
  function ExtractFileName(url: string): (r: string)
    ensures StartsWith(url, FilesPrefix) && !Contains(url[|FilesPrefix|..], FilesPrefix) ==>
      r == url[|FilesPrefix|..]
    ensures !StartsWith(url, FilesPrefix) && Contains(url, FilesPrefix) ==>
      !Contains(r, FilesPrefix) &&
      exists k :: OccursAt(url, FilesPrefix, k) && (forall j :: OccursAt(url, FilesPrefix, j) ==> j <= k) &&
        r == url[k + |FilesPrefix|..]
    ensures !Contains(url, FilesPrefix) ==>
      '/' !in r && |r| <= |url| && r == url[|url| - |r|..] &&
      (|r| < |url| ==> url[|url| - |r| - 1] == '/')
  {
    assert |FilesPrefix| == 11;
    if StartsWith(url, FilesPrefix) then
      PrefixBranch(url);
      RemoveAll(url, FilesPrefix)
    else if Contains(url, FilesPrefix) then
      LastIndexOfFindsContained(url, FilesPrefix);
      var k := LastIndexOf(url, FilesPrefix);
      NothingAfterLast(url, FilesPrefix, k + 11);
      url[k + 11..]
    else
      SlashBranch(url);
      url[LastIndexOf(url, "/") + 1..]
  }

  lemma PrefixBranch(url: string)
    requires StartsWith(url, FilesPrefix)
    ensures Contains(url, FilesPrefix)
    ensures !Contains(url[|FilesPrefix|..], FilesPrefix) ==> RemoveAll(url, FilesPrefix) == url[|FilesPrefix|..]
  {
    assert OccursAt(url, FilesPrefix, 0);
    if !Contains(url[|FilesPrefix|..], FilesPrefix) {
      RemoveAllWithoutOccurrence(url[|FilesPrefix|..], FilesPrefix);
    }
  }

  lemma SlashBranch(url: string)
    ensures var k := LastIndexOf(url, "/"); var r := url[k + 1..];
      '/' !in r && (k >= 0 ==> url[k] == '/')
  {
    var k := LastIndexOf(url, "/");
    NothingAfterLast(url, "/", k + 1);
    NoCharOccurrence(url[k + 1..], '/');
    if k >= 0 {
      assert url[k..k + 1][0] == url[k];
    }
  }

  /**
   * The file name a category's image is stored under is recovered from the
   * URL the upload returned, as long as the name does not itself contain the
   * files prefix.
   */
  lemma ExtractFileNameInvertsUpload(name: string)
    requires !Contains(name, FilesPrefix)
    ensures ExtractFileName(FileUrl(name)) == name
  {
    var url := FileUrl(name);
    assert url[..|FilesPrefix|] == FilesPrefix;
    assert url[|FilesPrefix|..] == name;
  }

  /**
   * The prefix overlaps itself on '/', so a URL can hold two occurrences
   * that share a character; the text after the later one is taken.
   */
  lemma ExtractFileNameTakesLastOccurrence()
    ensures ExtractFileName("x/api/files/api/files/y") == "y"
  {
    var url := "x/api/files/api/files/y";
    assert OccursAt(url, FilesPrefix, 11);
    assert !StartsWith(url, FilesPrefix) by { assert url[0] != FilesPrefix[0]; }
    assert !OccursAt(url, FilesPrefix, 12) by { assert url[12] != FilesPrefix[0]; }
    assert url[22..] == "y";
  }

  /**
   * A URL that starts with the prefix loses every occurrence of it, not just
   * the leading one: two stored names glued around a second prefix come back
   * joined.
   */
  lemma ExtractFileNameRemovesEveryPrefix(a: string, b: string)
    requires forall j :: 0 <= j < |a| ==> !OccursAt(a + FilesPrefix + b, FilesPrefix, j)
    requires !Contains(b, FilesPrefix)
    ensures ExtractFileName(FilesPrefix + a + FilesPrefix + b) == a + b
  {
    var url := FilesPrefix + a + FilesPrefix + b;
    assert url == FilesPrefix + (a + FilesPrefix + b);
    assert StartsWith(url, FilesPrefix) by {
      assert url[..|FilesPrefix|] == FilesPrefix;
    }
    RemoveAllLeading(FilesPrefix, a + FilesPrefix + b);
    assert a + FilesPrefix + b == a + (FilesPrefix + b);
    RemoveAllSkipsClean(a, FilesPrefix + b, FilesPrefix);
    RemoveAllLeading(FilesPrefix, b);
    RemoveAllWithoutOccurrence(b, FilesPrefix);
  }

  function WithId(id: CategoryId): Category -> bool {
    (c: Category) => c.id == id
  }

  /** `findById` */
  function FindById(cats: Categories, id: CategoryId): (r: Option<Category>)
    ensures r.None? <==> forall i :: 0 <= i < |cats| ==> cats[i].id != id
    ensures r.Some? ==> r.value in cats && r.value.id == id
  {
    Find(cats, WithId(id))
  }

  function ChildOf(parent: CategoryId): Category -> bool {
    (c: Category) => c.parent == Some(parent)
  }

  /** `findByParentCategoryId`: the direct children, in table order. */
  function Children(cats: Categories, parent: CategoryId): Categories {
    if |cats| == 0 then []
    else (if cats[0].parent == Some(parent) then [cats[0]] else []) + Children(cats[1..], parent)
  }

  /** The children are the rows naming `parent`, in table order. */
  lemma {:induction false} ChildrenAreFiltered(cats: Categories, parent: CategoryId)
    ensures Children(cats, parent) == Filter(cats, ChildOf(parent))
  {
    if |cats| > 0 {
      ChildrenAreFiltered(cats[1..], parent);
    }
  }

  /**
   * `getAllChildCategoryIds`: each child's id followed by that child's own
   * descendants, child after child. Java recurses without a bound, so a cycle
   * in the parent relation never returns; here `fuel` bounds the depth and
   * `None` stands for the walk that does not finish.
   */
  function Descendants(cats: Categories, parent: CategoryId, fuel: nat): (r: Option<seq<CategoryId>>)
    ensures r.Some? ==> fuel > 0
    decreases fuel, 0
  {
    if fuel == 0 then None
    else Walk(cats, Children(cats, parent), fuel - 1)
  }

  /** The loop over the children of one category. */
  function Walk(cats: Categories, children: Categories, fuel: nat): (r: Option<seq<CategoryId>>)
    ensures r.Some? ==> |r.value| >= |children|
    ensures r.Some? && |children| > 0 ==> r.value[0] == children[0].id
    decreases fuel, 1, |children|
  {
    if |children| == 0 then Some([])
    else
      var sub :- Descendants(cats, children[0].id, fuel);
      var rest :- Walk(cats, children[1..], fuel);
      Some([children[0].id] + sub + rest)
  }

  /** The walk over a list fails as soon as the walk below any one child fails. */
  lemma {:induction false} WalkFailsWithChild(cats: Categories, children: Categories, fuel: nat, m: int)
    requires 0 <= m < |children| && Descendants(cats, children[m].id, fuel).None?
    ensures Walk(cats, children, fuel).None?
    decreases |children|
  {
    if m > 0 && Descendants(cats, children[0].id, fuel).Some? {
      assert children[1..][m - 1] == children[m];
      WalkFailsWithChild(cats, children[1..], fuel, m - 1);
    }
  }

  /** A category that is its own parent makes the walk below it run forever. */
  lemma {:induction false} SelfParentNeverEnds(cats: Categories, k: int, fuel: nat)
    requires 0 <= k < |cats| && cats[k].parent == Some(cats[k].id)
    ensures Descendants(cats, cats[k].id, fuel).None?
  {
    if fuel > 0 {
      var children := Children(cats, cats[k].id);
      ChildrenAreFiltered(cats, cats[k].id);
      assert cats[k] in children;
      var m :| 0 <= m < |children| && children[m] == cats[k];
      SelfParentNeverEnds(cats, k, fuel - 1);
      WalkFailsWithChild(cats, children, fuel - 1, m);
    }
  }

  /**
   * The parent relation is acyclic, witnessed by a rank that strictly
   * decreases from each parent to its children.
   */
  predicate Ranked(cats: Categories, rank: CategoryId -> nat) {
    forall i :: 0 <= i < |cats| && cats[i].parent.Some? ==> rank(cats[i].id) < rank(cats[i].parent.value)
  }

  lemma ChildRankBelow(cats: Categories, rank: CategoryId -> nat, parent: CategoryId, i: int)
    requires Ranked(cats, rank) && 0 <= i < |Children(cats, parent)|
    ensures rank(Children(cats, parent)[i].id) < rank(parent)
  {
    ChildrenAreFiltered(cats, parent);
    var c := Children(cats, parent)[i];
    var j :| 0 <= j < |cats| && cats[j] == c;
  }

  /** On an acyclic tree the walk finishes once the fuel exceeds the parent's rank. */
  lemma {:induction false} DescendantsFinish(cats: Categories, rank: CategoryId -> nat, parent: CategoryId, fuel: nat)
    requires Ranked(cats, rank) && fuel > rank(parent)
    ensures Descendants(cats, parent, fuel).Some?
    decreases fuel, 0
  {
    var children := Children(cats, parent);
    forall i | 0 <= i < |children|
      ensures rank(children[i].id) < fuel - 1
    {
      ChildRankBelow(cats, rank, parent, i);
    }
    WalkFinishes(cats, rank, children, fuel - 1);
  }

  lemma {:induction false} WalkFinishes(cats: Categories, rank: CategoryId -> nat, children: Categories, fuel: nat)
    requires Ranked(cats, rank)
    requires forall i :: 0 <= i < |children| ==> rank(children[i].id) < fuel
    ensures Walk(cats, children, fuel).Some?
    decreases fuel, 1, |children|
  {
    if |children| > 0 {
      DescendantsFinish(cats, rank, children[0].id, fuel);
      assert forall i :: 0 <= i < |children[1..]| ==> children[1..][i] == children[i + 1];
      WalkFinishes(cats, rank, children[1..], fuel);
    }
  }

  /** On an acyclic tree every listed id ranks below the parent, so the parent is never listed. */
  lemma {:induction false} DescendantsRankBelow(cats: Categories, rank: CategoryId -> nat, parent: CategoryId, fuel: nat)
    requires Ranked(cats, rank) && Descendants(cats, parent, fuel).Some?
    ensures forall i :: 0 <= i < |Descendants(cats, parent, fuel).value| ==>
      rank(Descendants(cats, parent, fuel).value[i]) < rank(parent)
    ensures parent !in Descendants(cats, parent, fuel).value
    decreases fuel, 0
  {
    var children := Children(cats, parent);
    forall i | 0 <= i < |children|
      ensures rank(children[i].id) < rank(parent)
    {
      ChildRankBelow(cats, rank, parent, i);
    }
    WalkRankBelow(cats, rank, children, fuel - 1, rank(parent));
  }

  lemma {:induction false} WalkRankBelow(cats: Categories, rank: CategoryId -> nat, children: Categories, fuel: nat, bound: nat)
    requires Ranked(cats, rank) && Walk(cats, children, fuel).Some?
    requires forall i :: 0 <= i < |children| ==> rank(children[i].id) < bound
    ensures forall i :: 0 <= i < |Walk(cats, children, fuel).value| ==> rank(Walk(cats, children, fuel).value[i]) < bound
    decreases fuel, 1, |children|
  {
    if |children| > 0 {
      var c := children[0];
      DescendantsRankBelow(cats, rank, c.id, fuel);
      assert forall i :: 0 <= i < |children[1..]| ==> children[1..][i] == children[i + 1];
      WalkRankBelow(cats, rank, children[1..], fuel, bound);
      var sub := Descendants(cats, c.id, fuel).value;
      var rest := Walk(cats, children[1..], fuel).value;
      var ids := Walk(cats, children, fuel).value;
      assert ids == [c.id] + sub + rest;
      forall i | 0 <= i < |ids|
        ensures rank(ids[i]) < bound
      {
        if i == 0 {
        } else if i < 1 + |sub| {
          assert ids[i] == sub[i - 1];
        } else {
          assert ids[i] == rest[i - 1 - |sub|];
        }
      }
    }
  }

  /** Once the walk finishes, more fuel gives the same list: the fuel only bounds, it never shapes. */
  lemma {:induction false} DescendantsFuelIrrelevant(cats: Categories, parent: CategoryId, fuel: nat, more: nat)
    requires Descendants(cats, parent, fuel).Some? && fuel <= more
    ensures Descendants(cats, parent, more) == Descendants(cats, parent, fuel)
    decreases fuel, 0
  {
    WalkFuelIrrelevant(cats, Children(cats, parent), fuel - 1, more - 1);
  }

  lemma {:induction false} WalkFuelIrrelevant(cats: Categories, children: Categories, fuel: nat, more: nat)
    requires Walk(cats, children, fuel).Some? && fuel <= more
    ensures Walk(cats, children, more) == Walk(cats, children, fuel)
    decreases fuel, 1, |children|
  {
    if |children| > 0 {
      DescendantsFuelIrrelevant(cats, children[0].id, fuel, more);
      WalkFuelIrrelevant(cats, children[1..], fuel, more);
    }
  }

  /**
   * `x` lies `depth + 1` parent links below `p`: some row naming `p` as its
   * parent is `x` itself (depth 0) or lies `depth` links above `x`.
   */
  predicate Below(cats: Categories, x: CategoryId, p: CategoryId, depth: nat)
    decreases depth
  {
    exists i :: 0 <= i < |cats| && cats[i].parent == Some(p) &&
      (if depth == 0 then cats[i].id == x else Below(cats, x, cats[i].id, depth - 1))
  }

  /** `x` is a descendant of `p`: a chain of parent links leads from `x` up to `p`. */
  ghost predicate Reaches(cats: Categories, x: CategoryId, p: CategoryId) {
    exists d: nat :: Below(cats, x, p, d)
  }

  /** A row naming `p` is among `p`'s children. */
  lemma ChildListed(cats: Categories, p: CategoryId, i: int)
    requires 0 <= i < |cats| && cats[i].parent == Some(p)
    ensures exists m :: 0 <= m < |Children(cats, p)| && Children(cats, p)[m] == cats[i]
  {
    ChildrenAreFiltered(cats, p);
    assert ChildOf(p)(cats[i]);
  }

  /**
   * A finished walk over a list lists each child, and everything the walk
   * below that child lists.
   */
  lemma {:induction false} WalkCovers(cats: Categories, children: Categories, fuel: nat, m: int)
    requires Walk(cats, children, fuel).Some? && 0 <= m < |children|
    ensures Descendants(cats, children[m].id, fuel).Some?
    ensures children[m].id in Walk(cats, children, fuel).value
    ensures forall y :: y in Descendants(cats, children[m].id, fuel).value ==> y in Walk(cats, children, fuel).value
    decreases |children|
  {
    var sub := Descendants(cats, children[0].id, fuel).value;
    var rest := Walk(cats, children[1..], fuel).value;
    assert Walk(cats, children, fuel).value == [children[0].id] + sub + rest;
    if m > 0 {
      assert children[1..][m - 1] == children[m];
      WalkCovers(cats, children[1..], fuel, m - 1);
    }
  }

  /** Each child's own walk finishes, with one level less fuel, whenever the parent's does. */
  lemma ChildFinishes(cats: Categories, p: CategoryId, i: int, fuel: nat)
    requires 0 <= i < |cats| && cats[i].parent == Some(p)
    ensures Descendants(cats, p, fuel).Some? ==> fuel > 1 && Descendants(cats, cats[i].id, fuel - 1).Some?
    ensures Descendants(cats, p, fuel).Some? ==>
      cats[i].id in Descendants(cats, p, fuel).value &&
      forall y :: y in Descendants(cats, cats[i].id, fuel - 1).value ==> y in Descendants(cats, p, fuel).value
  {
    if Descendants(cats, p, fuel).Some? {
      ChildListed(cats, p, i);
      var m :| 0 <= m < |Children(cats, p)| && Children(cats, p)[m] == cats[i];
      WalkCovers(cats, Children(cats, p), fuel - 1, m);
    }
  }

  /** Every id the walk lists lies below the parent, at a depth the fuel bounds. */
  lemma {:induction false} DescendantsAreBelow(cats: Categories, p: CategoryId, fuel: nat, x: CategoryId)
    requires Descendants(cats, p, fuel).Some? && x in Descendants(cats, p, fuel).value
    ensures exists d: nat :: d < fuel && Below(cats, x, p, d)
    decreases fuel, 0
  {
    ChildrenAreFiltered(cats, p);
    WalkIsBelow(cats, p, Children(cats, p), fuel - 1, x);
  }

  lemma {:induction false} WalkIsBelow(cats: Categories, p: CategoryId, children: Categories, fuel: nat, x: CategoryId)
    requires forall k :: 0 <= k < |children| ==> children[k] in cats && children[k].parent == Some(p)
    requires Walk(cats, children, fuel).Some? && x in Walk(cats, children, fuel).value
    ensures exists d: nat :: d <= fuel && Below(cats, x, p, d)
    decreases fuel, 1, |children|
  {
    var c := children[0];
    var i :| 0 <= i < |cats| && cats[i] == c;
    var sub := Descendants(cats, c.id, fuel).value;
    var rest := Walk(cats, children[1..], fuel).value;
    assert Walk(cats, children, fuel).value == [c.id] + sub + rest;
    if x == c.id {
      assert Below(cats, x, p, 0);
    } else if x in sub {
      DescendantsAreBelow(cats, c.id, fuel, x);
      var d: nat :| d < fuel && Below(cats, x, c.id, d);
      assert Below(cats, x, p, d + 1);
    } else {
      assert x in rest;
      assert forall k :: 0 <= k < |children[1..]| ==> children[1..][k] == children[k + 1];
      WalkIsBelow(cats, p, children[1..], fuel, x);
    }
  }

  /** Every id below the parent is listed once the walk finishes. */
  lemma {:induction false} BelowIsListed(cats: Categories, x: CategoryId, p: CategoryId, d: nat, fuel: nat)
    requires Below(cats, x, p, d) && Descendants(cats, p, fuel).Some?
    ensures x in Descendants(cats, p, fuel).value
    decreases d
  {
    var i :| 0 <= i < |cats| && cats[i].parent == Some(p) &&
      (if d == 0 then cats[i].id == x else Below(cats, x, cats[i].id, d - 1));
    ChildFinishes(cats, p, i, fuel);
    if d > 0 {
      BelowIsListed(cats, x, cats[i].id, d - 1, fuel - 1);
    }
  }

  /**
   * `getAllChildCategoryIds` lists exactly the descendants: once the walk
   * finishes, an id is listed when and only when a chain of parent links
   * leads from it up to the parent.
   */
  lemma DescendantsAreReachable(cats: Categories, p: CategoryId, fuel: nat, x: CategoryId)
    requires Descendants(cats, p, fuel).Some?
    ensures x in Descendants(cats, p, fuel).value <==> Reaches(cats, x, p)
  {
    if x in Descendants(cats, p, fuel).value {
      DescendantsAreBelow(cats, p, fuel, x);
    }
    if Reaches(cats, x, p) {
      var d: nat :| Below(cats, x, p, d);
      BelowIsListed(cats, x, p, d, fuel);
    }
  }

  /** A finished walk from `p` also finishes from any `y` below it, with `depth + 1` less fuel. */
  lemma {:induction false} BelowFinishes(cats: Categories, y: CategoryId, p: CategoryId, d: nat, fuel: nat)
    requires Below(cats, y, p, d)
    ensures Descendants(cats, p, fuel).Some? ==> fuel > d + 1 && Descendants(cats, y, fuel - d - 1).Some?
    decreases d
  {
    var i :| 0 <= i < |cats| && cats[i].parent == Some(p) &&
      (if d == 0 then cats[i].id == y else Below(cats, y, cats[i].id, d - 1));
    ChildFinishes(cats, p, i, fuel);
    if d > 0 && fuel > 0 {
      BelowFinishes(cats, y, cats[i].id, d - 1, fuel - 1);
    }
  }

  /**
   * A category that lies below itself, through any cycle of parent links,
   * makes the walk below it run forever: no fuel is enough.
   */
  lemma {:induction false} CycleNeverEnds(cats: Categories, p: CategoryId, d: nat, fuel: nat)
    requires Below(cats, p, p, d)
    ensures Descendants(cats, p, fuel).None?
    decreases fuel
  {
    BelowFinishes(cats, p, p, d, fuel);
    if fuel > d + 1 {
      CycleNeverEnds(cats, p, d, fuel - d - 1);
    }
  }

  /** The parent a save would record: set only for an existing category, else `fallback`. */
  function ResolveParent(cats: Categories, parentId: Option<CategoryId>, fallback: Option<CategoryId>): (r: Option<CategoryId>)
    ensures r.Some? && r != fallback ==> FindById(cats, r.value).Some?
  {
    match parentId
    case None => fallback
    case Some(p) => if FindById(cats, p).Some? then Some(p) else fallback
  }

  /**
   * `createCategory` up to the save: the mapped entity, with a parent only
   * when the requested one exists, and the uploaded icon's URL when an icon
   * came with the request (`upload`). The repository assigns the id on save.
   */
  function NewCategory(cats: Categories, dto: CategoryDto, upload: Option<string>): (r: Category)
    ensures r.parent.Some? <==> dto.parentId.Some? && FindById(cats, dto.parentId.value).Some?
    ensures r.parent.Some? ==> r.parent == dto.parentId
    ensures r.imageUrl == if upload.Some? then upload else dto.imageUrl
    ensures r.nameEn == dto.nameEn && r.nameAr == dto.nameAr && r.categoryId == dto.categoryId && r.level == dto.level
  {
    Category(dto.id, dto.nameEn, dto.nameAr, dto.categoryId, dto.level,
      ResolveParent(cats, dto.parentId, None), if upload.Some? then upload else dto.imageUrl)
  }

  /** Every recorded parent is a category of the table. */
  predicate ParentsExist(cats: Categories) {
    forall i :: 0 <= i < |cats| && cats[i].parent.Some? ==> FindById(cats, cats[i].parent.value).Some?
  }

  /** Creating a category never records a parent that does not exist. */
  lemma CreateKeepsParentsExist(cats: Categories, dto: CategoryDto, upload: Option<string>)
    requires ParentsExist(cats)
    ensures ParentsExist(cats + [NewCategory(cats, dto, upload)])
  {
    var c := NewCategory(cats, dto, upload);
    var t := cats + [c];
    forall i | 0 <= i < |t| && t[i].parent.Some?
      ensures FindById(t, t[i].parent.value).Some?
    {
      var p := t[i].parent.value;
      var j :| 0 <= j < |cats| && cats[j] == FindById(cats, p).value;
      assert t[j].id == p;
    }
  }

  /** What `updateCategory` leaves: the new table, the saved row and the file it asked to delete. */
  datatype Updated = Updated(table: Categories, saved: Category, deletedFile: Option<string>)

  /**
   * `updateCategory`: names, external id and level come from the DTO; a null
   * parent id clears the parent, an unknown one leaves it, a known one sets
   * it; a new icon replaces the image and the prev image's file is deleted.
   */
  function UpdateCategory(cats: Categories, id: CategoryId, dto: CategoryDto, upload: Option<string>): (r: Option<Updated>)
    ensures r.None? <==> forall i :: 0 <= i < |cats| ==> cats[i].id != id
    ensures r.Some? ==> var prev := FindById(cats, id).value; var s := r.value.saved;
      s.id == id && s.nameEn == dto.nameEn && s.nameAr == dto.nameAr &&
      s.categoryId == dto.categoryId && s.level == dto.level &&
      (dto.parentId.None? ==> s.parent.None?) &&
      (dto.parentId.Some? && FindById(cats, dto.parentId.value).Some? ==> s.parent == dto.parentId) &&
      (dto.parentId.Some? && FindById(cats, dto.parentId.value).None? ==> s.parent == prev.parent) &&
      (upload.Some? ==> s.imageUrl == upload) &&
      (upload.None? ==> s.imageUrl == prev.imageUrl) &&
      (r.value.deletedFile.Some? <==> upload.Some? && prev.imageUrl.Some?)
    ensures r.Some? ==> |r.value.table| == |cats|
    ensures r.Some? ==> forall i :: 0 <= i < |cats| ==>
      r.value.table[i] == if cats[i].id == id then r.value.saved else cats[i]
  {
    match FindById(cats, id)
    case None => None
    case Some(prev) =>
      var parent := if dto.parentId.None? then None else ResolveParent(cats, dto.parentId, prev.parent);
      var deleted := if upload.Some? && prev.imageUrl.Some? then Some(ExtractFileName(prev.imageUrl.value)) else None;
      var saved := prev.(nameEn := dto.nameEn, nameAr := dto.nameAr, categoryId := dto.categoryId, level := dto.level,
        parent := parent, imageUrl := if upload.Some? then upload else prev.imageUrl);
      Some(Updated(Store.Update(cats, WithId(id), _ => saved), saved, deleted))
  }

  /** Replacing the icon of a category whose image came from the upload deletes exactly that file. */
  lemma ReplacingIconDeletesOldFile(cats: Categories, id: CategoryId, dto: CategoryDto, upload: string, name: string)
    requires FindById(cats, id).Some? && FindById(cats, id).value.imageUrl == Some(FileUrl(name))
    requires !Contains(name, FilesPrefix)
    ensures UpdateCategory(cats, id, dto, Some(upload)).value.deletedFile == Some(name)
  {
    ExtractFileNameInvertsUpload(name);
  }

  /** Updating never records a parent that does not exist, as long as the updated row exists. */
  lemma UpdateKeepsParentsExist(cats: Categories, id: CategoryId, dto: CategoryDto, upload: Option<string>)
    requires ParentsExist(cats) && UpdateCategory(cats, id, dto, upload).Some?
    ensures ParentsExist(UpdateCategory(cats, id, dto, upload).value.table)
  {
    var u := UpdateCategory(cats, id, dto, upload).value;
    var t := u.table;
    forall i | 0 <= i < |t| && t[i].parent.Some?
      ensures FindById(t, t[i].parent.value).Some?
    {
      var p := t[i].parent.value;
      var c := FindById(cats, p);
      assert c.Some?;
      var j :| 0 <= j < |cats| && cats[j] == c.value;
      assert t[j].id == p;
    }
  }

  /**
   * Nothing stops an update from naming the category as its own parent; the
   * descendant walk below it then never finishes.
   */
  lemma SelfParentByUpdate(cats: Categories, id: CategoryId, dto: CategoryDto, upload: Option<string>, fuel: nat)
    requires FindById(cats, id).Some? && dto.parentId == Some(id)
    ensures UpdateCategory(cats, id, dto, upload).Some?
    ensures Descendants(UpdateCategory(cats, id, dto, upload).value.table, id, fuel).None?
  {
    var u := UpdateCategory(cats, id, dto, upload).value;
    var j :| 0 <= j < |cats| && cats[j] == FindById(cats, id).value;
    assert u.table[j] == u.saved;
    SelfParentNeverEnds(u.table, j, fuel);
  }

  /**
   * `deleteCategory`: `false` for an unknown id; otherwise the file behind
   * the image (if any) is deleted, then the row, and the answer is `true`.
   * Either step may throw (`fileFails`, `rowFails`): the exception is caught
   * and the answer is `false`, with the row still there and, when only the
   * row delete failed, the file already gone. Returns the answer, the table
   * and the file actually deleted.
   */
  function DeleteCategory(cats: Categories, id: CategoryId, fileFails: bool, rowFails: bool)
    : (r: (bool, Categories, Option<string>))
    ensures r.0 <==> (exists i :: 0 <= i < |cats| && cats[i].id == id) && !rowFails &&
                     !(fileFails && FindById(cats, id).value.imageUrl.Some?)
    ensures !r.0 ==> r.1 == cats
    ensures r.0 ==> forall i :: 0 <= i < |r.1| ==> r.1[i].id != id && r.1[i] in cats
    ensures r.0 ==> forall i :: 0 <= i < |cats| && cats[i].id != id ==> cats[i] in r.1
    ensures r.2.Some? <==> FindById(cats, id).Some? && FindById(cats, id).value.imageUrl.Some? && !fileFails
    ensures r.2.Some? ==> r.2.value == ExtractFileName(FindById(cats, id).value.imageUrl.value)
  {
    match FindById(cats, id)
    case None => (false, cats, None)
    case Some(c) =>
      if c.imageUrl.Some? && fileFails then (false, cats, None)
      else
        var deleted := if c.imageUrl.Some? then Some(ExtractFileName(c.imageUrl.value)) else None;
        if rowFails then (false, cats, deleted)
        else (true, Filter(cats, (c: Category) => c.id != id), deleted)
  }

  /**
   * After a delete answered `true` the id is no longer found, and every other
   * id is found exactly when it was before.
   */
  lemma DeleteThenFind(cats: Categories, id: CategoryId, fileFails: bool, rowFails: bool, other: CategoryId)
    requires DeleteCategory(cats, id, fileFails, rowFails).0
    ensures FindById(DeleteCategory(cats, id, fileFails, rowFails).1, id).None?
    ensures other != id ==>
      (FindById(DeleteCategory(cats, id, fileFails, rowFails).1, other).Some? <==> FindById(cats, other).Some?)
  {
    var t := DeleteCategory(cats, id, fileFails, rowFails).1;
    if other != id && FindById(cats, other).Some? {
      var j :| 0 <= j < |cats| && cats[j] == FindById(cats, other).value;
      var k :| 0 <= k < |t| && t[k] == cats[j];
      assert t[k].id == other;
    }
    if other != id && FindById(t, other).Some? {
      var k :| 0 <= k < |t| && t[k] == FindById(t, other).value;
      var j :| 0 <= j < |cats| && cats[j] == t[k];
      assert cats[j].id == other;
    }
  }

  /** Deleting a category no row names as its parent keeps every recorded parent in the table. */
  lemma DeleteLeafKeepsParentsExist(cats: Categories, id: CategoryId, fileFails: bool, rowFails: bool)
    requires ParentsExist(cats)
    requires forall i :: 0 <= i < |cats| ==> cats[i].parent != Some(id)
    ensures ParentsExist(DeleteCategory(cats, id, fileFails, rowFails).1)
  {
    var t := DeleteCategory(cats, id, fileFails, rowFails).1;
    forall i | 0 <= i < |t| && t[i].parent.Some?
      ensures FindById(t, t[i].parent.value).Some?
    {
      var j :| 0 <= j < |cats| && cats[j] == t[i];
      if DeleteCategory(cats, id, fileFails, rowFails).0 {
        DeleteThenFind(cats, id, fileFails, rowFails, t[i].parent.value);
      }
    }
  }

  /**
   * When the delete goes through, a child of the deleted category is left
   * naming a parent that no longer exists.
   */
  lemma DeleteOrphansChildren(cats: Categories, id: CategoryId, fileFails: bool, rowFails: bool, k: int)
    requires 0 <= k < |cats| && cats[k].parent == Some(id) && cats[k].id != id
    requires DeleteCategory(cats, id, fileFails, rowFails).0
    ensures !ParentsExist(DeleteCategory(cats, id, fileFails, rowFails).1)
  {
    var t := DeleteCategory(cats, id, fileFails, rowFails).1;
    var m :| 0 <= m < |t| && t[m] == cats[k];
    DeleteThenFind(cats, id, fileFails, rowFails, id);
  }
}
