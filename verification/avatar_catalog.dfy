/**
 * The avatar catalog: avatars, their categories (at most one per name), the
 * styles of a category and the coloured assets of a style, plus the rows that
 * point into it (children's owned assets and avatars, notifications, a child's
 * chosen avatar). Creating checks the parent row; deleting cascades down the
 * tree one level at a time. The cascades are not one transaction, so a failure
 * part-way leaves the deletions done so far; the model shows that even then no
 * row is left pointing at a deleted one.
 *
 * Deleting an image from the storage bucket is an outside call: `failing` is
 * the set of image paths whose deletion fails.
 */
module AvatarCatalog {
  import opened Wrappers
  import opened Tables
  import opened Entities

  // ---- lookups ----

  function AvatarById(s: Store, id: Id): (r: Option<nat>)
    ensures r.Some? ==> r.value < |s.avatars| && s.avatars[r.value].id == id
    ensures r.None? ==> forall j :: 0 <= j < |s.avatars| ==> s.avatars[j].id != id
  {
    FirstIndex(s.avatars, (a: Avatar) => a.id == id)
  }

  function CategoryById(s: Store, id: Id): (r: Option<nat>)
    ensures r.Some? ==> r.value < |s.categories| && s.categories[r.value].id == id
    ensures r.None? ==> forall j :: 0 <= j < |s.categories| ==> s.categories[j].id != id
  {
    FirstIndex(s.categories, (c: Category) => c.id == id)
  }

  function StyleById(s: Store, id: Id): (r: Option<nat>)
    ensures r.Some? ==> r.value < |s.styles| && s.styles[r.value].id == id
    ensures r.None? ==> forall j :: 0 <= j < |s.styles| ==> s.styles[j].id != id
  {
    FirstIndex(s.styles, (st: Style) => st.id == id)
  }

  function AssetById(s: Store, id: Id): (r: Option<nat>)
    ensures r.Some? ==> r.value < |s.assets| && s.assets[r.value].id == id
    ensures r.None? ==> forall j :: 0 <= j < |s.assets| ==> s.assets[j].id != id
  {
    FirstIndex(s.assets, (a: Asset) => a.id == id)
  }

  /** `findUnique({ avatarId_name })`. */
  function CategoryNamed(s: Store, avatarId: Id, name: string): (r: Option<nat>)
    ensures r.Some? ==> r.value < |s.categories| && s.categories[r.value].avatarId == avatarId && s.categories[r.value].name == name
    ensures r.None? ==> forall j :: 0 <= j < |s.categories| ==> !(s.categories[j].avatarId == avatarId && s.categories[j].name == name)
  {
    FirstIndex(s.categories, (c: Category) => c.avatarId == avatarId && c.name == name)
  }

  // ---- creation ----

  /** `createAvatar`: always succeeds; an omitted price is 0. */
  function CreateAvatar(s: Store, newId: Id, imgPath: Option<string>, description: string, price: Option<int>): (o: Step<Avatar>)
    ensures o.result.Ok?
    ensures o.result.value.price == (if price.Some? then price.value else 0)
    ensures o.result.value.id == newId && o.result.value.imgPath == imgPath && o.result.value.description == description
    ensures o.store == s.(avatars := s.avatars + [o.result.value])
  {
    var a := Avatar(newId, imgPath, description, price.GetOr(0));
    Step(s.(avatars := s.avatars + [a]), Ok(a))
  }

  /** `createCategory`: the avatar must exist (404) and not already have a category of that name (409). */
  function CreateCategory(s: Store, avatarId: Id, name: string, newId: Id): (o: Step<Category>)
    ensures o.result.Err? ==> o.store == s
    ensures AvatarById(s, avatarId).None? ==> o.result == Err(AppError(404, "Avatar not found"))
    ensures AvatarById(s, avatarId).Some? && CategoryNamed(s, avatarId, name).Some? ==>
      o.result == Err(AppError(409, "Category already exists for this avatar"))
    ensures o.result.Ok? <==> AvatarById(s, avatarId).Some? && CategoryNamed(s, avatarId, name).None?
    ensures o.result.Ok? ==>
      o.result.value == Category(newId, avatarId, name) && o.store == s.(categories := s.categories + [o.result.value])
  {
    if AvatarById(s, avatarId).None? then Step(s, Err(AppError(404, "Avatar not found")))
    else if CategoryNamed(s, avatarId, name).Some? then Step(s, Err(AppError(409, "Category already exists for this avatar")))
    else
      var c := Category(newId, avatarId, name);
      Step(s.(categories := s.categories + [c]), Ok(c))
  }

  /** `createStyle`: the category must exist (404). */
  function CreateStyle(s: Store, categoryId: Id, styleName: string, description: Option<string>, newId: Id): (o: Step<Style>)
    ensures o.result.Err? ==> o.store == s
    ensures o.result.Ok? <==> CategoryById(s, categoryId).Some?
    ensures o.result.Err? ==> o.result == Err(AppError(404, "Avatar category not found"))
    ensures o.result.Ok? ==>
      o.result.value == Style(newId, categoryId, styleName, description) && o.store == s.(styles := s.styles + [o.result.value])
  {
    if CategoryById(s, categoryId).None? then Step(s, Err(AppError(404, "Avatar category not found")))
    else
      var st := Style(newId, categoryId, styleName, description);
      Step(s.(styles := s.styles + [st]), Ok(st))
  }

  /** `createAsset`: the style must exist (404); price defaults to 0 and isStarter to false. */
  function CreateAsset(s: Store, styleId: Id, imgPath: Option<string>, colorName: string, price: Option<int>, isStarter: Option<bool>, newId: Id): (o: Step<Asset>)
    ensures o.result.Err? ==> o.store == s
    ensures o.result.Ok? <==> StyleById(s, styleId).Some?
    ensures o.result.Err? ==> o.result == Err(AppError(404, "Style not found"))
    ensures o.result.Ok? ==>
      && o.result.value.id == newId && o.result.value.styleId == styleId
      && o.result.value.imgPath == imgPath && o.result.value.colorName == colorName
      && o.result.value.price == (if price.Some? then price.value else 0)
      && o.result.value.isStarter == (isStarter.Some? && isStarter.value)
      && o.store == s.(assets := s.assets + [o.result.value])
  {
    if StyleById(s, styleId).None? then Step(s, Err(AppError(404, "Style not found")))
    else
      var a := Asset(newId, styleId, imgPath, colorName, price.GetOr(0), isStarter.GetOr(false));
      Step(s.(assets := s.assets + [a]), Ok(a))
  }

  // ---- the integrity the cascades keep ----

  ghost predicate HasAvatar(s: Store, id: Id) {
    exists a :: a in s.avatars && a.id == id
  }

  ghost predicate HasCategory(s: Store, id: Id) {
    exists c :: c in s.categories && c.id == id
  }

  ghost predicate HasStyle(s: Store, id: Id) {
    exists st :: st in s.styles && st.id == id
  }

  ghost predicate HasAsset(s: Store, id: Id) {
    exists a :: a in s.assets && a.id == id
  }

  /** Every reference into the catalog resolves. */
  ghost predicate CatalogLinked(s: Store) {
    && (forall c :: c in s.categories ==> HasAvatar(s, c.avatarId))
    && (forall st :: st in s.styles ==> HasCategory(s, st.categoryId))
    && (forall a :: a in s.assets ==> HasStyle(s, a.styleId))
    && (forall x :: x in s.childAssets ==> HasAsset(s, x.assetId))
    && (forall n :: n in s.notifications && n.assetId.Some? ==> HasAsset(s, n.assetId.value))
    && (forall o :: o in s.ownerships ==> HasAvatar(s, o.avatarId))
    && (forall i :: 0 <= i < |s.children| && s.children[i].avatarId.Some? ==> HasAvatar(s, s.children[i].avatarId.value))
  }

  /** At most one category per (avatar, name). */
  ghost predicate CategoryNamesUnique(s: Store) {
    forall i, j :: 0 <= i < j < |s.categories| ==>
      !(s.categories[i].avatarId == s.categories[j].avatarId && s.categories[i].name == s.categories[j].name)
  }

  /** No row points at the avatar `id`. */
  ghost predicate AvatarUnreferenced(s: Store, id: Id) {
    && (forall c :: c in s.categories ==> c.avatarId != id)
    && (forall o :: o in s.ownerships ==> o.avatarId != id)
    && (forall i :: 0 <= i < |s.children| ==> s.children[i].avatarId != Some(id))
  }

  /** No row points at the asset `id`. */
  ghost predicate AssetUnreferenced(s: Store, id: Id) {
    && (forall x :: x in s.childAssets ==> x.assetId != id)
    && (forall n :: n in s.notifications ==> n.assetId != Some(id))
  }

  /**
   * `s'` only removes catalog rows (and clears children's avatar choices);
   * every other table is as it was.
   */
  ghost predicate OnlyRemoves(s: Store, s': Store) {
    && s'.users == s.users && s'.parents == s.parents && s'.goals == s.goals
    && s'.assignments == s.assignments && s'.posts == s.posts && s'.comments == s.comments
    && |s'.children| == |s.children|
    && (forall i :: 0 <= i < |s.children| ==> s'.children[i] == s.children[i] || s'.children[i] == s.children[i].(avatarId := None))
    && (forall x :: x in s'.avatars ==> x in s.avatars)
    && (forall x :: x in s'.categories ==> x in s.categories)
    && (forall x :: x in s'.styles ==> x in s.styles)
    && (forall x :: x in s'.assets ==> x in s.assets)
    && (forall x :: x in s'.childAssets ==> x in s.childAssets)
    && (forall x :: x in s'.ownerships ==> x in s.ownerships)
    && (forall x :: x in s'.notifications ==> x in s.notifications)
  }

  /**
   * From `s` to `s'` only rows were removed, and every removed row took the rows
   * pointing at it along: nothing is left dangling.
   */
  ghost predicate CascadeSound(s: Store, s': Store) {
    && OnlyRemoves(s, s')
    && (forall a :: a in s.avatars && a !in s'.avatars ==> AvatarUnreferenced(s', a.id))
    && (forall c :: c in s.categories && c !in s'.categories ==> forall st :: st in s'.styles ==> st.categoryId != c.id)
    && (forall st :: st in s.styles && st !in s'.styles ==> forall a :: a in s'.assets ==> a.styleId != st.id)
    && (forall a :: a in s.assets && a !in s'.assets ==> AssetUnreferenced(s', a.id))
  }

  lemma CascadeSoundRefl(s: Store)
    ensures CascadeSound(s, s)
  {
  }

  lemma CascadeSoundTrans(s0: Store, s1: Store, s2: Store)
    requires CascadeSound(s0, s1) && CascadeSound(s1, s2)
    ensures CascadeSound(s0, s2)
  {
    forall i | 0 <= i < |s0.children|
      ensures s2.children[i] == s0.children[i] || s2.children[i] == s0.children[i].(avatarId := None)
    {
    }
    forall a | a in s0.avatars && a !in s2.avatars
      ensures AvatarUnreferenced(s2, a.id)
    {
      if a !in s1.avatars {
        forall i | 0 <= i < |s2.children|
          ensures s2.children[i].avatarId != Some(a.id)
        {
          assert s1.children[i].avatarId != Some(a.id);
        }
      }
    }
  }

  // ---- primary keys ----

  function CategoryKey(c: Category): Id { c.id }
  function StyleKey(st: Style): Id { st.id }
  function AssetKey(a: Asset): Id { a.id }

  /** The primary keys of the catalog tables the cascades walk are unique. */
  ghost predicate KeysUnique(s: Store) {
    UniqueBy(s.categories, CategoryKey) && UniqueBy(s.styles, StyleKey) && UniqueBy(s.assets, AssetKey)
  }

  // ---- the rows a cascade walks (`findMany` of the children, their ids) ----

  /** The ids of the style's assets, in table order. */
  function AssetIdsOf(s: Store, styleId: Id): (r: seq<Id>)
    ensures forall x :: x in r <==> exists a :: a in s.assets && a.styleId == styleId && a.id == x
    ensures UniqueBy(s.assets, AssetKey) ==> !HasDuplicates(r)
  {
    var under := (a: Asset) => a.styleId == styleId;
    FilterKeepsUnique(s.assets, under, AssetKey);
    Column(Filter(s.assets, under), AssetKey)
  }

  /** The ids of the category's styles, in table order. */
  function StyleIdsOf(s: Store, categoryId: Id): (r: seq<Id>)
    ensures forall x :: x in r <==> exists st :: st in s.styles && st.categoryId == categoryId && st.id == x
    ensures UniqueBy(s.styles, StyleKey) ==> !HasDuplicates(r)
  {
    var under := (st: Style) => st.categoryId == categoryId;
    FilterKeepsUnique(s.styles, under, StyleKey);
    Column(Filter(s.styles, under), StyleKey)
  }

  /** The ids of the avatar's categories, in table order. */
  function CategoryIdsOf(s: Store, avatarId: Id): (r: seq<Id>)
    ensures forall x :: x in r <==> exists c :: c in s.categories && c.avatarId == avatarId && c.id == x
    ensures UniqueBy(s.categories, CategoryKey) ==> !HasDuplicates(r)
  {
    var under := (c: Category) => c.avatarId == avatarId;
    FilterKeepsUnique(s.categories, under, CategoryKey);
    Column(Filter(s.categories, under), CategoryKey)
  }

  // ---- the cascades ----

  /** A path the storage call is made for: present and non-empty. */
  predicate HasImage(imgPath: Option<string>) {
    imgPath.Some? && imgPath.value != ""
  }

  /** The closing transaction of an asset delete: the asset with its owned copies and notifications. */
  function RemoveAssetRow(s: Store, assetId: Id): (s': Store)
    ensures forall a :: a in s'.assets <==> a in s.assets && a.id != assetId
    ensures forall x :: x in s'.childAssets <==> x in s.childAssets && x.assetId != assetId
    ensures forall n :: n in s'.notifications <==> n in s.notifications && n.assetId != Some(assetId)
    ensures s' == s.(assets := s'.assets, childAssets := s'.childAssets, notifications := s'.notifications)
    ensures UniqueBy(s.assets, AssetKey) ==> UniqueBy(s'.assets, AssetKey)
  {
    var keep := (x: Asset) => x.id != assetId;
    FilterKeepsUnique(s.assets, keep, AssetKey);
    s.(childAssets := Filter(s.childAssets, (x: ChildAsset) => x.assetId != assetId),
       notifications := Filter(s.notifications, (n: Notification) => n.assetId != Some(assetId)),
       assets := Filter(s.assets, keep))
  }

  /** The closing write of a style delete, once its assets are gone. */
  function RemoveStyleRow(s: Store, styleId: Id): (s': Store)
    ensures forall st :: st in s'.styles <==> st in s.styles && st.id != styleId
    ensures s' == s.(styles := s'.styles)
    ensures UniqueBy(s.styles, StyleKey) ==> UniqueBy(s'.styles, StyleKey)
  {
    var keep := (st: Style) => st.id != styleId;
    FilterKeepsUnique(s.styles, keep, StyleKey);
    s.(styles := Filter(s.styles, keep))
  }

  /** The closing write of a category delete, once its styles are gone. */
  function RemoveCategoryRow(s: Store, categoryId: Id): (s': Store)
    ensures forall c :: c in s'.categories <==> c in s.categories && c.id != categoryId
    ensures s' == s.(categories := s'.categories)
    ensures UniqueBy(s.categories, CategoryKey) ==> UniqueBy(s'.categories, CategoryKey)
  {
    var keep := (c: Category) => c.id != categoryId;
    FilterKeepsUnique(s.categories, keep, CategoryKey);
    s.(categories := Filter(s.categories, keep))
  }

  /**
   * `deleteAssetInternal`: 404 for an unknown asset; if its image cannot be
   * deleted, 400 before anything is written; otherwise the asset and every owned
   * copy and notification of it go, together.
   */
  function DeleteAsset(s: Store, assetId: Id, failing: set<string>): (o: Step<Id>)
    ensures CascadeSound(s, o.store)
    ensures o.result.Err? ==> o.store == s
    ensures AssetById(s, assetId).None? ==> o.result == Err(AppError(404, "Asset not found"))
    ensures AssetById(s, assetId).Some? ==>
      var a := s.assets[AssetById(s, assetId).value];
      (HasImage(a.imgPath) && a.imgPath.value in failing <==> o.result == Err(AppError(400, "Asset image delete failed")))
    ensures o.result.Ok? <==>
      AssetById(s, assetId).Some? && !(var a := s.assets[AssetById(s, assetId).value]; HasImage(a.imgPath) && a.imgPath.value in failing)
    ensures o.result.Ok? ==>
      && o.result.value == assetId
      && (forall a :: a in o.store.assets <==> a in s.assets && a.id != assetId)
      && (forall x :: x in o.store.childAssets <==> x in s.childAssets && x.assetId != assetId)
      && (forall n :: n in o.store.notifications <==> n in s.notifications && n.assetId != Some(assetId))
      && o.store == s.(assets := o.store.assets, childAssets := o.store.childAssets, notifications := o.store.notifications)
  {
    var i := AssetById(s, assetId);
    if i.None? then Step(s, Err(AppError(404, "Asset not found")))
    else
      var a := s.assets[i.value];
      if HasImage(a.imgPath) && a.imgPath.value in failing then Step(s, Err(AppError(400, "Asset image delete failed")))
      else
        Step(RemoveAssetRow(s, assetId), Ok(assetId))
  }

  /** One turn of the loop over assets: soundness composes, and the removed ids stay removed. */
  lemma AssetLoopStep(s: Store, mid: Store, last: Store, ids: seq<Id>, ok: bool)
    requires |ids| > 0
    requires CascadeSound(s, mid) && CascadeSound(mid, last)
    requires forall a :: a in mid.assets ==> a.id != ids[0]
    requires ok ==> forall a :: a in last.assets ==> a.id !in ids[1..]
    ensures CascadeSound(s, last)
    ensures ok ==> forall a :: a in last.assets ==> a.id !in ids
  {
    CascadeSoundTrans(s, mid, last);
    assert ids == [ids[0]] + ids[1..];
  }

  /** The `for ... of` over assets: deletes them in order and stops at the first failure. */
  function DeleteAssets(s: Store, ids: seq<Id>, failing: set<string>): (o: Step<()>)
    ensures CascadeSound(s, o.store)
    ensures o.result.Ok? ==> forall a :: a in o.store.assets ==> a.id !in ids
    decreases |ids|
  {
    if |ids| == 0 then Step(s, Ok(()))
    else
      var first := DeleteAsset(s, ids[0], failing);
      if first.result.Err? then Step(first.store, Err(first.result.error))
      else
        var rest := DeleteAssets(first.store, ids[1..], failing);
        AssetLoopStep(s, first.store, rest.store, ids, rest.result.Ok?);
        rest
  }

  /** `deleteStyleInternal`: 404 for an unknown style; its assets one by one, then the style. */
  function DeleteStyle(s: Store, styleId: Id, failing: set<string>): (o: Step<Id>)
    ensures CascadeSound(s, o.store)
    ensures StyleById(s, styleId).None? ==> o == Step(s, Err(AppError(404, "Style not found")))
    ensures o.result.Ok? ==>
      && o.result.value == styleId
      && (forall st :: st in o.store.styles ==> st.id != styleId)
      && (forall a :: a in o.store.assets ==> a.styleId != styleId)
  {
    if StyleById(s, styleId).None? then Step(s, Err(AppError(404, "Style not found")))
    else
      var ids := AssetIdsOf(s, styleId);
      var cleared := DeleteAssets(s, ids, failing);
      if cleared.result.Err? then Step(cleared.store, Err(cleared.result.error))
      else
        var s1 := cleared.store;
        assert forall a :: a in s1.assets ==> a.styleId != styleId by {
          forall a | a in s1.assets
            ensures a.styleId != styleId
          {
          }
        }
        var s2 := RemoveStyleRow(s1, styleId);
        CascadeSoundTrans(s, s1, s2);
        Step(s2, Ok(styleId))
  }

  /** One turn of the loop over styles: soundness composes, and the removed ids stay removed. */
  lemma StyleLoopStep(s: Store, mid: Store, last: Store, ids: seq<Id>, ok: bool)
    requires |ids| > 0
    requires CascadeSound(s, mid) && CascadeSound(mid, last)
    requires forall st :: st in mid.styles ==> st.id != ids[0]
    requires ok ==> forall st :: st in last.styles ==> st.id !in ids[1..]
    ensures CascadeSound(s, last)
    ensures ok ==> forall st :: st in last.styles ==> st.id !in ids
  {
    CascadeSoundTrans(s, mid, last);
    assert ids == [ids[0]] + ids[1..];
  }

  /** The `for ... of` over styles. */
  function DeleteStyles(s: Store, ids: seq<Id>, failing: set<string>): (o: Step<()>)
    ensures CascadeSound(s, o.store)
    ensures o.result.Ok? ==> forall st :: st in o.store.styles ==> st.id !in ids
    decreases |ids|
  {
    if |ids| == 0 then Step(s, Ok(()))
    else
      var first := DeleteStyle(s, ids[0], failing);
      if first.result.Err? then Step(first.store, Err(first.result.error))
      else
        var rest := DeleteStyles(first.store, ids[1..], failing);
        StyleLoopStep(s, first.store, rest.store, ids, rest.result.Ok?);
        rest
  }

  /** `deleteCategoryInternal`: 404 for an unknown category; its styles one by one, then the category. */
  function DeleteCategory(s: Store, categoryId: Id, failing: set<string>): (o: Step<Id>)
    ensures CascadeSound(s, o.store)
    ensures CategoryById(s, categoryId).None? ==> o == Step(s, Err(AppError(404, "Avatar category not found")))
    ensures o.result.Ok? ==>
      && o.result.value == categoryId
      && (forall c :: c in o.store.categories ==> c.id != categoryId)
      && (forall st :: st in o.store.styles ==> st.categoryId != categoryId)
  {
    if CategoryById(s, categoryId).None? then Step(s, Err(AppError(404, "Avatar category not found")))
    else
      var ids := StyleIdsOf(s, categoryId);
      var cleared := DeleteStyles(s, ids, failing);
      if cleared.result.Err? then Step(cleared.store, Err(cleared.result.error))
      else
        var s1 := cleared.store;
        assert forall st :: st in s1.styles ==> st.categoryId != categoryId by {
          forall st | st in s1.styles
            ensures st.categoryId != categoryId
          {
          }
        }
        var s2 := RemoveCategoryRow(s1, categoryId);
        CascadeSoundTrans(s, s1, s2);
        Step(s2, Ok(categoryId))
  }

  /** One turn of the loop over categories: soundness composes, and the removed ids stay removed. */
  lemma CategoryLoopStep(s: Store, mid: Store, last: Store, ids: seq<Id>, ok: bool)
    requires |ids| > 0
    requires CascadeSound(s, mid) && CascadeSound(mid, last)
    requires forall c :: c in mid.categories ==> c.id != ids[0]
    requires ok ==> forall c :: c in last.categories ==> c.id !in ids[1..]
    ensures CascadeSound(s, last)
    ensures ok ==> forall c :: c in last.categories ==> c.id !in ids
  {
    CascadeSoundTrans(s, mid, last);
    assert ids == [ids[0]] + ids[1..];
  }

  /** The `for ... of` over categories. */
  function DeleteCategories(s: Store, ids: seq<Id>, failing: set<string>): (o: Step<()>)
    ensures CascadeSound(s, o.store)
    ensures o.result.Ok? ==> forall c :: c in o.store.categories ==> c.id !in ids
    decreases |ids|
  {
    if |ids| == 0 then Step(s, Ok(()))
    else
      var first := DeleteCategory(s, ids[0], failing);
      if first.result.Err? then Step(first.store, Err(first.result.error))
      else
        var rest := DeleteCategories(first.store, ids[1..], failing);
        CategoryLoopStep(s, first.store, rest.store, ids, rest.result.Ok?);
        rest
  }

  /** Children whose chosen avatar is `avatarId` lose the choice. */
  function ClearAvatarChoice(children: seq<ChildProfile>, avatarId: Id): (r: seq<ChildProfile>)
    ensures |r| == |children|
    ensures forall i :: 0 <= i < |children| ==>
      r[i] == if children[i].avatarId == Some(avatarId) then children[i].(avatarId := None) else children[i]
  {
    seq(|children|, i requires 0 <= i < |children| =>
      if children[i].avatarId == Some(avatarId) then children[i].(avatarId := None) else children[i])
  }

  /** The closing transaction of an avatar delete, once its categories are gone. */
  function RemoveAvatarRow(s: Store, avatarId: Id): (s': Store)
    requires forall c :: c in s.categories ==> c.avatarId != avatarId
    ensures CascadeSound(s, s')
    ensures forall a :: a in s'.avatars ==> a.id != avatarId
    ensures AvatarUnreferenced(s', avatarId)
  {
    var s' := s.(children := ClearAvatarChoice(s.children, avatarId),
                 ownerships := Filter(s.ownerships, (x: ChildAvatar) => x.avatarId != avatarId),
                 avatars := Filter(s.avatars, (a: Avatar) => a.id != avatarId));
    assert OnlyRemoves(s, s');
    s'
  }

  /**
   * `deleteAvatarInternal`: 404 for an unknown avatar; a failed image delete is
   * ignored; its categories one by one; then, together, the children's choice
   * of it is cleared, its ownerships removed and the avatar removed.
   */
  function DeleteAvatar(s: Store, avatarId: Id, failing: set<string>): (o: Step<Id>)
    ensures CascadeSound(s, o.store)
    ensures AvatarById(s, avatarId).None? ==> o == Step(s, Err(AppError(404, "Avatar not found")))
    ensures o.result.Ok? ==>
      && o.result.value == avatarId
      && (forall a :: a in o.store.avatars ==> a.id != avatarId)
      && AvatarUnreferenced(o.store, avatarId)
  {
    if AvatarById(s, avatarId).None? then Step(s, Err(AppError(404, "Avatar not found")))
    else
      var ids := CategoryIdsOf(s, avatarId);
      var cleared := DeleteCategories(s, ids, failing);
      if cleared.result.Err? then Step(cleared.store, Err(cleared.result.error))
      else
        var s1 := cleared.store;
        assert forall c :: c in s1.categories ==> c.avatarId != avatarId by {
          forall c | c in s1.categories
            ensures c.avatarId != avatarId
          {
          }
        }
        var s2 := RemoveAvatarRow(s1, avatarId);
        CascadeSoundTrans(s, s1, s2);
        Step(s2, Ok(avatarId))
  }
}
