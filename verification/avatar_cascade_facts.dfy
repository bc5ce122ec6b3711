/**
 * What a cascade delete touches and when it finishes. Every delete leaves every
 * row outside the deleted subtree where it was, also when it stops part-way; and,
 * with the catalog's primary keys unique, a delete finishes exactly when its root
 * exists and no asset image of its subtree fails to delete. An avatar's own
 * image plays no part: its failure is ignored.
 */
module AvatarCascadeFacts {
  import opened Wrappers
  import opened Tables
  import opened Entities
  import opened AvatarCatalog

  /**
   * A reference goes only with its target: from `s` to `s'`, every owned copy and
   * notification of a kept asset, every ownership of a kept avatar, and every
   * child whose chosen avatar is kept stays as it was.
   */
  ghost predicate RefsFollow(s: Store, s': Store) {
    && |s'.children| == |s.children|
    && (forall x :: x in s.childAssets && HasAsset(s', x.assetId) ==> x in s'.childAssets)
    && (forall n :: n in s.notifications && (n.assetId.None? || HasAsset(s', n.assetId.value)) ==> n in s'.notifications)
    && (forall o :: o in s.ownerships && HasAvatar(s', o.avatarId) ==> o in s'.ownerships)
    && (forall i :: 0 <= i < |s.children| && (s.children[i].avatarId.None? || HasAvatar(s', s.children[i].avatarId.value)) ==>
          s'.children[i] == s.children[i])
  }

  lemma RefsFollowTrans(s0: Store, s1: Store, s2: Store)
    requires RefsFollow(s0, s1) && RefsFollow(s1, s2)
    requires forall a :: a in s2.assets ==> a in s1.assets
    requires forall a :: a in s2.avatars ==> a in s1.avatars
    ensures RefsFollow(s0, s2)
  {
    forall i | 0 <= i < |s0.children| && (s0.children[i].avatarId.None? || HasAvatar(s2, s0.children[i].avatarId.value))
      ensures s2.children[i] == s0.children[i]
    {
      assert s1.children[i] == s0.children[i];
    }
  }

  /** Some asset of `s` with id `assetId` belongs to one of the styles `styleIds`. */
  ghost predicate AssetUnder(s: Store, assetId: Id, styleIds: seq<Id>) {
    exists b :: b in s.assets && b.styleId in styleIds && b.id == assetId
  }

  /** Some style of `s` with id `styleId` belongs to one of the categories `categoryIds`. */
  ghost predicate StyleUnder(s: Store, styleId: Id, categoryIds: seq<Id>) {
    exists t :: t in s.styles && t.categoryId in categoryIds && t.id == styleId
  }

  /** Some asset of `s` with id `assetId` belongs to a style of one of the categories `categoryIds`. */
  ghost predicate AssetUnderCategories(s: Store, assetId: Id, categoryIds: seq<Id>) {
    exists b :: b in s.assets && StyleUnder(s, b.styleId, categoryIds) && b.id == assetId
  }

  /** An asset image whose storage delete fails. */
  predicate Blocked(a: Asset, failing: set<string>) {
    HasImage(a.imgPath) && a.imgPath.value in failing
  }

  // ---- frames: every row outside the deleted subtree stays ----

  lemma DeleteAssetRows(s: Store, assetId: Id, failing: set<string>)
    ensures
      var s' := DeleteAsset(s, assetId, failing).store;
      && s'.avatars == s.avatars && s'.categories == s.categories && s'.styles == s.styles
      && (forall a :: a in s.assets && a.id != assetId ==> a in s'.assets)
  {
  }

  lemma {:induction false} DeleteAssetsRows(s: Store, ids: seq<Id>, failing: set<string>)
    ensures
      var s' := DeleteAssets(s, ids, failing).store;
      && s'.avatars == s.avatars && s'.categories == s.categories && s'.styles == s.styles
      && (forall a :: a in s.assets && a.id !in ids ==> a in s'.assets)
    decreases |ids|
  {
    if |ids| > 0 {
      var first := DeleteAsset(s, ids[0], failing);
      DeleteAssetRows(s, ids[0], failing);
      if first.result.Ok? {
        DeleteAssetsRows(first.store, ids[1..], failing);
      }
    }
  }

  /** `deleteStyleInternal` keeps every other style and every asset of another style. */
  lemma DeleteStyleRows(s: Store, styleId: Id, failing: set<string>)
    ensures
      var s' := DeleteStyle(s, styleId, failing).store;
      && s'.avatars == s.avatars && s'.categories == s.categories
      && (forall st :: st in s.styles && st.id != styleId ==> st in s'.styles)
      && (forall a :: a in s.assets && a.id !in AssetIdsOf(s, styleId) ==> a in s'.assets)
  {
    if StyleById(s, styleId).Some? {
      DeleteAssetsRows(s, AssetIdsOf(s, styleId), failing);
    }
  }

  /** One turn of the loop over styles keeps the assets outside the styles still to go. */
  lemma StylesStepKeepsAssets(s: Store, s1: Store, s2: Store, ids: seq<Id>)
    requires |ids| > 0
    requires forall a :: a in s1.assets ==> a in s.assets
    requires forall a :: a in s.assets && a.id !in AssetIdsOf(s, ids[0]) ==> a in s1.assets
    requires forall a :: a in s1.assets && !AssetUnder(s1, a.id, ids[1..]) ==> a in s2.assets
    ensures forall a :: a in s.assets && !AssetUnder(s, a.id, ids) ==> a in s2.assets
  {
    forall a | a in s.assets && !AssetUnder(s, a.id, ids)
      ensures a in s2.assets
    {
      forall b | b in s.assets && b.styleId == ids[0]
        ensures b.id != a.id
      {
        assert b.styleId in ids;
      }
      forall b | b in s1.assets && b.styleId in ids[1..]
        ensures b.id != a.id
      {
        assert b in s.assets && b.styleId in ids;
      }
    }
  }

  lemma {:induction false} DeleteStylesTouches(s: Store, ids: seq<Id>, failing: set<string>)
    ensures
      var s' := DeleteStyles(s, ids, failing).store;
      s'.avatars == s.avatars && s'.categories == s.categories
    decreases |ids|
  {
    if |ids| > 0 {
      var first := DeleteStyle(s, ids[0], failing);
      DeleteStyleRows(s, ids[0], failing);
      if first.result.Ok? {
        DeleteStylesTouches(first.store, ids[1..], failing);
      }
    }
  }

  lemma {:induction false} DeleteStylesKeepsStyles(s: Store, ids: seq<Id>, failing: set<string>)
    ensures
      var s' := DeleteStyles(s, ids, failing).store;
      forall st :: st in s.styles && st.id !in ids ==> st in s'.styles
    decreases |ids|
  {
    if |ids| > 0 {
      var first := DeleteStyle(s, ids[0], failing);
      DeleteStyleRows(s, ids[0], failing);
      if first.result.Ok? {
        DeleteStylesKeepsStyles(first.store, ids[1..], failing);
      }
    }
  }

  lemma {:induction false} DeleteStylesKeepsAssets(s: Store, ids: seq<Id>, failing: set<string>)
    ensures
      var s' := DeleteStyles(s, ids, failing).store;
      forall a :: a in s.assets && !AssetUnder(s, a.id, ids) ==> a in s'.assets
    decreases |ids|
  {
    if |ids| > 0 {
      var first := DeleteStyle(s, ids[0], failing);
      DeleteStyleRows(s, ids[0], failing);
      if first.result.Ok? {
        var s1 := first.store;
        DeleteStylesKeepsAssets(s1, ids[1..], failing);
        StylesStepKeepsAssets(s, s1, DeleteStyles(s1, ids[1..], failing).store, ids);
      }
    }
  }

  /** `deleteCategoryInternal` keeps every other category and every row outside its styles. */
  lemma DeleteCategoryRows(s: Store, categoryId: Id, failing: set<string>)
    ensures
      var s' := DeleteCategory(s, categoryId, failing).store;
      && s'.avatars == s.avatars
      && (forall c :: c in s.categories && c.id != categoryId ==> c in s'.categories)
  {
    if CategoryById(s, categoryId).Some? {
      DeleteStylesTouches(s, StyleIdsOf(s, categoryId), failing);
    }
  }

  lemma DeleteCategoryKeepsStyles(s: Store, categoryId: Id, failing: set<string>)
    ensures
      var s' := DeleteCategory(s, categoryId, failing).store;
      forall st :: st in s.styles && st.id !in StyleIdsOf(s, categoryId) ==> st in s'.styles
  {
    if CategoryById(s, categoryId).Some? {
      DeleteStylesKeepsStyles(s, StyleIdsOf(s, categoryId), failing);
    }
  }

  lemma DeleteCategoryKeepsAssets(s: Store, categoryId: Id, failing: set<string>)
    ensures
      var s' := DeleteCategory(s, categoryId, failing).store;
      forall a :: a in s.assets && !AssetUnder(s, a.id, StyleIdsOf(s, categoryId)) ==> a in s'.assets
  {
    if CategoryById(s, categoryId).Some? {
      DeleteStylesKeepsAssets(s, StyleIdsOf(s, categoryId), failing);
    }
  }

  /** One turn of the loop over categories keeps the styles outside the categories still to go. */
  lemma CategoriesStepKeepsStyles(s: Store, s1: Store, s2: Store, ids: seq<Id>)
    requires |ids| > 0
    requires forall st :: st in s1.styles ==> st in s.styles
    requires forall st :: st in s.styles && st.id !in StyleIdsOf(s, ids[0]) ==> st in s1.styles
    requires forall st :: st in s1.styles && !StyleUnder(s1, st.id, ids[1..]) ==> st in s2.styles
    ensures forall st :: st in s.styles && !StyleUnder(s, st.id, ids) ==> st in s2.styles
  {
    forall st | st in s.styles && !StyleUnder(s, st.id, ids)
      ensures st in s2.styles
    {
      forall t | t in s.styles && t.categoryId == ids[0]
        ensures t.id != st.id
      {
        assert t.categoryId in ids;
      }
      forall t | t in s1.styles && t.categoryId in ids[1..]
        ensures t.id != st.id
      {
        assert t in s.styles && t.categoryId in ids;
      }
    }
  }

  /** One turn of the loop over categories keeps the assets outside the categories still to go. */
  lemma CategoriesStepKeepsAssets(s: Store, s1: Store, s2: Store, ids: seq<Id>)
    requires |ids| > 0
    requires forall st :: st in s1.styles ==> st in s.styles
    requires forall a :: a in s1.assets ==> a in s.assets
    requires forall a :: a in s.assets && !AssetUnder(s, a.id, StyleIdsOf(s, ids[0])) ==> a in s1.assets
    requires forall a :: a in s1.assets && !AssetUnderCategories(s1, a.id, ids[1..]) ==> a in s2.assets
    ensures forall a :: a in s.assets && !AssetUnderCategories(s, a.id, ids) ==> a in s2.assets
  {
    forall a | a in s.assets && !AssetUnderCategories(s, a.id, ids)
      ensures a in s2.assets
    {
      forall b | b in s.assets && b.styleId in StyleIdsOf(s, ids[0])
        ensures b.id != a.id
      {
        var t :| t in s.styles && t.categoryId == ids[0] && t.id == b.styleId;
        assert StyleUnder(s, b.styleId, ids);
      }
      forall b | b in s1.assets && StyleUnder(s1, b.styleId, ids[1..])
        ensures b.id != a.id
      {
        var t :| t in s1.styles && t.categoryId in ids[1..] && t.id == b.styleId;
        assert t in s.styles && t.categoryId in ids;
        assert StyleUnder(s, b.styleId, ids);
      }
    }
  }

  lemma {:induction false} DeleteCategoriesTouches(s: Store, ids: seq<Id>, failing: set<string>)
    ensures DeleteCategories(s, ids, failing).store.avatars == s.avatars
    decreases |ids|
  {
    if |ids| > 0 {
      var first := DeleteCategory(s, ids[0], failing);
      DeleteCategoryRows(s, ids[0], failing);
      if first.result.Ok? {
        DeleteCategoriesTouches(first.store, ids[1..], failing);
      }
    }
  }

  lemma {:induction false} DeleteCategoriesKeepsCategories(s: Store, ids: seq<Id>, failing: set<string>)
    ensures
      var s' := DeleteCategories(s, ids, failing).store;
      forall c :: c in s.categories && c.id !in ids ==> c in s'.categories
    decreases |ids|
  {
    if |ids| > 0 {
      var first := DeleteCategory(s, ids[0], failing);
      DeleteCategoryRows(s, ids[0], failing);
      if first.result.Ok? {
        DeleteCategoriesKeepsCategories(first.store, ids[1..], failing);
      }
    }
  }

  lemma {:induction false} DeleteCategoriesKeepsStyles(s: Store, ids: seq<Id>, failing: set<string>)
    ensures
      var s' := DeleteCategories(s, ids, failing).store;
      forall st :: st in s.styles && !StyleUnder(s, st.id, ids) ==> st in s'.styles
    decreases |ids|
  {
    if |ids| > 0 {
      var first := DeleteCategory(s, ids[0], failing);
      DeleteCategoryKeepsStyles(s, ids[0], failing);
      if first.result.Ok? {
        var s1 := first.store;
        DeleteCategoriesKeepsStyles(s1, ids[1..], failing);
        CategoriesStepKeepsStyles(s, s1, DeleteCategories(s1, ids[1..], failing).store, ids);
      }
    }
  }

  lemma {:induction false} DeleteCategoriesKeepsAssets(s: Store, ids: seq<Id>, failing: set<string>)
    ensures
      var s' := DeleteCategories(s, ids, failing).store;
      forall a :: a in s.assets && !AssetUnderCategories(s, a.id, ids) ==> a in s'.assets
    decreases |ids|
  {
    if |ids| > 0 {
      var first := DeleteCategory(s, ids[0], failing);
      DeleteCategoryKeepsAssets(s, ids[0], failing);
      if first.result.Ok? {
        var s1 := first.store;
        DeleteCategoriesKeepsAssets(s1, ids[1..], failing);
        CategoriesStepKeepsAssets(s, s1, DeleteCategories(s1, ids[1..], failing).store, ids);
      }
    }
  }

  /** `deleteAvatarInternal` keeps every other avatar and every row outside its categories. */
  lemma DeleteAvatarRows(s: Store, avatarId: Id, failing: set<string>)
    ensures
      var s' := DeleteAvatar(s, avatarId, failing).store;
      && (forall a :: a in s.avatars && a.id != avatarId ==> a in s'.avatars)
      && (forall c :: c in s.categories && c.id !in CategoryIdsOf(s, avatarId) ==> c in s'.categories)
  {
    if AvatarById(s, avatarId).Some? {
      var ids := CategoryIdsOf(s, avatarId);
      DeleteCategoriesTouches(s, ids, failing);
      DeleteCategoriesKeepsCategories(s, ids, failing);
    }
  }

  lemma DeleteAvatarKeepsStyles(s: Store, avatarId: Id, failing: set<string>)
    ensures
      var s' := DeleteAvatar(s, avatarId, failing).store;
      forall st :: st in s.styles && !StyleUnder(s, st.id, CategoryIdsOf(s, avatarId)) ==> st in s'.styles
  {
    if AvatarById(s, avatarId).Some? {
      DeleteCategoriesKeepsStyles(s, CategoryIdsOf(s, avatarId), failing);
    }
  }

  lemma DeleteAvatarKeepsAssets(s: Store, avatarId: Id, failing: set<string>)
    ensures
      var s' := DeleteAvatar(s, avatarId, failing).store;
      forall a :: a in s.assets && !AssetUnderCategories(s, a.id, CategoryIdsOf(s, avatarId)) ==> a in s'.assets
  {
    if AvatarById(s, avatarId).Some? {
      DeleteCategoriesKeepsAssets(s, CategoryIdsOf(s, avatarId), failing);
    }
  }

  // ---- frames: references go only with their targets ----

  lemma DeleteAssetRefs(s: Store, assetId: Id, failing: set<string>)
    ensures RefsFollow(s, DeleteAsset(s, assetId, failing).store)
  {
    var s' := DeleteAsset(s, assetId, failing).store;
    if DeleteAsset(s, assetId, failing).result.Ok? {
      forall x | x in s.childAssets && HasAsset(s', x.assetId)
        ensures x in s'.childAssets
      {
        var a :| a in s'.assets && a.id == x.assetId;
      }
      forall n | n in s.notifications && (n.assetId.None? || HasAsset(s', n.assetId.value))
        ensures n in s'.notifications
      {
        if n.assetId.Some? {
          var a :| a in s'.assets && a.id == n.assetId.value;
        }
      }
    }
  }

  lemma {:induction false} DeleteAssetsRefs(s: Store, ids: seq<Id>, failing: set<string>)
    ensures RefsFollow(s, DeleteAssets(s, ids, failing).store)
    decreases |ids|
  {
    if |ids| > 0 {
      var first := DeleteAsset(s, ids[0], failing);
      DeleteAssetRefs(s, ids[0], failing);
      if first.result.Ok? {
        var s1 := first.store;
        DeleteAssetsRefs(s1, ids[1..], failing);
        RefsFollowTrans(s, s1, DeleteAssets(s1, ids[1..], failing).store);
      }
    }
  }

  /** A write that leaves every referenced table and every reference alone keeps `RefsFollow`. */
  lemma RefsFollowUntouched(s: Store, s1: Store, s2: Store)
    requires RefsFollow(s, s1)
    requires s2.assets == s1.assets && s2.avatars == s1.avatars && s2.children == s1.children
    requires s2.childAssets == s1.childAssets && s2.notifications == s1.notifications && s2.ownerships == s1.ownerships
    ensures RefsFollow(s, s2)
  {
    assert forall id :: HasAsset(s2, id) == HasAsset(s1, id);
    assert forall id :: HasAvatar(s2, id) == HasAvatar(s1, id);
  }

  /** A delete that ends in the cleared store, or in it with one style or category row removed, keeps `RefsFollow`. */
  lemma RefsAfterRowRemoval(s: Store, cleared: Store, removed: Store, out: Store)
    requires RefsFollow(s, cleared)
    requires removed == cleared.(styles := removed.styles, categories := removed.categories)
    requires out == cleared || out == removed
    ensures RefsFollow(s, out)
  {
    if out == removed {
      RefsFollowUntouched(s, cleared, removed);
    }
  }

  lemma DeleteStyleRefs(s: Store, styleId: Id, failing: set<string>)
    ensures RefsFollow(s, DeleteStyle(s, styleId, failing).store)
  {
    if StyleById(s, styleId).Some? {
      var cleared := DeleteAssets(s, AssetIdsOf(s, styleId), failing);
      DeleteAssetsRefs(s, AssetIdsOf(s, styleId), failing);
      RefsAfterRowRemoval(s, cleared.store, RemoveStyleRow(cleared.store, styleId), DeleteStyle(s, styleId, failing).store);
    }
  }

  lemma {:induction false} DeleteStylesRefs(s: Store, ids: seq<Id>, failing: set<string>)
    ensures RefsFollow(s, DeleteStyles(s, ids, failing).store)
    decreases |ids|
  {
    if |ids| > 0 {
      var first := DeleteStyle(s, ids[0], failing);
      DeleteStyleRefs(s, ids[0], failing);
      if first.result.Ok? {
        var s1 := first.store;
        DeleteStylesRefs(s1, ids[1..], failing);
        RefsFollowTrans(s, s1, DeleteStyles(s1, ids[1..], failing).store);
      }
    }
  }

  lemma DeleteCategoryRefs(s: Store, categoryId: Id, failing: set<string>)
    ensures RefsFollow(s, DeleteCategory(s, categoryId, failing).store)
  {
    if CategoryById(s, categoryId).Some? {
      var cleared := DeleteStyles(s, StyleIdsOf(s, categoryId), failing);
      DeleteStylesRefs(s, StyleIdsOf(s, categoryId), failing);
      RefsAfterRowRemoval(s, cleared.store, RemoveCategoryRow(cleared.store, categoryId), DeleteCategory(s, categoryId, failing).store);
    }
  }

  lemma {:induction false} DeleteCategoriesRefs(s: Store, ids: seq<Id>, failing: set<string>)
    ensures RefsFollow(s, DeleteCategories(s, ids, failing).store)
    decreases |ids|
  {
    if |ids| > 0 {
      var first := DeleteCategory(s, ids[0], failing);
      DeleteCategoryRefs(s, ids[0], failing);
      if first.result.Ok? {
        var s1 := first.store;
        DeleteCategoriesRefs(s1, ids[1..], failing);
        RefsFollowTrans(s, s1, DeleteCategories(s1, ids[1..], failing).store);
      }
    }
  }

  /** The closing transaction touches only the avatar's own ownerships and choices. */
  lemma RemoveAvatarRowRefs(s: Store, avatarId: Id)
    requires forall c :: c in s.categories ==> c.avatarId != avatarId
    ensures RefsFollow(s, RemoveAvatarRow(s, avatarId))
  {
    var s' := RemoveAvatarRow(s, avatarId);
    forall o | o in s.ownerships && HasAvatar(s', o.avatarId)
      ensures o in s'.ownerships
    {
      var a :| a in s'.avatars && a.id == o.avatarId;
    }
    forall i | 0 <= i < |s.children| && (s.children[i].avatarId.None? || HasAvatar(s', s.children[i].avatarId.value))
      ensures s'.children[i] == s.children[i]
    {
      if s.children[i].avatarId.Some? {
        var a :| a in s'.avatars && a.id == s.children[i].avatarId.value;
      }
    }
  }

  lemma DeleteAvatarRefs(s: Store, avatarId: Id, failing: set<string>)
    ensures RefsFollow(s, DeleteAvatar(s, avatarId, failing).store)
  {
    if AvatarById(s, avatarId).Some? {
      var cleared := DeleteCategories(s, CategoryIdsOf(s, avatarId), failing);
      DeleteCategoriesRefs(s, CategoryIdsOf(s, avatarId), failing);
      if cleared.result.Ok? {
        var s1 := cleared.store;
        assert forall c :: c in s1.categories ==> c.avatarId != avatarId by {
          forall c | c in s1.categories
            ensures c.avatarId != avatarId
          {
          }
        }
        RemoveAvatarRowRefs(s1, avatarId);
        RefsFollowTrans(s, s1, RemoveAvatarRow(s1, avatarId));
      }
    }
  }

  // ---- the primary keys stay unique ----

  lemma DeleteAssetKeys(s: Store, assetId: Id, failing: set<string>)
    requires KeysUnique(s)
    ensures KeysUnique(DeleteAsset(s, assetId, failing).store)
  {
  }

  lemma {:induction false} DeleteAssetsKeys(s: Store, ids: seq<Id>, failing: set<string>)
    requires KeysUnique(s)
    ensures KeysUnique(DeleteAssets(s, ids, failing).store)
    decreases |ids|
  {
    if |ids| > 0 {
      var first := DeleteAsset(s, ids[0], failing);
      DeleteAssetKeys(s, ids[0], failing);
      if first.result.Ok? {
        DeleteAssetsKeys(first.store, ids[1..], failing);
      }
    }
  }

  lemma DeleteStyleKeys(s: Store, styleId: Id, failing: set<string>)
    requires KeysUnique(s)
    ensures KeysUnique(DeleteStyle(s, styleId, failing).store)
  {
    if StyleById(s, styleId).Some? {
      var ids := AssetIdsOf(s, styleId);
      DeleteAssetsKeys(s, ids, failing);
    }
  }

  lemma {:induction false} DeleteStylesKeys(s: Store, ids: seq<Id>, failing: set<string>)
    requires KeysUnique(s)
    ensures KeysUnique(DeleteStyles(s, ids, failing).store)
    decreases |ids|
  {
    if |ids| > 0 {
      var first := DeleteStyle(s, ids[0], failing);
      DeleteStyleKeys(s, ids[0], failing);
      if first.result.Ok? {
        DeleteStylesKeys(first.store, ids[1..], failing);
      }
    }
  }

  lemma DeleteCategoryKeys(s: Store, categoryId: Id, failing: set<string>)
    requires KeysUnique(s)
    ensures KeysUnique(DeleteCategory(s, categoryId, failing).store)
  {
    if CategoryById(s, categoryId).Some? {
      var ids := StyleIdsOf(s, categoryId);
      DeleteStylesKeys(s, ids, failing);
    }
  }

  lemma {:induction false} DeleteCategoriesKeys(s: Store, ids: seq<Id>, failing: set<string>)
    requires KeysUnique(s)
    ensures KeysUnique(DeleteCategories(s, ids, failing).store)
    decreases |ids|
  {
    if |ids| > 0 {
      var first := DeleteCategory(s, ids[0], failing);
      DeleteCategoryKeys(s, ids[0], failing);
      if first.result.Ok? {
        DeleteCategoriesKeys(first.store, ids[1..], failing);
      }
    }
  }

  // ---- when a delete finishes ----

  /** Rows of the same table with the same id are the same row. */
  ghost predicate IdsIdentify(s: Store) {
    && (forall a, b :: a in s.assets && b in s.assets && a.id == b.id ==> a == b)
    && (forall x, y :: x in s.styles && y in s.styles && x.id == y.id ==> x == y)
    && (forall c, d :: c in s.categories && d in s.categories && c.id == d.id ==> c == d)
  }

  lemma KeysIdentify(s: Store)
    requires KeysUnique(s)
    ensures IdsIdentify(s)
  {
    UniqueByMembers(s.assets, AssetKey);
    UniqueByMembers(s.styles, StyleKey);
    UniqueByMembers(s.categories, CategoryKey);
  }

  lemma NoDuplicatesTail<T>(xs: seq<T>)
    requires |xs| > 0 && !HasDuplicates(xs)
    ensures !HasDuplicates(xs[1..]) && xs[0] !in xs[1..]
  {
    forall i, j | 0 <= i < j < |xs[1..]|
      ensures xs[1..][i] != xs[1..][j]
    {
      assert xs[1..][i] == xs[i + 1] && xs[1..][j] == xs[j + 1];
    }
    forall j | 0 <= j < |xs[1..]|
      ensures xs[1..][j] != xs[0]
    {
      assert xs[1..][j] == xs[j + 1];
    }
  }

  /** After the first turn of a loop over distinct ids, the ids still to go still name rows. */
  lemma AssetsStillPresent(s: Store, s1: Store, ids: seq<Id>)
    requires |ids| > 0 && !HasDuplicates(ids)
    requires forall k :: 0 <= k < |ids| ==> HasAsset(s, ids[k])
    requires forall a :: a in s.assets && a.id != ids[0] ==> a in s1.assets
    ensures !HasDuplicates(ids[1..])
    ensures forall k :: 0 <= k < |ids[1..]| ==> HasAsset(s1, ids[1..][k])
  {
    NoDuplicatesTail(ids);
    forall k | 0 <= k < |ids[1..]|
      ensures HasAsset(s1, ids[1..][k])
    {
      assert HasAsset(s, ids[k + 1]);
      var b :| b in s.assets && b.id == ids[k + 1];
      assert b in s1.assets;
    }
  }

  lemma StylesStillPresent(s: Store, s1: Store, ids: seq<Id>)
    requires |ids| > 0 && !HasDuplicates(ids)
    requires forall k :: 0 <= k < |ids| ==> HasStyle(s, ids[k])
    requires forall st :: st in s.styles && st.id != ids[0] ==> st in s1.styles
    ensures !HasDuplicates(ids[1..])
    ensures forall k :: 0 <= k < |ids[1..]| ==> HasStyle(s1, ids[1..][k])
  {
    NoDuplicatesTail(ids);
    forall k | 0 <= k < |ids[1..]|
      ensures HasStyle(s1, ids[1..][k])
    {
      assert HasStyle(s, ids[k + 1]);
      var t :| t in s.styles && t.id == ids[k + 1];
      assert t in s1.styles;
    }
  }

  lemma CategoriesStillPresent(s: Store, s1: Store, ids: seq<Id>)
    requires |ids| > 0 && !HasDuplicates(ids)
    requires forall k :: 0 <= k < |ids| ==> HasCategory(s, ids[k])
    requires forall c :: c in s.categories && c.id != ids[0] ==> c in s1.categories
    ensures !HasDuplicates(ids[1..])
    ensures forall k :: 0 <= k < |ids[1..]| ==> HasCategory(s1, ids[1..][k])
  {
    NoDuplicatesTail(ids);
    forall k | 0 <= k < |ids[1..]|
      ensures HasCategory(s1, ids[1..][k])
    {
      assert HasCategory(s, ids[k + 1]);
      var c :| c in s.categories && c.id == ids[k + 1];
      assert c in s1.categories;
    }
  }

  /** One turn of the loop over assets: the first asset passes, so the loop finishes as the rest does. */
  lemma AssetsLoopIff(s: Store, s1: Store, ids: seq<Id>, failing: set<string>, rest: bool)
    requires |ids| > 0
    requires forall a :: a in s1.assets <==> a in s.assets && a.id != ids[0]
    requires forall a :: a in s.assets && a.id == ids[0] ==> !Blocked(a, failing)
    requires rest <==> forall a :: a in s1.assets && a.id in ids[1..] ==> !Blocked(a, failing)
    ensures rest <==> forall a :: a in s.assets && a.id in ids ==> !Blocked(a, failing)
  {
    assert ids == [ids[0]] + ids[1..];
  }

  /**
   * The loop over assets, with every id present once: it finishes exactly when
   * none of the assets has an image that fails to delete.
   */
  lemma {:induction false} DeleteAssetsSucceedsIff(s: Store, ids: seq<Id>, failing: set<string>)
    requires KeysUnique(s)
    requires !HasDuplicates(ids)
    requires forall k :: 0 <= k < |ids| ==> HasAsset(s, ids[k])
    ensures DeleteAssets(s, ids, failing).result.Ok? <==> forall a :: a in s.assets && a.id in ids ==> !Blocked(a, failing)
    decreases |ids|
  {
    if |ids| > 0 {
      KeysIdentify(s);
      var w :| w in s.assets && w.id == ids[0];
      var first := DeleteAsset(s, ids[0], failing);
      var a0 := s.assets[AssetById(s, ids[0]).value];
      assert a0 == w;
      if first.result.Ok? {
        var s1 := first.store;
        DeleteAssetKeys(s, ids[0], failing);
        AssetsStillPresent(s, s1, ids);
        DeleteAssetsSucceedsIff(s1, ids[1..], failing);
        AssetsLoopIff(s, s1, ids, failing, DeleteAssets(s1, ids[1..], failing).result.Ok?);
      }
    }
  }

  /** `deleteStyleInternal` finishes exactly when the style exists and none of its asset images fails to delete. */
  lemma DeleteStyleSucceedsIff(s: Store, styleId: Id, failing: set<string>)
    requires KeysUnique(s)
    ensures DeleteStyle(s, styleId, failing).result.Ok? <==>
      HasStyle(s, styleId) && forall a :: a in s.assets && a.styleId == styleId ==> !Blocked(a, failing)
  {
    if StyleById(s, styleId).Some? {
      KeysIdentify(s);
      var ids := AssetIdsOf(s, styleId);
      AssetIdsListed(s, styleId);
      DeleteAssetsSucceedsIff(s, ids, failing);
      StyleAssetsIff(s, styleId, failing, DeleteAssets(s, ids, failing).result.Ok?);
    } else {
      assert !HasStyle(s, styleId);
    }
  }

  /** Every id the style's `findMany` lists names an asset of the store. */
  lemma AssetIdsListed(s: Store, styleId: Id)
    ensures forall k :: 0 <= k < |AssetIdsOf(s, styleId)| ==> HasAsset(s, AssetIdsOf(s, styleId)[k])
  {
    var ids := AssetIdsOf(s, styleId);
    forall k | 0 <= k < |ids|
      ensures HasAsset(s, ids[k])
    {
      assert ids[k] in ids;
    }
  }

  /** Under unique asset ids, the assets listed by id are exactly the style's assets. */
  lemma StyleAssetsIff(s: Store, styleId: Id, failing: set<string>, ok: bool)
    requires IdsIdentify(s)
    requires ok <==> forall a :: a in s.assets && a.id in AssetIdsOf(s, styleId) ==> !Blocked(a, failing)
    ensures ok <==> forall a :: a in s.assets && a.styleId == styleId ==> !Blocked(a, failing)
  {
    var ids := AssetIdsOf(s, styleId);
    forall a | a in s.assets
      ensures a.id in ids <==> a.styleId == styleId
    {
      if a.id in ids {
        var b :| b in s.assets && b.styleId == styleId && b.id == a.id;
        assert b == a;
      }
    }
  }

  /** One turn of the loop over styles: the first style's assets pass, so the loop finishes as the rest does. */
  lemma StylesLoopIff(s: Store, s1: Store, ids: seq<Id>, failing: set<string>, rest: bool)
    requires |ids| > 0
    requires IdsIdentify(s)
    requires forall a :: a in s1.assets ==> a in s.assets
    requires forall a :: a in s.assets && a.id !in AssetIdsOf(s, ids[0]) ==> a in s1.assets
    requires forall a :: a in s.assets && a.styleId == ids[0] ==> !Blocked(a, failing)
    requires rest <==> forall a :: a in s1.assets && a.styleId in ids[1..] ==> !Blocked(a, failing)
    ensures rest <==> forall a :: a in s.assets && a.styleId in ids ==> !Blocked(a, failing)
  {
    assert ids == [ids[0]] + ids[1..];
    forall a | a in s.assets && a.styleId in ids[1..] && a.styleId != ids[0]
      ensures a in s1.assets
    {
      forall b | b in s.assets && b.styleId == ids[0]
        ensures b.id != a.id
      {
        assert b.styleId != a.styleId;
      }
    }
  }

  /** The loop over styles, with every id present once. */
  lemma {:induction false} DeleteStylesSucceedsIff(s: Store, ids: seq<Id>, failing: set<string>)
    requires KeysUnique(s)
    requires !HasDuplicates(ids)
    requires forall k :: 0 <= k < |ids| ==> HasStyle(s, ids[k])
    ensures DeleteStyles(s, ids, failing).result.Ok? <==> forall a :: a in s.assets && a.styleId in ids ==> !Blocked(a, failing)
    decreases |ids|, 1
  {
    if |ids| > 0 {
      DeleteStyleSucceedsIff(s, ids[0], failing);
      if DeleteStyle(s, ids[0], failing).result.Ok? {
        DeleteStylesTurn(s, ids, failing);
      }
    }
  }

  /** After a first style that goes, the loop over styles finishes as the rest does. */
  lemma {:induction false} DeleteStylesTurn(s: Store, ids: seq<Id>, failing: set<string>)
    requires KeysUnique(s)
    requires |ids| > 0 && !HasDuplicates(ids)
    requires forall k :: 0 <= k < |ids| ==> HasStyle(s, ids[k])
    requires DeleteStyle(s, ids[0], failing).result.Ok?
    ensures
      var s1 := DeleteStyle(s, ids[0], failing).store;
      DeleteStyles(s1, ids[1..], failing).result.Ok? <==> forall a :: a in s.assets && a.styleId in ids ==> !Blocked(a, failing)
    decreases |ids|, 0
  {
    var s1 := DeleteStyle(s, ids[0], failing).store;
    KeysIdentify(s);
    DeleteStyleSucceedsIff(s, ids[0], failing);
    DeleteStyleKeys(s, ids[0], failing);
    DeleteStyleRows(s, ids[0], failing);
    StylesStillPresent(s, s1, ids);
    DeleteStylesSucceedsIff(s1, ids[1..], failing);
    StylesLoopIff(s, s1, ids, failing, DeleteStyles(s1, ids[1..], failing).result.Ok?);
  }

  /**
   * `deleteCategoryInternal` finishes exactly when the category exists and no
   * asset of any of its styles has an image that fails to delete.
   */
  lemma DeleteCategorySucceedsIff(s: Store, categoryId: Id, failing: set<string>)
    requires KeysUnique(s)
    ensures DeleteCategory(s, categoryId, failing).result.Ok? <==>
      && HasCategory(s, categoryId)
      && forall st, a :: st in s.styles && st.categoryId == categoryId && a in s.assets && a.styleId == st.id ==> !Blocked(a, failing)
  {
    if CategoryById(s, categoryId).Some? {
      var ids := StyleIdsOf(s, categoryId);
      DeleteStylesSucceedsIff(s, ids, failing);
    } else {
      assert !HasCategory(s, categoryId);
    }
  }

  /** One turn of the loop over categories: the first category's assets pass, so the loop finishes as the rest does. */
  lemma CategoriesLoopIff(s: Store, s1: Store, ids: seq<Id>, failing: set<string>, rest: bool)
    requires |ids| > 0
    requires IdsIdentify(s)
    requires forall st :: st in s1.styles ==> st in s.styles
    requires forall a :: a in s1.assets ==> a in s.assets
    requires forall st :: st in s.styles && st.id !in StyleIdsOf(s, ids[0]) ==> st in s1.styles
    requires forall a :: a in s.assets && !AssetUnder(s, a.id, StyleIdsOf(s, ids[0])) ==> a in s1.assets
    requires forall st, a :: st in s.styles && st.categoryId == ids[0] && a in s.assets && a.styleId == st.id ==> !Blocked(a, failing)
    requires rest <==> forall st, a :: st in s1.styles && st.categoryId in ids[1..] && a in s1.assets && a.styleId == st.id ==> !Blocked(a, failing)
    ensures rest <==> forall st, a :: st in s.styles && st.categoryId in ids && a in s.assets && a.styleId == st.id ==> !Blocked(a, failing)
  {
    assert ids == [ids[0]] + ids[1..];
    forall st | st in s.styles && st.categoryId in ids[1..] && st.categoryId != ids[0]
      ensures st in s1.styles
    {
      forall t | t in s.styles && t.categoryId == ids[0]
        ensures t.id != st.id
      {
        assert t.categoryId != st.categoryId;
      }
    }
    forall st, a | st in s.styles && st.categoryId in ids[1..] && st.categoryId != ids[0] && a in s.assets && a.styleId == st.id
      ensures a in s1.assets
    {
      forall b | b in s.assets && b.styleId in StyleIdsOf(s, ids[0])
        ensures b.id != a.id
      {
        var t :| t in s.styles && t.categoryId == ids[0] && t.id == b.styleId;
        assert t.categoryId != st.categoryId;
      }
    }
  }

  /** The loop over categories, with every id present once. */
  lemma {:induction false} DeleteCategoriesSucceedsIff(s: Store, ids: seq<Id>, failing: set<string>)
    requires KeysUnique(s)
    requires !HasDuplicates(ids)
    requires forall k :: 0 <= k < |ids| ==> HasCategory(s, ids[k])
    ensures DeleteCategories(s, ids, failing).result.Ok? <==>
      forall st, a :: st in s.styles && st.categoryId in ids && a in s.assets && a.styleId == st.id ==> !Blocked(a, failing)
    decreases |ids|, 1
  {
    if |ids| > 0 {
      DeleteCategorySucceedsIff(s, ids[0], failing);
      if DeleteCategory(s, ids[0], failing).result.Ok? {
        DeleteCategoriesTurn(s, ids, failing);
      }
    }
  }

  /** After a first category that goes, the loop over categories finishes as the rest does. */
  lemma {:induction false} DeleteCategoriesTurn(s: Store, ids: seq<Id>, failing: set<string>)
    requires KeysUnique(s)
    requires |ids| > 0 && !HasDuplicates(ids)
    requires forall k :: 0 <= k < |ids| ==> HasCategory(s, ids[k])
    requires DeleteCategory(s, ids[0], failing).result.Ok?
    ensures
      var s1 := DeleteCategory(s, ids[0], failing).store;
      DeleteCategories(s1, ids[1..], failing).result.Ok? <==>
        forall st, a :: st in s.styles && st.categoryId in ids && a in s.assets && a.styleId == st.id ==> !Blocked(a, failing)
    decreases |ids|, 0
  {
    var s1 := DeleteCategory(s, ids[0], failing).store;
    KeysIdentify(s);
    DeleteCategorySucceedsIff(s, ids[0], failing);
    DeleteCategoryKeys(s, ids[0], failing);
    DeleteCategoryRows(s, ids[0], failing);
    DeleteCategoryKeepsStyles(s, ids[0], failing);
    DeleteCategoryKeepsAssets(s, ids[0], failing);
    CategoriesStillPresent(s, s1, ids);
    DeleteCategoriesSucceedsIff(s1, ids[1..], failing);
    CategoriesLoopIff(s, s1, ids, failing, DeleteCategories(s1, ids[1..], failing).result.Ok?);
  }

  /**
   * `deleteAvatarInternal` finishes exactly when the avatar exists and no asset
   * anywhere under its categories has an image that fails to delete.
   */
  lemma DeleteAvatarSucceedsIff(s: Store, avatarId: Id, failing: set<string>)
    requires KeysUnique(s)
    ensures DeleteAvatar(s, avatarId, failing).result.Ok? <==>
      && HasAvatar(s, avatarId)
      && forall c, st, a ::
           (c in s.categories && c.avatarId == avatarId && st in s.styles && st.categoryId == c.id &&
            a in s.assets && a.styleId == st.id) ==> !Blocked(a, failing)
  {
    if AvatarById(s, avatarId).Some? {
      var ids := CategoryIdsOf(s, avatarId);
      DeleteCategoriesSucceedsIff(s, ids, failing);
    } else {
      assert !HasAvatar(s, avatarId);
    }
  }

  /**
   * A failed delete of an image no asset uses (such as the avatar's own image)
   * does not change whether an avatar delete finishes.
   */
  lemma DeleteAvatarIgnoresOwnImage(s: Store, avatarId: Id, failing: set<string>, path: string)
    requires KeysUnique(s)
    requires forall a :: a in s.assets ==> a.imgPath != Some(path)
    ensures DeleteAvatar(s, avatarId, failing + {path}).result.Ok? == DeleteAvatar(s, avatarId, failing).result.Ok?
  {
    DeleteAvatarSucceedsIff(s, avatarId, failing);
    DeleteAvatarSucceedsIff(s, avatarId, failing + {path});
    assert forall a :: a in s.assets ==> (Blocked(a, failing + {path}) <==> Blocked(a, failing));
  }

  // ---- the frames, whole ----

  /**
   * An asset delete, finished or not, keeps every other asset and every other
   * table's rows, and takes only the copies and notifications of the asset.
   */
  lemma DeleteAssetFrame(s: Store, assetId: Id, failing: set<string>)
    ensures
      var s' := DeleteAsset(s, assetId, failing).store;
      && s'.avatars == s.avatars && s'.categories == s.categories && s'.styles == s.styles
      && (forall a :: a in s.assets && a.id != assetId ==> a in s'.assets)
      && RefsFollow(s, s')
  {
    DeleteAssetRows(s, assetId, failing);
    DeleteAssetRefs(s, assetId, failing);
  }

  /**
   * A style delete, finished or stopped part-way, keeps the avatars and
   * categories, every other style, every asset not listed under the style,
   * and every reference to a kept row.
   */
  lemma DeleteStyleFrame(s: Store, styleId: Id, failing: set<string>)
    ensures
      var s' := DeleteStyle(s, styleId, failing).store;
      && s'.avatars == s.avatars && s'.categories == s.categories
      && (forall st :: st in s.styles && st.id != styleId ==> st in s'.styles)
      && (forall a :: a in s.assets && a.id !in AssetIdsOf(s, styleId) ==> a in s'.assets)
      && RefsFollow(s, s')
  {
    DeleteStyleRows(s, styleId, failing);
    DeleteStyleRefs(s, styleId, failing);
  }

  /**
   * A category delete, finished or stopped part-way, keeps the avatars, every
   * other category, every style not listed under it, every asset not under
   * those styles, and every reference to a kept row.
   */
  lemma DeleteCategoryFrame(s: Store, categoryId: Id, failing: set<string>)
    ensures
      var s' := DeleteCategory(s, categoryId, failing).store;
      && s'.avatars == s.avatars
      && (forall c :: c in s.categories && c.id != categoryId ==> c in s'.categories)
      && (forall st :: st in s.styles && st.id !in StyleIdsOf(s, categoryId) ==> st in s'.styles)
      && (forall a :: a in s.assets && !AssetUnder(s, a.id, StyleIdsOf(s, categoryId)) ==> a in s'.assets)
      && RefsFollow(s, s')
  {
    DeleteCategoryRows(s, categoryId, failing);
    DeleteCategoryKeepsStyles(s, categoryId, failing);
    DeleteCategoryKeepsAssets(s, categoryId, failing);
    DeleteCategoryRefs(s, categoryId, failing);
  }

  /**
   * An avatar delete, finished or stopped part-way, keeps every other avatar,
   * every category not listed under it, every style and asset outside those
   * categories, and every reference to a kept row.
   */
  lemma DeleteAvatarFrame(s: Store, avatarId: Id, failing: set<string>)
    ensures
      var s' := DeleteAvatar(s, avatarId, failing).store;
      var ids := CategoryIdsOf(s, avatarId);
      && (forall a :: a in s.avatars && a.id != avatarId ==> a in s'.avatars)
      && (forall c :: c in s.categories && c.id !in ids ==> c in s'.categories)
      && (forall st :: st in s.styles && !StyleUnder(s, st.id, ids) ==> st in s'.styles)
      && (forall a :: a in s.assets && !AssetUnderCategories(s, a.id, ids) ==> a in s'.assets)
      && RefsFollow(s, s')
  {
    DeleteAvatarRows(s, avatarId, failing);
    DeleteAvatarKeepsStyles(s, avatarId, failing);
    DeleteAvatarKeepsAssets(s, avatarId, failing);
    DeleteAvatarRefs(s, avatarId, failing);
  }
}
