/**
 * What the catalog operations preserve: every reference resolves after any
 * create or delete, whether a cascade finishes or stops part-way; category
 * names stay unique per avatar; and a finished avatar delete leaves nothing of
 * the avatar's tree behind.
 */
module AvatarCatalogFacts {
  import opened Wrappers
  import opened Tables
  import opened Entities
  import opened AvatarCatalog

  /** Removing rows soundly never leaves a dangling reference. */
  lemma CascadeKeepsLinks(s: Store, s': Store)
    requires CatalogLinked(s) && CascadeSound(s, s')
    ensures CatalogLinked(s')
  {
    forall c | c in s'.categories
      ensures HasAvatar(s', c.avatarId)
    {
      var a :| a in s.avatars && a.id == c.avatarId;
      assert a in s'.avatars;
    }
    forall st | st in s'.styles
      ensures HasCategory(s', st.categoryId)
    {
      var c :| c in s.categories && c.id == st.categoryId;
      assert c in s'.categories;
    }
    forall a | a in s'.assets
      ensures HasStyle(s', a.styleId)
    {
      var st :| st in s.styles && st.id == a.styleId;
      assert st in s'.styles;
    }
    forall x | x in s'.childAssets
      ensures HasAsset(s', x.assetId)
    {
      var a :| a in s.assets && a.id == x.assetId;
      assert a in s'.assets;
    }
    forall n | n in s'.notifications && n.assetId.Some?
      ensures HasAsset(s', n.assetId.value)
    {
      var a :| a in s.assets && a.id == n.assetId.value;
      assert a in s'.assets;
    }
    forall o | o in s'.ownerships
      ensures HasAvatar(s', o.avatarId)
    {
      var a :| a in s.avatars && a.id == o.avatarId;
      assert a in s'.avatars;
    }
    forall i | 0 <= i < |s'.children| && s'.children[i].avatarId.Some?
      ensures HasAvatar(s', s'.children[i].avatarId.value)
    {
      assert s'.children[i] == s.children[i];
      var a :| a in s.avatars && a.id == s.children[i].avatarId.value;
      assert a in s'.avatars;
    }
  }

  /** Every delete keeps the catalog linked, also when it fails part-way. */
  lemma DeletesKeepLinks(s: Store, id: Id, failing: set<string>)
    requires CatalogLinked(s)
    ensures CatalogLinked(DeleteAsset(s, id, failing).store)
    ensures CatalogLinked(DeleteStyle(s, id, failing).store)
    ensures CatalogLinked(DeleteCategory(s, id, failing).store)
    ensures CatalogLinked(DeleteAvatar(s, id, failing).store)
  {
    CascadeKeepsLinks(s, DeleteAsset(s, id, failing).store);
    CascadeKeepsLinks(s, DeleteStyle(s, id, failing).store);
    CascadeKeepsLinks(s, DeleteCategory(s, id, failing).store);
    CascadeKeepsLinks(s, DeleteAvatar(s, id, failing).store);
  }

  /** A new avatar keeps the catalog linked. */
  lemma CreateAvatarKeepsLinks(s: Store, newId: Id, imgPath: Option<string>, description: string, price: Option<int>)
    requires CatalogLinked(s)
    ensures CatalogLinked(CreateAvatar(s, newId, imgPath, description, price).store)
  {
    var s1 := CreateAvatar(s, newId, imgPath, description, price).store;
    forall c | c in s1.categories ensures HasAvatar(s1, c.avatarId) {
      var a :| a in s.avatars && a.id == c.avatarId;
      assert a in s1.avatars;
    }
    forall o | o in s1.ownerships ensures HasAvatar(s1, o.avatarId) {
      var a :| a in s.avatars && a.id == o.avatarId;
      assert a in s1.avatars;
    }
    forall i | 0 <= i < |s1.children| && s1.children[i].avatarId.Some?
      ensures HasAvatar(s1, s1.children[i].avatarId.value)
    {
      var a :| a in s.avatars && a.id == s.children[i].avatarId.value;
      assert a in s1.avatars;
    }
  }

  /** A category created under an existing avatar keeps the catalog linked. */
  lemma CreateCategoryKeepsLinks(s: Store, avatarId: Id, name: string, newId: Id)
    requires CatalogLinked(s)
    ensures CatalogLinked(CreateCategory(s, avatarId, name, newId).store)
  {
    var o := CreateCategory(s, avatarId, name, newId);
    if o.result.Ok? {
      var s1 := o.store;
      assert s.avatars[AvatarById(s, avatarId).value] in s1.avatars;
      forall st | st in s1.styles ensures HasCategory(s1, st.categoryId) {
        var c :| c in s.categories && c.id == st.categoryId;
        assert c in s1.categories;
      }
    }
  }

  /** A style created under an existing category keeps the catalog linked. */
  lemma CreateStyleKeepsLinks(s: Store, categoryId: Id, styleName: string, description: Option<string>, newId: Id)
    requires CatalogLinked(s)
    ensures CatalogLinked(CreateStyle(s, categoryId, styleName, description, newId).store)
  {
    var o := CreateStyle(s, categoryId, styleName, description, newId);
    if o.result.Ok? {
      var s1 := o.store;
      assert s.categories[CategoryById(s, categoryId).value] in s1.categories;
      forall a | a in s1.assets ensures HasStyle(s1, a.styleId) {
        var st :| st in s.styles && st.id == a.styleId;
        assert st in s1.styles;
      }
    }
  }

  /** An asset created under an existing style keeps the catalog linked. */
  lemma CreateAssetKeepsLinks(s: Store, styleId: Id, imgPath: Option<string>, colorName: string, price: Option<int>,
                              isStarter: Option<bool>, newId: Id)
    requires CatalogLinked(s)
    ensures CatalogLinked(CreateAsset(s, styleId, imgPath, colorName, price, isStarter, newId).store)
  {
    var o := CreateAsset(s, styleId, imgPath, colorName, price, isStarter, newId);
    if o.result.Ok? {
      var s1 := o.store;
      assert s.styles[StyleById(s, styleId).value] in s1.styles;
      forall x | x in s1.childAssets ensures HasAsset(s1, x.assetId) {
        var a :| a in s.assets && a.id == x.assetId;
        assert a in s1.assets;
      }
      forall n | n in s1.notifications && n.assetId.Some? ensures HasAsset(s1, n.assetId.value) {
        var a :| a in s.assets && a.id == n.assetId.value;
        assert a in s1.assets;
      }
    }
  }

  /** The duplicate check keeps at most one category per (avatar, name). */
  lemma CreateCategoryKeepsNamesUnique(s: Store, avatarId: Id, name: string, newId: Id)
    requires CategoryNamesUnique(s)
    ensures CategoryNamesUnique(CreateCategory(s, avatarId, name, newId).store)
  {
  }

  /**
   * A finished avatar delete removes the avatar's whole tree: its categories,
   * their styles, their assets, and every owned copy or notification of those
   * assets.
   */
  lemma DeleteAvatarRemovesTree(s: Store, avatarId: Id, failing: set<string>, c: Category, st: Style, a: Asset)
    requires DeleteAvatar(s, avatarId, failing).result.Ok?
    requires c in s.categories && c.avatarId == avatarId
    requires st in s.styles && st.categoryId == c.id
    requires a in s.assets && a.styleId == st.id
    ensures
      var s' := DeleteAvatar(s, avatarId, failing).store;
      && c !in s'.categories && st !in s'.styles && a !in s'.assets
      && AssetUnreferenced(s', a.id)
  {
    var s' := DeleteAvatar(s, avatarId, failing).store;
    assert c !in s'.categories;
    assert st !in s'.styles;
    assert a !in s'.assets;
  }
}
