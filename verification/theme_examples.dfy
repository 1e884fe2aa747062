/** The emit hook on concrete asset tables: the cases a theme build meets,
    and the dependence on snapshot order in production. */
module ThemeExamples {
  import opened Wrappers
  import opened ThemeNames
  import opened ThemeAssets

  const Hashed: string := "themes/foo.bar123.css"
  const Stable: string := "themes/foo.css"
  const Script: string := "themes/foo.js"
  const Dashed: string := "themes/foo-bar.css"

  lemma ParseHashed()
    ensures CssLogicalName("themes", Hashed) == Some("foo")
    ensures AliasOf("themes", Hashed) == Some(Stable)
    ensures IsThemeAsset("themes", Hashed)
  {
    NameGroupComplete("foo");
    CssNameComplete("themes", "foo", ".bar123");
    assert "themes" + "/" + "foo" + ".bar123" + ".css" == Hashed;
    assert AliasKey("themes", "foo") == Stable;
    CssMatchIsThemeAsset("themes", Hashed);
  }

  lemma ParseStable()
    ensures CssLogicalName("themes", Stable) == Some("foo")
    ensures AliasOf("themes", Stable) == Some(Stable)
    ensures IsThemeAsset("themes", Stable)
  {
    NameGroupComplete("foo");
    CssNameComplete("themes", "foo", "");
    assert "themes" + "/" + "foo" + "" + ".css" == Stable;
    assert AliasKey("themes", "foo") == Stable;
    CssMatchIsThemeAsset("themes", Stable);
  }

  /** Development: the hashed stylesheet stays and gains a stable-named copy. */
  lemma HashedStylesheetInDevelopment<C>(c: C)
    ensures EmitResult(map[Hashed := c], [Hashed], "themes", "development") == map[Hashed := c, Stable := c]
  {
    var m := map[Hashed := c];
    ParseHashed();
    assert ThemeVisits("themes", [Hashed]) == [Hashed];
    assert [Hashed][..0] == [];
    assert Reconcile(m, [Hashed], "themes", false) == Step(m, Hashed, "themes", false);
  }

  /** Production: only the stable-named copy remains. */
  lemma HashedStylesheetInProduction<C>(c: C)
    ensures EmitResult(map[Hashed := c], [Hashed], "themes", "production") == map[Stable := c]
  {
    var m := map[Hashed := c];
    ParseHashed();
    assert ThemeVisits("themes", [Hashed]) == [Hashed];
    assert [Hashed][..0] == [];
    assert Reconcile(m, [Hashed], "themes", true) == Step(m, Hashed, "themes", true);
    assert Step(m, Hashed, "themes", true) == m[Stable := c] - {Hashed};
  }

  /** A theme script is removed whatever the mode. */
  lemma ScriptRemovedInEveryMode<C>(c: C, mode: string)
    ensures EmitResult(map[Script := c], [Script], "themes", mode) == map[]
  {
    ThemeAssetComplete("themes", "foo", "js");
    assert "themes" + "/" + "foo" + "." + "js" == Script;
    ScriptHasNoCssName("themes", Script);
    assert ThemeVisits("themes", [Script]) == [Script];
    assert [Script][..0] == [];
    var m := map[Script := c];
    assert Reconcile(m, [Script], "themes", IsProduction(mode)) == Step(m, Script, "themes", IsProduction(mode));
  }

  /** "foo-bar" does not parse: no alias, and the asset is removed even in
      development. */
  lemma DashedStylesheetRemoved<C>(c: C)
    ensures EmitResult(map[Dashed := c], [Dashed], "themes", "development") == map[]
  {
    ParseDashed();
    var m := map[Dashed := c];
    assert ThemeVisits("themes", [Dashed]) == [Dashed];
    assert [Dashed][..0] == [];
    assert Reconcile(m, [Dashed], "themes", false) == Step(m, Dashed, "themes", false);
  }

  /** The dash is outside `[\w/]`, so the stylesheet is a theme asset
      without a logical name. */
  lemma ParseDashed()
    ensures IsThemeAsset("themes", Dashed)
    ensures CssLogicalName("themes", Dashed).None?
  {
    DashedIsThemeAsset();
    ForeignSeparatorHasNoCssName("themes", "foo", '-', "bar");
    assert "themes" + "/" + "foo" + ['-'] + "bar" + ".css" == Dashed;
  }

  lemma DashedIsThemeAsset()
    ensures IsThemeAsset("themes", Dashed)
  {
    assert "themes" + "/" + "foo-bar" + "." + "css" == Dashed;
    assert Strings.NoLineTerminator("foo-bar");
    ThemeAssetComplete("themes", "foo-bar", "css");
  }

  /** In production the outcome depends on snapshot order. With the stable
      name first, the hashed sheet's alias survives ... */
  lemma ProductionStableFirst<C>(a: C, b: C)
    ensures EmitResult(map[Stable := b, Hashed := a], [Stable, Hashed], "themes", "production") == map[Stable := a]
  {
    ParseHashed();
    ParseStable();
    var m := map[Stable := b, Hashed := a];
    assert ThemeVisits("themes", [Stable, Hashed]) == [Stable, Hashed];
    assert [Stable, Hashed][..1] == [Stable];
    assert [Stable][..0] == [];
    var m1 := Step(m, Stable, "themes", true);
    assert m1 == map[Hashed := a];
    assert Reconcile(m, [Stable], "themes", true) == m1;
    assert Reconcile(m, [Stable, Hashed], "themes", true) == Step(m1, Hashed, "themes", true);
    assert Step(m1, Hashed, "themes", true) == m1[Stable := a] - {Hashed};
  }

  /** ... while with it last, the stable name is aliased onto itself and
      deleted, and nothing remains. */
  lemma ProductionStableLast<C>(a: C, b: C)
    ensures EmitResult(map[Stable := b, Hashed := a], [Hashed, Stable], "themes", "production") == map[]
  {
    ParseHashed();
    ParseStable();
    var m := map[Stable := b, Hashed := a];
    assert ThemeVisits("themes", [Hashed, Stable]) == [Hashed, Stable];
    assert [Hashed, Stable][..1] == [Hashed];
    assert [Hashed][..0] == [];
    var m2 := Step(m, Hashed, "themes", true);
    assert m2 == map[Stable := a];
    assert Reconcile(m, [Hashed], "themes", true) == m2;
    assert Reconcile(m, [Hashed, Stable], "themes", true) == Step(m2, Stable, "themes", true);
  }
}
