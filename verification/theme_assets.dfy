/** The emit hook of the theme plugin: over the snapshot of asset names
    taken when the hook starts, it visits every theme asset in order,
    writes a hash-free alias for each stylesheet whose name parses, and
    deletes the visited asset in production or when its name did not
    parse. Asset contents are an opaque type `C`; the asset table is a map
    from file name to content. */
module ThemeAssets {
  import opened Wrappers
  import opened Strings
  import opened ThemeNames

  /** webpack's `compilation.options.mode === 'production'`. */
  predicate IsProduction(mode: string)
  {
    mode == "production"
  }

  /** The delete rule for a visited asset. */
  predicate DeletesOriginal(output: string, production: bool, asset: string)
  {
    production || CssLogicalName(output, asset).None?
  }

  /** `snapshot` is `Object.keys(assets)`: each key of the table exactly once. */
  predicate IsKeyOrder<C>(snapshot: seq<string>, assets: map<string, C>)
  {
    Distinct(snapshot) && (forall k :: k in snapshot ==> k in assets) && (forall k :: k in assets ==> k in snapshot)
  }

  /** The assets the hook visits: the snapshot filtered by the theme-asset
      regex, in snapshot order. */
  function ThemeVisits(output: string, snapshot: seq<string>): (visits: seq<string>)
    ensures forall v :: v in visits <==> v in snapshot && IsThemeAsset(output, v)
    ensures Distinct(snapshot) ==> Distinct(visits)
    ensures |visits| <= |snapshot|
  {
    if snapshot == [] then []
    else
      var rest := ThemeVisits(output, snapshot[1..]);
      assert Distinct(snapshot) ==> snapshot[0] !in snapshot[1..];
      if IsThemeAsset(output, snapshot[0]) then [snapshot[0]] + rest else rest
  }

  /** `x` occurs in `s` at an earlier position than `y`. */
  predicate Precedes(s: seq<string>, x: string, y: string)
  {
    exists a, b :: 0 <= a < b < |s| && s[a] == x && s[b] == y
  }

  /** The filter keeps snapshot order: of two visits, the earlier one comes
      earlier in the snapshot. */
  lemma {:induction false} ThemeVisitsInOrder(output: string, snapshot: seq<string>)
    ensures forall i, j :: 0 <= i < j < |ThemeVisits(output, snapshot)| ==>
              Precedes(snapshot, ThemeVisits(output, snapshot)[i], ThemeVisits(output, snapshot)[j])
    decreases |snapshot|
  {
    if snapshot != [] {
      var tail := snapshot[1..];
      var rest := ThemeVisits(output, tail);
      var visits := ThemeVisits(output, snapshot);
      ThemeVisitsInOrder(output, tail);
      forall i, j | 0 <= i < j < |visits| ensures Precedes(snapshot, visits[i], visits[j]) {
        if IsThemeAsset(output, snapshot[0]) {
          assert visits == [snapshot[0]] + rest;
          if i == 0 {
            assert visits[j] == rest[j - 1] && rest[j - 1] in tail;
            var b :| 0 <= b < |tail| && tail[b] == visits[j];
            assert snapshot[0] == visits[0] && snapshot[b + 1] == visits[j];
          } else {
            assert Precedes(tail, rest[i - 1], rest[j - 1]);
            var a, b :| 0 <= a < b < |tail| && tail[a] == rest[i - 1] && tail[b] == rest[j - 1];
            assert snapshot[a + 1] == visits[i] && snapshot[b + 1] == visits[j];
          }
        } else {
          assert visits == rest;
          assert Precedes(tail, rest[i], rest[j]);
          var a, b :| 0 <= a < b < |tail| && tail[a] == rest[i] && tail[b] == rest[j];
          assert snapshot[a + 1] == visits[i] && snapshot[b + 1] == visits[j];
        }
      }
    }
  }

  /** One visit, the body of the `forEach`: parse the name, write the alias
      if it parsed, then delete the visited asset in production or when the
      name did not parse. */
  function Step<C>(assets: map<string, C>, asset: string, output: string, production: bool): (r: map<string, C>)
    requires asset in assets
    ensures forall k :: k != asset && Some(k) != AliasOf(output, asset) ==> Lookup(r, k) == Lookup(assets, k)
    ensures asset !in r <==> DeletesOriginal(output, production, asset)
    ensures asset in r ==> r[asset] == assets[asset]
    ensures AliasOf(output, asset).Some? && AliasOf(output, asset).value != asset ==>
              Lookup(r, AliasOf(output, asset).value) == Some(assets[asset])
  {
    var name := CssLogicalName(output, asset);
    var written := if name.Some? then assets[AliasKey(output, name.value) := assets[asset]] else assets;
    if production || name.None? then written - {asset} else written
  }

  /** The visits applied one after the other. */
  function Reconcile<C>(assets: map<string, C>, visits: seq<string>, output: string, production: bool): (r: map<string, C>)
    requires Distinct(visits)
    requires forall v :: v in visits ==> v in assets
    ensures forall k :: k in assets && k !in visits ==> k in r
    decreases |visits|
  {
    if visits == [] then assets
    else
      var prev := visits[..|visits| - 1];
      var last := visits[|visits| - 1];
      assert forall i :: 0 <= i < |prev| ==> prev[i] == visits[i];
      Step(Reconcile(assets, prev, output, production), last, output, production)
  }

  /** The asset table after the emit hook has run. */
  function EmitResult<C>(assets: map<string, C>, snapshot: seq<string>, output: string, mode: string): map<string, C>
    requires IsKeyOrder(snapshot, assets)
  {
    Reconcile(assets, ThemeVisits(output, snapshot), output, IsProduction(mode))
  }

  // ---------------------------------------------------------------------
  // Reference outcome: each key is decided by the last visit touching it
  // ---------------------------------------------------------------------

  /** Visiting `v` writes a proper (different) alias `k`. */
  predicate Writes(output: string, v: string, k: string)
  {
    AliasOf(output, v) == Some(k) && v != k
  }

  /** Visiting `v` deletes `k`. */
  predicate Removes(output: string, production: bool, v: string, k: string)
  {
    v == k && DeletesOriginal(output, production, v)
  }

  predicate Touches(output: string, production: bool, v: string, k: string)
  {
    Writes(output, v, k) || Removes(output, production, v, k)
  }

  /** The index of the last visit touching `k`, if any. */
  function LastTouch(visits: seq<string>, k: string, output: string, production: bool): (j: Option<nat>)
    ensures j.Some? ==> j.value < |visits| && Touches(output, production, visits[j.value], k)
    ensures j.Some? ==> forall i :: j.value < i < |visits| ==> !Touches(output, production, visits[i], k)
    ensures j.None? ==> forall i :: 0 <= i < |visits| ==> !Touches(output, production, visits[i], k)
  {
    if visits == [] then None
    else if Touches(output, production, visits[|visits| - 1], k) then Some(|visits| - 1)
    else
      var prev := visits[..|visits| - 1];
      assert forall i :: 0 <= i < |prev| ==> prev[i] == visits[i];
      LastTouch(prev, k, output, production)
  }

  /** What key `k` holds at the end: its original entry when no visit
      touches it; otherwise the original content of the last writer, or
      nothing when the last touch is its own deletion. */
  function Expected<C>(assets: map<string, C>, visits: seq<string>, k: string, output: string, production: bool): Option<C>
  {
    match LastTouch(visits, k, output, production)
    case None => Lookup(assets, k)
    case Some(j) => if Writes(output, visits[j], k) then Lookup(assets, visits[j]) else None
  }

  /** A touch with no later touch is the last one. */
  lemma LastTouchAt(visits: seq<string>, k: string, output: string, production: bool, i: nat)
    requires i < |visits| && Touches(output, production, visits[i], k)
    requires forall j :: i < j < |visits| ==> !Touches(output, production, visits[j], k)
    ensures LastTouch(visits, k, output, production) == Some(i)
  {
  }

  /** The last visit in `prev + [v]` touching `k` is `v` when `v` touches
      it, and otherwise the last one in `prev`. */
  lemma LastTouchSnoc(prev: seq<string>, v: string, k: string, output: string, production: bool)
    ensures LastTouch(prev + [v], k, output, production) ==
            if Touches(output, production, v, k) then Some(|prev|) else LastTouch(prev, k, output, production)
  {
    var s := prev + [v];
    assert s[|s| - 1] == v && s[..|s| - 1] == prev;
  }

  /** A visited asset with a proper alias is touched by no earlier visit:
      nothing writes to it, since aliases are fixed points, and only its
      own visit deletes it. */
  lemma ProperlyAliasedUntouched(prev: seq<string>, v: string, output: string, production: bool)
    requires v !in prev
    requires AliasOf(output, v).Some? && AliasOf(output, v).value != v
    ensures LastTouch(prev, v, output, production) == None
  {
    forall i | 0 <= i < |prev| ensures !Touches(output, production, prev[i], v) {
      if AliasOf(output, prev[i]) == Some(v) {
        AliasIsFixedPoint(output, prev[i]);
      }
    }
  }

  /** One key across one visit: if the table before the visit agrees with
      the reference for `prev`, the table after agrees with it for
      `prev + [v]`. */
  lemma StepKeepsExpected<C>(assets: map<string, C>, prev: seq<string>, v: string, before: map<string, C>,
                             k: string, output: string, production: bool)
    requires v in before && v in assets && v !in prev
    requires Lookup(before, k) == Expected(assets, prev, k, output, production)
    requires Lookup(before, v) == Expected(assets, prev, v, output, production)
    ensures Lookup(Step(before, v, output, production), k) == Expected(assets, prev + [v], k, output, production)
  {
    LastTouchSnoc(prev, v, k, output, production);
    if AliasOf(output, v).Some? && AliasOf(output, v).value != v {
      ProperlyAliasedUntouched(prev, v, output, production);
    }
    if !Touches(output, production, v, k) {
      match LastTouch(prev, k, output, production)
      case None =>
      case Some(j) => assert (prev + [v])[j] == prev[j];
    }
  }

  /** The sequential fold agrees with the last-touch reference on every key.
      The crux: a visited asset with a proper alias is never itself an alias
      target (aliases are fixed points), so its content at its visit is
      still the original. */
  lemma {:induction false} ReconcileIsLastTouch<C>(assets: map<string, C>, visits: seq<string>, output: string, production: bool)
    requires Distinct(visits)
    requires forall v :: v in visits ==> v in assets
    ensures forall k :: Lookup(Reconcile(assets, visits, output, production), k) == Expected(assets, visits, k, output, production)
    decreases |visits|
  {
    if visits != [] {
      var n := |visits| - 1;
      var prev := visits[..n];
      var v := visits[n];
      assert visits == prev + [v];
      assert forall i :: 0 <= i < |prev| ==> prev[i] == visits[i];
      ReconcileIsLastTouch(assets, prev, output, production);
      var before := Reconcile(assets, prev, output, production);
      assert Reconcile(assets, visits, output, production) == Step(before, v, output, production);
      forall k ensures Lookup(Step(before, v, output, production), k) == Expected(assets, prev + [v], k, output, production) {
        StepKeepsExpected(assets, prev, v, before, k, output, production);
      }
    }
  }

  // ---------------------------------------------------------------------
  // Consequences for the emit hook
  // ---------------------------------------------------------------------

  /** No visit writes to an asset that is not its own alias. */
  lemma NotAnAliasTarget(output: string, v: string, k: string)
    requires AliasOf(output, k) != Some(k)
    ensures !Writes(output, v, k)
  {
    if AliasOf(output, v) == Some(k) {
      AliasIsFixedPoint(output, v);
    }
  }

  /** Assets outside "<output>/…(.js|.css)" keep key and content, in both modes. */
  lemma NonThemeAssetKept<C>(assets: map<string, C>, snapshot: seq<string>, output: string, mode: string, k: string)
    requires IsKeyOrder(snapshot, assets)
    requires !IsThemeAsset(output, k)
    ensures Lookup(EmitResult(assets, snapshot, output, mode), k) == Lookup(assets, k)
  {
    var visits := ThemeVisits(output, snapshot);
    ReconcileIsLastTouch(assets, visits, output, IsProduction(mode));
    forall i | 0 <= i < |visits| ensures !Touches(output, IsProduction(mode), visits[i], k) {
      if AliasOf(output, visits[i]) == Some(k) {
        AliasIsThemeAsset(output, visits[i]);
      }
    }
  }

  /** A visited asset whose name the stylesheet pattern rejects (a script,
      or a stylesheet such as "foo-bar.css") is deleted in development and
      in production alike. */
  lemma UnparsedThemeAssetRemoved<C>(assets: map<string, C>, snapshot: seq<string>, output: string, mode: string, k: string)
    requires IsKeyOrder(snapshot, assets)
    requires k in snapshot && IsThemeAsset(output, k) && CssLogicalName(output, k).None?
    ensures k !in EmitResult(assets, snapshot, output, mode)
  {
    var visits := ThemeVisits(output, snapshot);
    var production := IsProduction(mode);
    ReconcileIsLastTouch(assets, visits, output, production);
    var i :| 0 <= i < |visits| && visits[i] == k;
    assert Touches(output, production, visits[i], k);
    forall j | 0 <= j < |visits| ensures !Writes(output, visits[j], k) {
      NotAnAliasTarget(output, visits[j], k);
    }
  }

  /** A theme script never parses as a stylesheet, so it is deleted in
      development and in production alike. */
  lemma ThemeScriptRemoved<C>(assets: map<string, C>, snapshot: seq<string>, output: string, mode: string, k: string)
    requires IsKeyOrder(snapshot, assets)
    requires k in snapshot && IsThemeAsset(output, k) && EndsWith(k, ".js")
    ensures k !in EmitResult(assets, snapshot, output, mode)
  {
    ScriptHasNoCssName(output, k);
    UnparsedThemeAssetRemoved(assets, snapshot, output, mode, k);
  }

  /** In production every visited asset that is not its own alias (a hashed
      stylesheet or an unparsable name) is gone afterwards. */
  lemma ProductionRemovesOriginal<C>(assets: map<string, C>, snapshot: seq<string>, output: string, k: string)
    requires IsKeyOrder(snapshot, assets)
    requires k in snapshot && IsThemeAsset(output, k) && AliasOf(output, k) != Some(k)
    ensures k !in EmitResult(assets, snapshot, output, "production")
  {
    var visits := ThemeVisits(output, snapshot);
    ReconcileIsLastTouch(assets, visits, output, true);
    var i :| 0 <= i < |visits| && visits[i] == k;
    assert Touches(output, true, visits[i], k);
    forall j | 0 <= j < |visits| ensures !Writes(output, visits[j], k) {
      NotAnAliasTarget(output, visits[j], k);
    }
  }

  /** In development a hashed stylesheet whose name parses is kept with its
      content, whatever other stylesheets share its logical name: no visit
      deletes it and none writes to it. */
  lemma DevelopmentKeepsOriginal<C>(assets: map<string, C>, snapshot: seq<string>, output: string, mode: string, k: string)
    requires IsKeyOrder(snapshot, assets)
    requires !IsProduction(mode)
    requires k in snapshot && AliasOf(output, k).Some? && AliasOf(output, k).value != k
    ensures Lookup(EmitResult(assets, snapshot, output, mode), k) == Some(assets[k])
  {
    var visits := ThemeVisits(output, snapshot);
    ReconcileIsLastTouch(assets, visits, output, false);
    forall j | 0 <= j < |visits| ensures !Touches(output, false, visits[j], k) {
      NotAnAliasTarget(output, visits[j], k);
    }
  }

  /** In development, when no other asset shares its logical name, a hashed
      stylesheet and its hash-free alias both survive with the same content. */
  lemma DevelopmentKeepsBothCopies<C>(assets: map<string, C>, snapshot: seq<string>, output: string, mode: string, k: string)
    requires IsKeyOrder(snapshot, assets)
    requires !IsProduction(mode)
    requires k in snapshot && AliasOf(output, k).Some? && AliasOf(output, k).value != k
    requires forall v :: v in snapshot && v != k ==> AliasOf(output, v) != AliasOf(output, k)
    ensures Lookup(EmitResult(assets, snapshot, output, mode), k) == Some(assets[k])
    ensures Lookup(EmitResult(assets, snapshot, output, mode), AliasOf(output, k).value) == Some(assets[k])
  {
    DevelopmentKeepsOriginal(assets, snapshot, output, mode, k);
    var visits := ThemeVisits(output, snapshot);
    var t := AliasOf(output, k).value;
    ReconcileIsLastTouch(assets, visits, output, false);
    CssMatchIsThemeAsset(output, k);
    AliasIsFixedPoint(output, k);
    var i :| 0 <= i < |visits| && visits[i] == k;
    assert Touches(output, false, visits[i], t);
    forall j | 0 <= j < |visits| && j != i ensures !Touches(output, false, visits[j], t) {
      assert visits[j] != k;
    }
  }

  /** In either mode, the alias of a visited hashed stylesheet holds that
      stylesheet's original content, provided no later visit touches it. */
  lemma AliasCarriesContent<C>(assets: map<string, C>, snapshot: seq<string>, output: string, mode: string, i: nat)
    requires IsKeyOrder(snapshot, assets)
    requires i < |ThemeVisits(output, snapshot)|
    requires var a := ThemeVisits(output, snapshot)[i]; AliasOf(output, a).Some? && AliasOf(output, a).value != a
    requires var visits := ThemeVisits(output, snapshot);
             forall j :: i < j < |visits| ==> !Touches(output, IsProduction(mode), visits[j], AliasOf(output, visits[i]).value)
    ensures var a := ThemeVisits(output, snapshot)[i];
            Lookup(EmitResult(assets, snapshot, output, mode), AliasOf(output, a).value) == Some(assets[a])
  {
    var visits := ThemeVisits(output, snapshot);
    var a := visits[i];
    var t := AliasOf(output, a).value;
    ReconcileIsLastTouch(assets, visits, output, IsProduction(mode));
    LastTouchAt(visits, t, output, IsProduction(mode), i);
    assert Expected(assets, visits, t, output, IsProduction(mode)) == Lookup(assets, a);
  }

  /** The ordering quirk: in production an unhashed "<output>/<n>.css" is
      aliased onto itself and then deleted, so when it is visited after the
      last hashed stylesheet of the same logical name the stable name is
      missing from the output altogether. */
  lemma UnhashedStylesheetDroppedInProduction<C>(assets: map<string, C>, snapshot: seq<string>, output: string, i: nat)
    requires IsKeyOrder(snapshot, assets)
    requires i < |ThemeVisits(output, snapshot)|
    requires var t := ThemeVisits(output, snapshot)[i]; AliasOf(output, t) == Some(t)
    requires var visits := ThemeVisits(output, snapshot);
             forall j :: i < j < |visits| ==> !Writes(output, visits[j], visits[i])
    ensures ThemeVisits(output, snapshot)[i] !in EmitResult(assets, snapshot, output, "production")
  {
    var visits := ThemeVisits(output, snapshot);
    var t := visits[i];
    ReconcileIsLastTouch(assets, visits, output, true);
    forall j | i < j < |visits| ensures !Touches(output, true, visits[j], t) {
      assert visits[j] != t;
    }
    LastTouchAt(visits, t, output, true, i);
    assert Expected(assets, visits, t, output, true) == None;
  }

  /** The hook never invents keys: every key present afterwards was an
      original key or is the alias of a visited asset. */
  lemma NoInventedKeys<C>(assets: map<string, C>, snapshot: seq<string>, output: string, mode: string, k: string)
    requires IsKeyOrder(snapshot, assets)
    requires k in EmitResult(assets, snapshot, output, mode)
    ensures k in assets || exists v :: v in snapshot && AliasOf(output, v) == Some(k)
  {
    var visits := ThemeVisits(output, snapshot);
    ReconcileIsLastTouch(assets, visits, output, IsProduction(mode));
    assert Lookup(EmitResult(assets, snapshot, output, mode), k).Some?;
    match LastTouch(visits, k, output, IsProduction(mode))
    case None =>
    case Some(j) =>
      assert visits[j] in snapshot;
  }

  // ---------------------------------------------------------------------
  // The hook, step by step
  // ---------------------------------------------------------------------

  /** What the hook does, in order: one `Visit` per filtered snapshot key,
      then the completion callback. */
  datatype HookEvent = Visit(asset: string) | Callback

  /** The fold over `visits[..i + 1]` is one more step after the fold over
      `visits[..i]`, whose table still holds `visits[i]`. */
  lemma ReconcileSnoc<C>(assets: map<string, C>, visits: seq<string>, i: nat, output: string, production: bool)
    requires Distinct(visits) && (forall v :: v in visits ==> v in assets)
    requires i < |visits|
    ensures Distinct(visits[..i]) && (forall v :: v in visits[..i] ==> v in assets)
    ensures Distinct(visits[..i + 1]) && (forall v :: v in visits[..i + 1] ==> v in assets)
    ensures visits[i] in Reconcile(assets, visits[..i], output, production)
    ensures Reconcile(assets, visits[..i + 1], output, production)
         == Step(Reconcile(assets, visits[..i], output, production), visits[i], output, production)
  {
    assert visits[..i + 1][..i] == visits[..i];
    assert visits[i] !in visits[..i];
  }

  lemma TraceSnoc(trace: seq<HookEvent>, visits: seq<string>, i: nat)
    requires i < |visits| && |trace| == i
    requires forall j :: 0 <= j < i ==> trace[j] == Visit(visits[j])
    ensures forall j :: 0 <= j < i + 1 ==> (trace + [Visit(visits[i])])[j] == Visit(visits[j])
  {
  }

  /** The hook: filter the key snapshot, visit the theme assets in order,
      then signal completion. */
  method EmitHook<C>(assets: map<string, C>, snapshot: seq<string>, output: string, mode: string)
    returns (result: map<string, C>, trace: seq<HookEvent>)
    requires IsKeyOrder(snapshot, assets)
    ensures result == EmitResult(assets, snapshot, output, mode)
    ensures |trace| == |ThemeVisits(output, snapshot)| + 1
    ensures forall i :: 0 <= i < |trace| - 1 ==> trace[i] == Visit(ThemeVisits(output, snapshot)[i])
    ensures trace[|trace| - 1] == Callback
  {
    var visits := ThemeVisits(output, snapshot);
    result, trace := VisitAll(assets, visits, output, IsProduction(mode));
    trace := trace + [Callback];
  }

  /** The `forEach` over the filtered snapshot. Aliases written on the way
      are not in `visits` and so are never visited. */
  method VisitAll<C>(assets: map<string, C>, visits: seq<string>, output: string, production: bool)
    returns (result: map<string, C>, trace: seq<HookEvent>)
    requires Distinct(visits) && forall v :: v in visits ==> v in assets
    ensures result == Reconcile(assets, visits, output, production)
    ensures |trace| == |visits|
    ensures forall i :: 0 <= i < |visits| ==> trace[i] == Visit(visits[i])
  {
    assert visits[..0] == [];
    result := assets;
    trace := [];
    var i := 0;
    while i < |visits|
      invariant i <= |visits|
      invariant Distinct(visits[..i]) && (forall v :: v in visits[..i] ==> v in assets)
      invariant result == Reconcile(assets, visits[..i], output, production)
      invariant |trace| == i
      invariant forall j :: 0 <= j < i ==> trace[j] == Visit(visits[j])
    {
      var asset := visits[i];
      TraceSnoc(trace, visits, i);
      trace := trace + [Visit(asset)];
      ReconcileSnoc(assets, visits, i, output, production);
      result := Step(result, asset, output, production);
      i := i + 1;
    }
    assert visits[..i] == visits;
  }
}
