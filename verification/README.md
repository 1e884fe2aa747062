# Theme plugin and build-configuration core, modelled in Dafny

This project models the build logic of a webpack skeleton. It covers three parts.

- **`ThemeConfigPlugin`**. The constructor applies the option defaults. `apply` builds the entry table: one entry `"<output>/<name>"` per theme, whose path is kept when absolute and resolved against `entryDir` otherwise. The emit hook takes a snapshot of the asset names and visits every name that matches `^<output>\/(.+)\.(js|css)$`. For a stylesheet whose name matches `^<output>\/((?:\w+(?:\/)?)+)(\..+)?\.css$`, it writes a hash-free alias `"<output>/<name>.css"` with the same content. It then deletes the visited asset in production, or whenever the stylesheet pattern did not match.
- **Thread-loader worker pool.** The release build sizes its worker pool from the CPU count: half the CPUs rounded down, all CPUs when that half is at most one, and at most four.
- **`splitChunks` cache-group tests.** `recursiveIssuer` walks up the issuer chain. The `styles` test admits `CssModule`s whose root issuer is named `app`. The `vendors` test matches paths under a `node_modules` directory that end in `.js`. The development and the production configuration use the same definitions.

The modules:

- `Wrappers` holds `Option`, `Result` and map lookup.
- `Strings` holds the JavaScript character classes the regexes use:
  - `\w` is ASCII letters, digits and `_`;
  - `.` is any character except `\n`, `\r`, U+2028 and U+2029.
- `ThemeOptions` models the constructor and the entry table.
- `ThemeNames` models the two regexes of the emit hook. Each has a characterisation by its grammar, proved sound and complete.
- `ThemeAssets` models the emit hook.
  - The asset table is a map from file name to content; the content is an opaque type.
  - The hook is a fold of single visits over the filtered snapshot.
  - A reference definition gives each key's final value from the last visit that touches that key. The fold is proved equal to this definition on every key.
- `ThemeExamples` states the hook's result on small concrete asset tables.
- `WorkerPool` models the worker-pool clamp.
- `SplitChunks` models `recursiveIssuer` and the two cache-group tests.

JavaScript truthiness is explicit: an absent option and an empty string are both falsy. This holds for `options.output || 'themes'`, `options.entryDir || ''` and `if (m.name)`.

## Model

Source paths are relative to the repository root.

| member | source | states |
|---|---|---|
| ThemeOptions.Configure | webpack/plugins/ThemeConfigPlugin.js:6-11 | `entry` passes through unchanged. The output folder is the given one when it is non-empty, otherwise "themes", so it is never empty. `entryDir` is the given string when present, otherwise "". |
| ThemeOptions.ConfigureIdempotent | webpack/plugins/ThemeConfigPlugin.js:6-11 | Passing a resolved configuration back to the constructor changes nothing. |
| ThemeOptions.DefaultConfiguration | webpack/plugins/ThemeConfigPlugin.js:6-11 | `new ThemeConfigPlugin()` writes under "themes", resolves against "" and has no entry map. |
| ThemeOptions.EntryKeyInjective | webpack/plugins/ThemeConfigPlugin.js:25 | Two theme names with the same entry key `"<output>/<name>"` are the same name. |
| ThemeOptions.EntryKeysCount | webpack/plugins/ThemeConfigPlugin.js:19-26 | A set of theme names yields exactly as many distinct entry keys. |
| ThemeOptions.EntryPath | webpack/plugins/ThemeConfigPlugin.js:20-23 | An absolute path is kept as is. A relative path becomes `path.resolve(entryDir, path)`. If `path.resolve` always yields absolute paths, every registered path is absolute. |
| ThemeOptions.EntryTable | webpack/plugins/ThemeConfigPlugin.js:19-26 | The keys are exactly `"<output>/<name>"` for the theme names. Each key maps to its theme's resolved path. There are as many entries as themes, whatever the key order of `entry`. |
| ThemeOptions.BuildEntries | webpack/plugins/ThemeConfigPlugin.js:16-26 | Fails if and only if the `entry` option is absent, as `Object.keys(undefined)` throws. Otherwise it returns the full entry table described above. |
| ThemeNames.ThemeAssetSound | webpack/plugins/ThemeConfigPlugin.js:53-56 | Every name the filter admits is `"<output>/" + x + "." + ext`, where `x` is non-empty and free of line terminators and `ext` is "js" or "css". |
| ThemeNames.ThemeAssetComplete | webpack/plugins/ThemeConfigPlugin.js:53-56 | Every name of that shape is admitted by the filter. |
| ThemeNames.NameGroupIff | webpack/plugins/ThemeConfigPlugin.js:59 | `(?:\w+(?:\/)?)+` matches exactly the non-empty strings over `[\w/]` that start with a word character and contain no `//`. |
| ThemeNames.CssLogicalName | webpack/plugins/ThemeConfigPlugin.js:58-61 | A captured name is a valid group 1, and the asset name ends in ".css". |
| ThemeNames.CssNameSound | webpack/plugins/ThemeConfigPlugin.js:58-61 | A match splits the asset name into `"<output>/"`, a valid group 1, an optional group 2 and ".css". Group 2 is a dot followed by at least one character other than a line terminator. |
| ThemeNames.CssNameComplete | webpack/plugins/ThemeConfigPlugin.js:58-61 | Every name with that split matches, and the capture is its group 1. |
| ThemeNames.AliasOf | webpack/plugins/ThemeConfigPlugin.js:63-66 | An alias exists exactly when the stylesheet pattern matches. The alias is `"<output>/<group 1>.css"`. |
| ThemeNames.AliasIsFixedPoint | webpack/plugins/ThemeConfigPlugin.js:58-66 | The alias of an alias is itself. |
| ThemeNames.CssMatchIsThemeAsset | webpack/plugins/ThemeConfigPlugin.js:53-61 | Every stylesheet the CSS pattern matches also passes the filter, so it is visited. |
| ThemeNames.AliasIsThemeAsset | webpack/plugins/ThemeConfigPlugin.js:53-66 | Every alias written is itself a name the filter admits. |
| ThemeNames.ScriptHasNoCssName | webpack/plugins/ThemeConfigPlugin.js:58-61 | A name ending in ".js" never matches the stylesheet pattern. |
| ThemeNames.ForeignSeparatorHasNoCssName | webpack/plugins/ThemeConfigPlugin.js:58-61 | A character outside `[\w/.]` right after a valid group 1, as in "foo-bar.css", makes the pattern fail. |
| ThemeAssets.ThemeVisits | webpack/plugins/ThemeConfigPlugin.js:53-56 | The visited names are exactly the snapshot names the filter admits, with no repeats. |
| ThemeAssets.ThemeVisitsInOrder | webpack/plugins/ThemeConfigPlugin.js:53-57 | The filter keeps snapshot order: of any two visits, the earlier one stands earlier in the snapshot. |
| ThemeAssets.Step | webpack/plugins/ThemeConfigPlugin.js:61-71 | One visit changes only the visited key and its alias. The visited key is gone exactly in production or when no alias exists. If it is kept, it keeps its content. A proper alias receives the visited asset's content. |
| ThemeAssets.Reconcile | webpack/plugins/ThemeConfigPlugin.js:57-72 | Keys that are never visited are still present after the loop. |
| ThemeAssets.ReconcileIsLastTouch | webpack/plugins/ThemeConfigPlugin.js:53-72 | For every key, the result of the loop equals the reference definition. The key keeps its original value if no visit touches it, or gets the original content of the last visit that aliases onto it. It is absent if the last touch deleted it. |
| ThemeAssets.NonThemeAssetKept | webpack/plugins/ThemeConfigPlugin.js:53-56 | Assets the filter rejects keep their key and content in both modes. |
| ThemeAssets.UnparsedThemeAssetRemoved | webpack/plugins/ThemeConfigPlugin.js:58-71 | A visited asset whose name the stylesheet pattern rejects is deleted in every mode. |
| ThemeAssets.ThemeScriptRemoved | webpack/plugins/ThemeConfigPlugin.js:58-71 | Theme scripts are deleted in development as well as production. |
| ThemeAssets.ProductionRemovesOriginal | webpack/plugins/ThemeConfigPlugin.js:69-71 | In production every visited asset that is not its own alias is gone afterwards. |
| ThemeAssets.DevelopmentKeepsOriginal | webpack/plugins/ThemeConfigPlugin.js:63-71 | In development every parsed hashed stylesheet survives with its content, even when others share its logical name. |
| ThemeAssets.DevelopmentKeepsBothCopies | webpack/plugins/ThemeConfigPlugin.js:63-71 | In development, when no other asset shares its logical name, a hashed stylesheet and its alias both survive with the same content. |
| ThemeAssets.AliasCarriesContent | webpack/plugins/ThemeConfigPlugin.js:63-67 | In either mode, the alias of a visited hashed stylesheet holds that stylesheet's original content, unless a later visit touches the alias. |
| ThemeAssets.UnhashedStylesheetDroppedInProduction | webpack/plugins/ThemeConfigPlugin.js:57-72 | In production a hash-free `"<output>/<n>.css"` is missing afterwards unless a later visit writes it again, because its alias is itself and it is then deleted. |
| ThemeAssets.NoInventedKeys | webpack/plugins/ThemeConfigPlugin.js:53-72 | Every key present afterwards was an original key or is the alias of a snapshot name. |
| ThemeAssets.VisitAll | webpack/plugins/ThemeConfigPlugin.js:57-72 | The `forEach` loop: the table after the loop is the fold of the visits, and it visits them in the given order. |
| ThemeAssets.EmitHook | webpack/plugins/ThemeConfigPlugin.js:50-76 | The hook visits exactly the filtered snapshot in order, then calls `callback` once. The resulting table is the one the fold computes. |
| ThemeExamples.HashedStylesheetInDevelopment | webpack/plugins/ThemeConfigPlugin.js:58-71 | "themes/foo.bar123.css" in development gives both it and "themes/foo.css", with the same content. |
| ThemeExamples.HashedStylesheetInProduction | webpack/plugins/ThemeConfigPlugin.js:58-71 | The same asset in production leaves only "themes/foo.css". |
| ThemeExamples.ScriptRemovedInEveryMode | webpack/plugins/ThemeConfigPlugin.js:58-71 | "themes/foo.js" is removed whatever the mode. |
| ThemeExamples.DashedStylesheetRemoved | webpack/plugins/ThemeConfigPlugin.js:58-71 | "themes/foo-bar.css" does not match the pattern, so it gets no alias and is removed even in development. |
| ThemeExamples.ProductionStableFirst | webpack/plugins/ThemeConfigPlugin.js:53-72 | In production, with the snapshot listing "themes/foo.css" before the hashed sheet, the table ends as only "themes/foo.css", holding the hashed sheet's content. |
| ThemeExamples.ProductionStableLast | webpack/plugins/ThemeConfigPlugin.js:53-72 | In production, with the snapshot order reversed, the table ends empty. |
| WorkerPool.WorkerCount | webpack/webpack.config.js:68-76 | With three or fewer CPUs there is one worker per CPU. With 4 to 7 CPUs there are half as many, rounded down. With 8 or more there are four. With at least one CPU the count is between 1 and 4, and it never exceeds the CPU count. |
| WorkerPool.WorkerCountNotMonotone | webpack/webpack.config.js:69-76 | Three CPUs get more workers than four. |
| WorkerPool.ThreadPools | webpack/webpack.config.js:65-84 | In a debug build both pools are empty objects. In a release build they share the worker count, and only the sass pool sets `workerParallelJobs`, to 2. |
| WorkerPool.ReleasePoolsBounded | webpack/webpack.config.js:67-84 | With at least one CPU, each release pool has between one and four workers. |
| SplitChunks.RecursiveIssuer | webpack/webpack.config.js:23-31 | The result is the name of the root of the issuer chain when that name is non-empty, and `false` otherwise. |
| SplitChunks.IssuerBranches | webpack/webpack.prod.config.js:12-19 | A module with an issuer gets its issuer's answer, whatever its own name is. A module without an issuer gets its own name when that name is non-empty, and `false` otherwise. |
| SplitChunks.IntermediateNamesIgnored | webpack/webpack.config.js:23-31 | Renaming any module below the root of the chain does not change the result. |
| SplitChunks.RootNameDecides | webpack/webpack.prod.config.js:12-20 | Renaming the root decides the result: the new name when it is non-empty, otherwise `false`. |
| SplitChunks.StylesTest | webpack/webpack.config.js:136-141 | A module is in `styles` if and only if its class is `CssModule` and the root of its issuer chain is named "app". |
| SplitChunks.StylesDecidedByRoot | webpack/webpack.prod.config.js:47-52 | Non-CSS modules are never admitted. Admission equals that of a lone module carrying the root's name. |
| SplitChunks.VendorsTest | webpack/webpack.config.js:130 | Tries every start position. The result is true if and only if the regex matches at some index. |
| SplitChunks.VendorsSound | webpack/webpack.config.js:130 | A match decomposes as: a prefix, a separator (`/` or `\`), "node_modules", a separator, a rest free of line terminators, and ".js". |
| SplitChunks.VendorsComplete | webpack/webpack.prod.config.js:41 | Every path of that shape matches, at the index of its first separator. |

## Left out

- Registering the entries on the `entryOption` hook through `SingleEntryPlugin` (ThemeConfigPlugin.js:29-33) is left out. It only hands the modelled entry table to webpack.
- The HTML chunk filter (ThemeConfigPlugin.js:36-47) is left out. It delegates entirely to html-webpack-plugin's `filterChunks`, which is not part of this model.
- Node's `path.isAbsolute` and `path.resolve` are not modelled. They are parameters (`PathOps`), and only their contract with respect to absolute paths is used.
- The `output` option is spliced into both regexes unescaped, so a metacharacter in it would change the pattern. The model takes `output` literally.
- `require('os').cpus()` is not modelled; the CPU count is an input. `threadLoader.warmup` is left out as an effect on the thread pool.
- Other configuration is left out: the dev server, the helpers in utils, the dll, common, dev and babel configurations, and the root `webpack.config.js`. None of them takes part in the modelled behaviour.
- ThemeOptions.BuildEntries: an absent `entry` option is a `Failure`, because `Object.keys(undefined)` throws in the code.
- WorkerPool.WorkerCount: an empty CPU list gives zero workers, exactly as the code computes. Nothing in the configuration guards against that case.
- The asynchronous `callback` is modelled as the final event of the hook's trace. The time at which webpack resumes is not modelled.
