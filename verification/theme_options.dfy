/** Construction of the theme plugin and the entry table it registers:
    option defaults, and one entry "<output>/<name>" per theme, whose source
    path is kept when absolute and resolved against `entryDir` otherwise.
    Node's `path.isAbsolute` and `path.resolve` are parameters. */
module ThemeOptions {
  import opened Wrappers

  /** Options as passed to the constructor; `None` is an absent property. */
  datatype PluginOptions = PluginOptions(entry: Option<map<string, string>>, output: Option<string>, entryDir: Option<string>)

  /** Options after the constructor applied its defaults. */
  datatype PluginConfig = PluginConfig(entry: Option<map<string, string>>, output: string, entryDir: string)

  const DefaultOutput: string := "themes"

  /** `new ThemeConfigPlugin()`: the constructor's `options = {}` default. */
  const NoOptions: PluginOptions := PluginOptions(None, None, None)

  /** JavaScript truthiness of an optional string: absent and "" are falsy. */
  predicate Truthy(s: Option<string>)
  {
    s.Some? && s.value != ""
  }

  /** The constructor: `output || 'themes'`, `entryDir || ''`, `entry` as given. */
  function Configure(o: PluginOptions): (c: PluginConfig)
    ensures c.entry == o.entry
    ensures c.output != ""
    ensures Truthy(o.output) ==> c.output == o.output.value
    ensures !Truthy(o.output) ==> c.output == DefaultOutput
    ensures o.entryDir.Some? ==> c.entryDir == o.entryDir.value
    ensures o.entryDir.None? ==> c.entryDir == ""
  {
    PluginConfig(
      o.entry,
      if Truthy(o.output) then o.output.value else DefaultOutput,
      if Truthy(o.entryDir) then o.entryDir.value else "")
  }

  /** A resolved configuration, passed back as options. */
  function AsOptions(c: PluginConfig): PluginOptions
  {
    PluginOptions(c.entry, Some(c.output), Some(c.entryDir))
  }

  /** Applying the defaults twice changes nothing. */
  lemma ConfigureIdempotent(o: PluginOptions)
    ensures Configure(AsOptions(Configure(o))) == Configure(o)
  {
  }

  /** Without options the plugin writes under "themes", resolves against "",
      and has no entry table. */
  lemma DefaultConfiguration()
    ensures Configure(NoOptions) == PluginConfig(None, "themes", "")
  {
  }

  // ---------------------------------------------------------------------
  // Entry table
  // ---------------------------------------------------------------------

  /** `path.isAbsolute` and `path.resolve`. */
  datatype PathOps = PathOps(isAbsolute: string -> bool, resolve: (string, string) -> string)

  /** `Object.keys(undefined)` throws when the `entry` option is absent. */
  datatype PluginError = EntryMissing

  /** The entry key of theme `name`. */
  function EntryKey(output: string, name: string): string
  {
    output + "/" + name
  }

  /** The prefix is fixed, so distinct theme names give distinct keys. */
  lemma EntryKeyInjective(output: string, a: string, b: string)
    requires EntryKey(output, a) == EntryKey(output, b)
    ensures a == b
  {
    var p := |output| + 1;
    assert a == EntryKey(output, a)[p..];
    assert b == EntryKey(output, b)[p..];
  }

  /** Distinct names give as many distinct keys. */
  lemma {:induction false} EntryKeysCount(output: string, names: set<string>)
    ensures |set n | n in names :: EntryKey(output, n)| == |names|
    decreases names
  {
    if names != {} {
      var x :| x in names;
      var rest := names - {x};
      EntryKeysCount(output, rest);
      var keys := set n | n in names :: EntryKey(output, n);
      var restKeys := set n | n in rest :: EntryKey(output, n);
      assert keys == restKeys + {EntryKey(output, x)};
      if EntryKey(output, x) in restKeys {
        var y :| y in rest && EntryKey(output, y) == EntryKey(output, x);
        EntryKeyInjective(output, x, y);
      }
    }
  }

  /** The source path an entry is registered with. An absolute path is kept
      as is, a relative one is resolved against `entryDir`; when resolution
      always yields absolute paths, so does this. */
  function EntryPath(ops: PathOps, entryDir: string, path: string): (r: string)
    ensures ops.isAbsolute(path) ==> r == path
    ensures !ops.isAbsolute(path) ==> r == ops.resolve(entryDir, path)
    ensures (forall d, q :: ops.isAbsolute(ops.resolve(d, q))) ==> ops.isAbsolute(r)
  {
    if ops.isAbsolute(path) then path else ops.resolve(entryDir, path)
  }

  /** The `entries` object built in `apply`, or the error thrown when the
      `entry` option is absent. */
  method BuildEntries(config: PluginConfig, ops: PathOps) returns (r: Result<map<string, string>, PluginError>)
    ensures config.entry.None? <==> r.Failure?
    ensures r.Success? ==> r.value.Keys == set name | name in config.entry.value :: EntryKey(config.output, name)
    ensures r.Success? ==> forall name :: name in config.entry.value ==>
              EntryKey(config.output, name) in r.value &&
              r.value[EntryKey(config.output, name)] == EntryPath(ops, config.entryDir, config.entry.value[name])
    ensures r.Success? ==> |r.value| == |config.entry.value|
  {
    if config.entry.None? {
      return Failure(EntryMissing);
    }
    var entries := EntryTable(config.entry.value, config.output, config.entryDir, ops);
    return Success(entries);
  }

  /** `entries` holds exactly the entries of the names in `done`. */
  ghost predicate TableFor(entries: map<string, string>, done: set<string>, entry: map<string, string>,
                           output: string, entryDir: string, ops: PathOps)
    requires done <= entry.Keys
  {
    && entries.Keys == (set n | n in done :: EntryKey(output, n))
    && forall n :: n in done ==> entries[EntryKey(output, n)] == EntryPath(ops, entryDir, entry[n])
  }

  /** One iteration of the loop: a fresh name adds a fresh key. */
  lemma AddEntry(entries: map<string, string>, done: set<string>, entry: map<string, string>,
                 output: string, entryDir: string, ops: PathOps, name: string)
    requires done <= entry.Keys && name in entry && name !in done
    requires TableFor(entries, done, entry, output, entryDir, ops)
    ensures EntryKey(output, name) !in entries
    ensures TableFor(entries[EntryKey(output, name) := EntryPath(ops, entryDir, entry[name])],
                     done + {name}, entry, output, entryDir, ops)
  {
    var key := EntryKey(output, name);
    if key in entries {
      var other :| other in done && key == EntryKey(output, other);
      EntryKeyInjective(output, name, other);
    }
    assert (set n | n in done + {name} :: EntryKey(output, n)) == (set n | n in done :: EntryKey(output, n)) + {key};
  }

  /** A table holding the entries of all names is the whole entry table. */
  lemma TableComplete(entries: map<string, string>, entry: map<string, string>, output: string, entryDir: string, ops: PathOps)
    requires TableFor(entries, entry.Keys, entry, output, entryDir, ops)
    ensures entries.Keys == set name | name in entry :: EntryKey(output, name)
    ensures forall name :: name in entry ==>
              EntryKey(output, name) in entries &&
              entries[EntryKey(output, name)] == EntryPath(ops, entryDir, entry[name])
    ensures |entries| == |entry|
  {
    EntryKeysCount(output, entry.Keys);
    assert |entries| == |entries.Keys|;
  }

  /** The loop over the theme names: exactly one key per name, mapped to
      that theme's entry path. The names are taken in an arbitrary order, so
      the result does not depend on the key order of `entry`. */
  method EntryTable(entry: map<string, string>, output: string, entryDir: string, ops: PathOps)
    returns (entries: map<string, string>)
    ensures entries.Keys == set name | name in entry :: EntryKey(output, name)
    ensures forall name :: name in entry ==>
              EntryKey(output, name) in entries &&
              entries[EntryKey(output, name)] == EntryPath(ops, entryDir, entry[name])
    ensures |entries| == |entry|
  {
    entries := map[];
    var todo := entry.Keys;
    while todo != {}
      invariant todo <= entry.Keys
      invariant TableFor(entries, entry.Keys - todo, entry, output, entryDir, ops)
      decreases todo
    {
      var name :| name in todo;
      var entryPath := EntryPath(ops, entryDir, entry[name]);
      AddEntry(entries, entry.Keys - todo, entry, output, entryDir, ops, name);
      entries := entries[EntryKey(output, name) := entryPath];
      assert entry.Keys - (todo - {name}) == (entry.Keys - todo) + {name};
      todo := todo - {name};
    }
    assert entry.Keys - todo == entry.Keys;
    TableComplete(entries, entry, output, entryDir, ops);
  }
}
