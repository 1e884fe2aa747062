/** The two `splitChunks.cacheGroups` tests shared by the development and the
    production configuration: `styles` (CSS modules issued, at the root of
    their issuer chain, by the entry named "app") and `vendors` (JavaScript
    files under a `node_modules` directory). */
module SplitChunks {
  import opened Wrappers
  import opened Strings

  /** A webpack module as far as the tests look at it: the module that
      issued it, its `name`, and its `constructor.name`. */
  datatype Module = Module(issuer: Option<Module>, name: Option<string>, className: string)

  /** The issuer chain from `m` up to the module that has no issuer. */
  function IssuerChain(m: Module): (chain: seq<Module>)
    ensures 1 <= |chain| && chain[0] == m
    ensures forall i :: 0 <= i < |chain| - 1 ==> chain[i].issuer == Some(chain[i + 1])
    ensures chain[|chain| - 1].issuer == None
    decreases m
  {
    match m.issuer
    case None => [m]
    case Some(parent) => [m] + IssuerChain(parent)
  }

  /** The last module of the issuer chain. */
  function Root(m: Module): Module
  {
    var chain := IssuerChain(m);
    chain[|chain| - 1]
  }

  /** `if (m.name) return m.name; return false;`: an absent or empty name is falsy. */
  function OwnName(m: Module): Option<string>
  {
    if m.name.Some? && m.name.value != "" then m.name else None
  }

  /** `recursiveIssuer`; `None` stands for the `false` it returns. The result
      is the name of the root of the issuer chain and nothing else. */
  function RecursiveIssuer(m: Module): (r: Option<string>)
    ensures r == OwnName(Root(m))
    ensures r.Some? ==> r.value != "" && Root(m).name == r
    decreases m
  {
    match m.issuer
    case Some(parent) => RecursiveIssuer(parent)
    case None => OwnName(m)
  }

  /** The two branches of `recursiveIssuer`: a module with an issuer answers
      for its issuer, whatever its own name; a module without one answers
      with its own name when that is non-empty, and `false` otherwise. */
  lemma IssuerBranches(m: Module, n: Option<string>)
    ensures m.issuer.Some? ==> RecursiveIssuer(m.(name := n)) == RecursiveIssuer(m.issuer.value)
    ensures m.issuer.None? ==> RecursiveIssuer(m) == (if m.name.Some? && m.name.value != "" then m.name else None)
  {
  }

  /** `m` with the name of the module `k` steps up its issuer chain replaced. */
  function RenameAt(m: Module, k: nat, n: Option<string>): Module
    decreases m
  {
    if k == 0 then m.(name := n)
    else
      match m.issuer
      case None => m
      case Some(parent) => m.(issuer := Some(RenameAt(parent, k - 1, n)))
  }

  /** Renaming any module below the root leaves the result unchanged. */
  lemma {:induction false} IntermediateNamesIgnored(m: Module, k: nat, n: Option<string>)
    requires k + 1 < |IssuerChain(m)|
    ensures RecursiveIssuer(RenameAt(m, k, n)) == RecursiveIssuer(m)
    decreases m
  {
    var parent := m.issuer.value;
    if k > 0 {
      assert IssuerChain(m) == [m] + IssuerChain(parent);
      IntermediateNamesIgnored(parent, k - 1, n);
    }
  }

  /** Renaming the root decides the result: its new name when non-empty,
      otherwise `false`. */
  lemma {:induction false} RootNameDecides(m: Module, k: nat, n: Option<string>)
    requires k + 1 == |IssuerChain(m)|
    ensures RecursiveIssuer(RenameAt(m, k, n)) == (if n.Some? && n.value != "" then n else None)
    decreases m
  {
    if k > 0 {
      var parent := m.issuer.value;
      assert IssuerChain(m) == [m] + IssuerChain(parent);
      RootNameDecides(parent, k - 1, n);
    }
  }

  // ---------------------------------------------------------------------
  // styles
  // ---------------------------------------------------------------------

  const CssModuleClass: string := "CssModule"
  const AppEntry: string := "app"

  /** `module.constructor.name === 'CssModule' && recursiveIssuer(module) === 'app'` */
  function StylesTest(m: Module): (r: bool)
    ensures r <==> m.className == CssModuleClass && Root(m).name == Some(AppEntry)
  {
    m.className == CssModuleClass && RecursiveIssuer(m) == Some(AppEntry)
  }

  /** Membership in `styles` depends on the module's own class and on the
      root's name only: it is the same as for a module without issuer that
      carries the root's name. */
  lemma StylesDecidedByRoot(m: Module)
    ensures m.className != CssModuleClass ==> !StylesTest(m)
    ensures StylesTest(m) == StylesTest(Module(None, Root(m).name, m.className))
  {
    var lone := Module(None, Root(m).name, m.className);
    assert IssuerChain(lone) == [lone];
  }

  // ---------------------------------------------------------------------
  // vendors
  // ---------------------------------------------------------------------

  /** `[\\/]` */
  predicate IsSep(c: char)
  {
    c == '/' || c == '\\'
  }

  const NodeModules: string := "node_modules"

  /** `/[\\/]node_modules[\\/].*\.js$/` matches with its first character at
      index `i`: a separator, "node_modules", a separator, any characters
      except line terminators, and ".js" at the very end. */
  predicate VendorsAt(path: string, i: nat)
  {
    i + 17 <= |path| && IsSep(path[i]) && path[i + 1..i + 13] == NodeModules && IsSep(path[i + 13])
    && EndsWith(path, ".js") && NoLineTerminator(path[i + 14..|path| - 3])
  }

  /** `RegExp.prototype.test`: try every start position in turn. */
  method VendorsTest(path: string) returns (b: bool)
    ensures b <==> exists i: nat :: VendorsAt(path, i)
  {
    var i: nat := 0;
    while i + 17 <= |path|
      invariant forall j: nat :: j < i ==> !VendorsAt(path, j)
      decreases |path| - i
    {
      if IsSep(path[i]) && path[i + 1..i + 13] == NodeModules && IsSep(path[i + 13])
         && EndsWith(path, ".js") && NoLineTerminator(path[i + 14..|path| - 3]) {
        assert VendorsAt(path, i);
        return true;
      }
      i := i + 1;
    }
    return false;
  }

  /** Every match decomposes as the regex reads: some prefix, a separator,
      "node_modules", a separator, a line-terminator-free rest, ".js". */
  lemma VendorsSound(path: string, i: nat) returns (pre: string, s1: char, s2: char, rest: string)
    requires VendorsAt(path, i)
    ensures IsSep(s1) && IsSep(s2) && NoLineTerminator(rest)
    ensures path == pre + [s1] + NodeModules + [s2] + rest + ".js"
  {
    pre, s1, s2, rest := path[..i], path[i], path[i + 13], path[i + 14..|path| - 3];
    assert path == path[..i] + [path[i]] + path[i + 1..i + 13] + [path[i + 13]] + path[i + 14..|path| - 3] + path[|path| - 3..];
  }

  /** Every path of that shape matches, at the index where its separator is. */
  lemma VendorsComplete(pre: string, s1: char, s2: char, rest: string)
    requires IsSep(s1) && IsSep(s2) && NoLineTerminator(rest)
    ensures VendorsAt(pre + [s1] + NodeModules + [s2] + rest + ".js", |pre|)
  {
    var path := pre + [s1] + NodeModules + [s2] + rest + ".js";
    var i := |pre|;
    assert path[i] == s1;
    assert path[i + 1..i + 13] == NodeModules;
    assert path[i + 13] == s2;
    assert path[i + 14..|path| - 3] == rest;
    assert path[|path| - 3..] == ".js";
  }
}
