/** The two regular expressions of the theme plugin's emit hook, written as
    explicit string predicates over an output folder `output` that is taken
    literally (no regex metacharacters).

      filter    ^<output>\/(.+)\.(js|css)$
      css name  ^<output>\/((?:\w+(?:\/)?)+)(\..+)?\.css$

    Each has a grammar-level reference definition that follows the regex's
    structure, and lemmas show that the explicit predicate and the grammar
    agree in both directions. */
module ThemeNames {
  import opened Wrappers
  import opened Strings

  // ---------------------------------------------------------------------
  // The filter: which emitted assets the hook visits
  // ---------------------------------------------------------------------

  /** `^<output>\/(.+)\.(js|css)$`: the asset lies directly under
      "<output>/", ends in ".js" or ".css", and the part in between is
      non-empty and free of line terminators. */
  predicate IsThemeAsset(output: string, asset: string)
  {
    var p := |output| + 1;
    StartsWith(asset, output + "/") &&
    ( (EndsWith(asset, ".js") && p + 1 <= |asset| - 3 && NoLineTerminator(asset[p..|asset| - 3]))
    || (EndsWith(asset, ".css") && p + 1 <= |asset| - 4 && NoLineTerminator(asset[p..|asset| - 4])) )
  }

  /** The filter, read as the regex's grammar: prefix, `.+`, a dot, an extension. */
  predicate ThemeAssetShape(output: string, asset: string, x: string, ext: string)
  {
    1 <= |x| && NoLineTerminator(x) && (ext == "js" || ext == "css")
    && asset == output + "/" + x + "." + ext
  }

  /** Every asset the filter accepts decomposes as the regex describes. */
  lemma ThemeAssetSound(output: string, asset: string) returns (x: string, ext: string)
    requires IsThemeAsset(output, asset)
    ensures ThemeAssetShape(output, asset, x, ext)
  {
    var p := |output| + 1;
    assert asset[..p] == output + "/";
    if EndsWith(asset, ".js") && p + 1 <= |asset| - 3 && NoLineTerminator(asset[p..|asset| - 3]) {
      x, ext := asset[p..|asset| - 3], "js";
      assert asset[|asset| - 3..] == "." + ext;
      assert asset == asset[..p] + x + asset[|asset| - 3..];
    } else {
      x, ext := asset[p..|asset| - 4], "css";
      assert asset[|asset| - 4..] == "." + ext;
      assert asset == asset[..p] + x + asset[|asset| - 4..];
    }
  }

  /** Every asset of the regex's shape is accepted by the filter. */
  lemma ThemeAssetComplete(output: string, x: string, ext: string)
    requires 1 <= |x| && NoLineTerminator(x) && (ext == "js" || ext == "css")
    ensures IsThemeAsset(output, output + "/" + x + "." + ext)
  {
    var asset := output + "/" + x + "." + ext;
    var p := |output| + 1;
    assert asset[..p] == output + "/";
    if ext == "js" {
      assert asset[|asset| - 3..] == ".js";
      assert asset[p..|asset| - 3] == x;
    } else {
      assert asset[|asset| - 4..] == ".css";
      assert asset[p..|asset| - 4] == x;
    }
  }

  // ---------------------------------------------------------------------
  // The CSS name: the hash-free logical name of a theme stylesheet
  // ---------------------------------------------------------------------

  /** Length of the longest prefix of `s` over `[\w/]`. */
  function WordSlashPrefixLen(s: string): (k: nat)
    ensures k <= |s|
    ensures AllWordOrSlash(s[..k])
    ensures k < |s| ==> !IsWordOrSlash(s[k])
  {
    if s == [] || !IsWordOrSlash(s[0]) then 0 else 1 + WordSlashPrefixLen(s[1..])
  }

  /** Length of the longest prefix of `s` over `\w`. */
  function WordPrefixLen(s: string): (k: nat)
    ensures k <= |s|
    ensures AllWordChars(s[..k])
    ensures k < |s| ==> !IsWordChar(s[k])
  {
    if s == [] || !IsWordChar(s[0]) then 0 else 1 + WordPrefixLen(s[1..])
  }

  /** The character-level reading of group 1: a non-empty run of word
      characters and slashes that starts with a word character and never
      has two slashes in a row. */
  predicate SlashSeparated(n: string)
  {
    0 < |n| && IsWordChar(n[0]) && AllWordOrSlash(n) && NoDoubleSlash(n)
  }

  /** The CSS-name regex. `Some(n)` is capture group 1; `None` is a failed
      match. The text between "<output>/" and the final ".css" is split at
      its longest `[\w/]` prefix `n`; the regex matches exactly when `n`
      is a valid group 1 and the rest is empty or is a dot followed by at
      least one character other than a line terminator. */
  function CssLogicalName(output: string, asset: string): (r: Option<string>)
    ensures r.Some? ==> SlashSeparated(r.value) && EndsWith(asset, ".css")
  {
    var p := |output| + 1;
    if !(StartsWith(asset, output + "/") && EndsWith(asset, ".css") && p <= |asset| - 4) then None
    else
      var m := asset[p..|asset| - 4];
      var k := WordSlashPrefixLen(m);
      if 0 < k && IsWordChar(m[0]) && NoDoubleSlash(m[..k])
         && (k == |m| || (m[k] == '.' && k + 1 < |m| && NoLineTerminator(m[k + 1..])))
      then Some(m[..k])
      else None
  }

  /** Group 1, `(?:\w+(?:\/)?)+`, read as a grammar: a word run, then either
      the end, a final slash, or (after an optional slash) the group again. */
  predicate NameGroup(g: string)
    decreases |g|
  {
    exists i | 1 <= i <= |g| ::
      AllWordChars(g[..i]) &&
      (i == |g| || g[i..] == "/" || NameGroup(g[i..]) || (g[i] == '/' && NameGroup(g[i + 1..])))
  }

  /** Group 2, `(\..+)?`: empty, or a dot and at least one more character. */
  predicate HashGroup(h: string)
  {
    h == [] || (2 <= |h| && h[0] == '.' && NoLineTerminator(h[1..]))
  }

  lemma {:induction false} NameGroupSound(g: string)
    requires NameGroup(g)
    ensures SlashSeparated(g)
    decreases |g|
  {
    var i :| 1 <= i <= |g| && AllWordChars(g[..i]) &&
      (i == |g| || g[i..] == "/" || NameGroup(g[i..]) || (g[i] == '/' && NameGroup(g[i + 1..])));
    assert forall k | 0 <= k < i :: IsWordChar(g[k]) by {
      forall k | 0 <= k < i ensures IsWordChar(g[k]) { assert g[..i][k] == g[k]; }
    }
    if i == |g| {
    } else if g[i..] == "/" {
      assert g[i] == '/' && i + 1 == |g|;
    } else if NameGroup(g[i..]) {
      NameGroupSound(g[i..]);
      var r := g[i..];
      assert forall k | i <= k < |g| :: g[k] == r[k - i];
    } else {
      NameGroupSound(g[i + 1..]);
      var r := g[i + 1..];
      assert forall k | i + 1 <= k < |g| :: g[k] == r[k - i - 1];
    }
  }

  lemma {:induction false} NameGroupComplete(g: string)
    requires SlashSeparated(g)
    ensures NameGroup(g)
    decreases |g|
  {
    var i := WordPrefixLen(g);
    assert 1 <= i;
    assert AllWordChars(g[..i]);
    if i == |g| {
    } else if i + 1 == |g| {
      assert g[i] == '/';
      assert g[i..] == "/";
    } else {
      assert g[i] == '/';
      var r := g[i + 1..];
      assert forall k | 0 <= k < |r| :: r[k] == g[k + i + 1];
      assert g[i + 1] != '/';
      NameGroupComplete(r);
    }
  }

  /** The two readings of group 1 agree. */
  lemma NameGroupIff(g: string)
    ensures NameGroup(g) <==> SlashSeparated(g)
  {
    if NameGroup(g) { NameGroupSound(g); }
    if SlashSeparated(g) { NameGroupComplete(g); }
  }

  /** A stem `n + h` whose `n` is over `[\w/]` and whose `h` starts with a
      character outside it has `n` as its longest `[\w/]` prefix. */
  lemma PrefixSplit(n: string, h: string)
    requires AllWordOrSlash(n)
    requires h == [] || !IsWordOrSlash(h[0])
    ensures WordSlashPrefixLen(n + h) == |n|
    ensures (n + h)[..|n|] == n && (n + h)[|n|..] == h
  {
    var s := n + h;
    var k := WordSlashPrefixLen(s);
    assert forall j | 0 <= j < |n| :: s[j] == n[j];
    assert |n| < |s| ==> s[|n|] == h[0];
  }

  /** Soundness: a match decomposes as the regex describes. */
  lemma CssNameSound(output: string, asset: string) returns (hash: string)
    requires CssLogicalName(output, asset).Some?
    ensures NameGroup(CssLogicalName(output, asset).value)
    ensures HashGroup(hash)
    ensures asset == output + "/" + CssLogicalName(output, asset).value + hash + ".css"
  {
    var n := CssLogicalName(output, asset).value;
    var p := |output| + 1;
    var m := asset[p..|asset| - 4];
    var k := WordSlashPrefixLen(m);
    assert n == m[..k];
    hash := m[k..];
    assert m == n + hash;
    NameGroupComplete(n);
    assert asset == asset[..p] + m + asset[|asset| - 4..];
  }

  /** Completeness: every asset of the regex's shape matches, and capture
      group 1 is exactly its name part. */
  lemma CssNameComplete(output: string, n: string, hash: string)
    requires NameGroup(n) && HashGroup(hash)
    ensures CssLogicalName(output, output + "/" + n + hash + ".css") == Some(n)
  {
    NameGroupSound(n);
    var asset := output + "/" + n + hash + ".css";
    var p := |output| + 1;
    assert asset[..p] == output + "/";
    assert asset[|asset| - 4..] == ".css";
    var m := asset[p..|asset| - 4];
    assert m == n + hash;
    PrefixSplit(n, hash);
    if hash != [] {
      assert hash[1..] == m[|n| + 1..];
    }
  }

  /** The hash-free file name the hook writes for logical name `n`. */
  function AliasKey(output: string, n: string): string
  {
    output + "/" + n + ".css"
  }

  /** The alias written for `asset`, if its name parses. */
  function AliasOf(output: string, asset: string): (r: Option<string>)
    ensures r.Some? <==> CssLogicalName(output, asset).Some?
    ensures r.Some? ==> r.value == AliasKey(output, CssLogicalName(output, asset).value)
  {
    match CssLogicalName(output, asset)
    case Some(n) => Some(AliasKey(output, n))
    case None => None
  }

  /** An alias is its own alias: parsing "<output>/<n>.css" yields `n` again.
      Hence an unhashed stylesheet is aliased onto itself. */
  lemma AliasIsFixedPoint(output: string, asset: string)
    requires AliasOf(output, asset).Some?
    ensures AliasOf(output, AliasOf(output, asset).value) == AliasOf(output, asset)
  {
    var n := CssLogicalName(output, asset).value;
    var _ := CssNameSound(output, asset);
    CssNameComplete(output, n, "");
    assert output + "/" + n + "" + ".css" == AliasKey(output, n);
  }

  /** Whatever the CSS-name regex matches, the filter matches too: a
      parsable theme stylesheet is always visited. */
  lemma CssMatchIsThemeAsset(output: string, asset: string)
    requires CssLogicalName(output, asset).Some?
    ensures IsThemeAsset(output, asset)
  {
    var n := CssLogicalName(output, asset).value;
    var hash := CssNameSound(output, asset);
    NameGroupSound(n);
    var x := n + hash;
    NameHashNoTerminator(n, hash);
    assert asset == output + "/" + x + "." + "css";
    ThemeAssetComplete(output, x, "css");
  }

  /** Group 1 followed by group 2 contains no line terminator, so the
      filter's `(.+)` can match it. */
  lemma NameHashNoTerminator(n: string, hash: string)
    requires SlashSeparated(n) && HashGroup(hash)
    ensures NoLineTerminator(n + hash)
  {
    var x := n + hash;
    forall k | 0 <= k < |x| ensures !IsLineTerminator(x[k]) {
      if k < |n| { assert IsWordOrSlash(n[k]); }
      else if k > |n| { assert x[k] == hash[1..][k - |n| - 1]; }
    }
  }

  /** Every alias the hook writes is itself a theme asset. */
  lemma AliasIsThemeAsset(output: string, asset: string)
    requires AliasOf(output, asset).Some?
    ensures IsThemeAsset(output, AliasOf(output, asset).value)
  {
    AliasIsFixedPoint(output, asset);
    CssMatchIsThemeAsset(output, AliasOf(output, asset).value);
  }

  /** A ".js" asset never parses as a stylesheet name. */
  lemma ScriptHasNoCssName(output: string, asset: string)
    requires EndsWith(asset, ".js")
    ensures CssLogicalName(output, asset) == None
  {
    assert asset[|asset| - 3] == '.';
  }

  /** A name part followed by anything other than `[\w/]` or a dot does not
      parse, as in "<output>/foo-bar.css". */
  lemma ForeignSeparatorHasNoCssName(output: string, n: string, c: char, rest: string)
    requires SlashSeparated(n)
    requires !IsWordOrSlash(c) && c != '.'
    ensures CssLogicalName(output, output + "/" + n + [c] + rest + ".css") == None
  {
    var asset := output + "/" + n + [c] + rest + ".css";
    var p := |output| + 1;
    assert asset[..p] == output + "/";
    assert asset[|asset| - 4..] == ".css";
    var m := asset[p..|asset| - 4];
    assert m == n + ([c] + rest);
    PrefixSplit(n, [c] + rest);
  }
}
