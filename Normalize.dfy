/** The search results as the two searches return them: the `Package` and
    `Symbol` records of client.go. */
module Records {

  datatype Package = Package(
    name: string,
    importPath: string,
    isStandardLibrary: bool,
    url: string)

  /** `kind` is the free-form kind label ("type", "function", ...); the
      ranking never reads it. */
  datatype Symbol = Symbol(
    name: string,
    kind: string,
    importPath: string,
    isStandardLibrary: bool,
    code: string,
    url: string)
}

/** The normaliser of app.go: both kinds of record become one `Item`, all
    packages first, then all symbols. */
module Normalize {
  import opened Records

  /** The local `Item` record of `App.run`. */
  datatype Item = Item(
    name: string,
    importPath: string,
    isStandardLibrary: bool,
    isSymbol: bool,
    title: string,
    subtitle: string,
    url: string)

  /** The decorative suffix of a standard-library title, with the check
      mark U+2705; app.go:78 holds its UTF-8 bytes read as Windows-1252 and
      encoded again. */
  const StandardLibraryMarker: string := " [\U{2705} Standard Library]"

  /** The `standardText` closure: the marker for a standard-library
      record, nothing otherwise. */
  function StandardText(isStandardLibrary: bool): (r: string)
    ensures r != "" <==> isStandardLibrary
    ensures r == "" || r == StandardLibraryMarker
  {
    if isStandardLibrary then StandardLibraryMarker else ""
  }

  /** `fmt.Sprintf("%s (%s)%s", name, importPath, standardText(...))`. The
      title starts with the name and the parenthesised import path, and
      ends in the standard-library marker exactly for standard-library
      records: otherwise it ends in ')', which the marker does not.
      `TitleExactly` adds its length, which pins it down. */
  function Title(name: string, importPath: string, isStandardLibrary: bool): (r: string)
    ensures name + " (" + importPath + ")" <= r
    ensures var m := StandardLibraryMarker;
      (|r| >= |m| && r[|r| - |m|..] == m) <==> isStandardLibrary
  {
    var head := name + " (" + importPath + ")";
    var m := StandardLibraryMarker;
    var t := head + StandardText(isStandardLibrary);
    if isStandardLibrary then
      assert t[|t| - |m|..] == m;
      t
    else if |t| >= |m| then
      assert t[|t| - |m|..][|m| - 1] == ')' != m[|m| - 1];
      t
    else
      t
  }

  /** The title has exactly the length of the name, the import path, the
      three characters ` (` and `)` and the suffix; together with the
      prefix and the suffix this pins it down: a string is the title
      exactly when it has that prefix, that length, and the marker at its
      end for a standard-library record. */
  lemma TitleExactly(name: string, importPath: string, isStandardLibrary: bool, t: string)
    ensures |Title(name, importPath, isStandardLibrary)| ==
            |name| + |importPath| + 3 + |StandardText(isStandardLibrary)|
    ensures var m := StandardLibraryMarker;
      t == Title(name, importPath, isStandardLibrary) <==>
        && name + " (" + importPath + ")" <= t
        && |t| == |name| + |importPath| + 3 + |StandardText(isStandardLibrary)|
        && (isStandardLibrary ==> t[|t| - |m|..] == m)
  {
    var head := name + " (" + importPath + ")";
    var m := StandardLibraryMarker;
    var suffix := StandardText(isStandardLibrary);
    var title := Title(name, importPath, isStandardLibrary);
    assert title == head + suffix;
    assert |head| == |name| + |importPath| + 3;
    if head <= t && |t| == |head| + |suffix| && (isStandardLibrary ==> t[|t| - |m|..] == m) {
      assert t == t[..|head|] + t[|head|..];
      assert t[|head|..] == suffix;
    }
    if t == title {
      assert head <= t;
      if isStandardLibrary {
        assert t[|t| - |m|..] == suffix == m;
      }
    }
  }

  /** The item the first loop appends for a package: it is not a symbol
      and has no subtitle, and the package can be read back
      from its name, import path, flag and URL. */
  function PackageItem(p: Package): (r: Item)
    ensures !r.isSymbol && r.subtitle == ""
    ensures Package(r.name, r.importPath, r.isStandardLibrary, r.url) == p
  {
    Item(p.name, p.importPath, p.isStandardLibrary, false,
         Title(p.name, p.importPath, p.isStandardLibrary), "", p.url)
  }

  /** The item the second loop appends for a symbol: it is a symbol with
      the code as subtitle, and the symbol, less its unused
      kind label, can be read back from it. */
  function SymbolItem(s: Symbol): (r: Item)
    ensures r.isSymbol && r.subtitle == s.code
    ensures Symbol(r.name, s.kind, r.importPath, r.isStandardLibrary, r.subtitle, r.url) == s
  {
    Item(s.name, s.importPath, s.isStandardLibrary, true,
         Title(s.name, s.importPath, s.isStandardLibrary), s.code, s.url)
  }

  /** What the two loops build: the package items in input order, then the
      symbol items in input order. */
  function Normalized(pkgs: seq<Package>, syms: seq<Symbol>): seq<Item> {
    seq(|pkgs|, i requires 0 <= i < |pkgs| => PackageItem(pkgs[i])) +
    seq(|syms|, j requires 0 <= j < |syms| => SymbolItem(syms[j]))
  }

  /** The invariant every normalised item keeps: its title is built from
      its own name, import path and standard-library flag, and only a
      symbol can carry a subtitle. */
  predicate WellFormed(it: Item) {
    && it.title == Title(it.name, it.importPath, it.isStandardLibrary)
    && (!it.isSymbol ==> it.subtitle == "")
  }

  /** One more package appends its item to the package part. */
  lemma NormalizedNextPackage(pkgs: seq<Package>, i: nat)
    requires i < |pkgs|
    ensures Normalized(pkgs[..i + 1], []) == Normalized(pkgs[..i], []) + [PackageItem(pkgs[i])]
  {
    assert pkgs[..i + 1][..i] == pkgs[..i];
  }

  /** One more symbol appends its item after everything built so far. */
  lemma NormalizedNextSymbol(pkgs: seq<Package>, syms: seq<Symbol>, j: nat)
    requires j < |syms|
    ensures Normalized(pkgs, syms[..j + 1]) == Normalized(pkgs, syms[..j]) + [SymbolItem(syms[j])]
  {
    assert syms[..j + 1][..j] == syms[..j];
  }

  /** The two `for ... range` loops appending to `items`. */
  method BuildItems(pkgs: seq<Package>, syms: seq<Symbol>) returns (items: seq<Item>)
    ensures items == Normalized(pkgs, syms)
  {
    items := [];
    for i := 0 to |pkgs|
      invariant items == Normalized(pkgs[..i], [])
    {
      NormalizedNextPackage(pkgs, i);
      items := items + [PackageItem(pkgs[i])];
    }
    assert pkgs[..|pkgs|] == pkgs;
    assert Normalized(pkgs, []) == Normalized(pkgs, syms[..0]);
    for j := 0 to |syms|
      invariant items == Normalized(pkgs, syms[..j])
    {
      NormalizedNextSymbol(pkgs, syms, j);
      items := items + [SymbolItem(syms[j])];
    }
    assert syms[..|syms|] == syms;
  }

  /** Layout of the normalised items: one per record, packages first in
      input order, then symbols in input order. */
  lemma NormalizedLayout(pkgs: seq<Package>, syms: seq<Symbol>)
    ensures |Normalized(pkgs, syms)| == |pkgs| + |syms|
    ensures forall i :: 0 <= i < |pkgs| ==> Normalized(pkgs, syms)[i] == PackageItem(pkgs[i])
    ensures forall j :: 0 <= j < |syms| ==> Normalized(pkgs, syms)[|pkgs| + j] == SymbolItem(syms[j])
  {
  }

  /** Every item the normaliser builds is well formed. */
  lemma NormalizedWellFormed(pkgs: seq<Package>, syms: seq<Symbol>)
    ensures forall it :: it in Normalized(pkgs, syms) ==> WellFormed(it)
  {
  }
}
