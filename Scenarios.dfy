/** Facts about the concrete strings of the example queries below. */
module QueryFacts {
  import opened Text

  lemma NoUpperNetHttp()
    ensures !ContainsUpper("net/http")
  {
    var s := "net/http";
    assert forall i :: 0 <= i < |s| ==> !IsUpper(s[i]);
  }

  lemma NetHttpTarget()
    ensures Lower(Join(["net", "http"], "/")) == "net/http"
  {
    assert Join(["net", "http"], "/") == "net/http";
    NoUpperNetHttp();
    LowerNoUpper("net/http");
  }

  lemma NetHttpContainsItself()
    ensures Contains(Lower("net/http"), "net/http")
  {
    NoUpperNetHttp();
    LowerNoUpper("net/http");
    assert OccursAt("net/http", "net/http", 0);
  }

  lemma NoUpperEncodingJson()
    ensures !ContainsUpper("encoding/json")
  {
    var s := "encoding/json";
    assert forall i :: 0 <= i < |s| ==> !IsUpper(s[i]);
  }

  lemma EncodingJsonLacksNetHttp()
    ensures !Contains(Lower("encoding/json"), "net/http")
  {
    NoUpperEncodingJson();
    assert 't' !in "encoding/json";
    MissingCharRulesOut("encoding/json", "net/http", 't');
  }

  lemma SmallPrintlnLowered()
    ensures Lower("println") == "println"
  {
    var s := "println";
    assert forall i :: 0 <= i < |s| ==> !IsUpper(s[i]);
    LowerNoUpper(s);
  }

  lemma PrintlnLowered()
    ensures Lower("Println") == "println"
    ensures Lower("Sprint") != "println"
  {
    var s := "Println";
    var r := Lower(s);
    assert IsUpper(s[0]) && r[0] as int == 'p' as int;
    assert forall i :: 1 <= i < |s| ==> !IsUpper(s[i]) && s[i] == "println"[i];
    assert r == "println";
  }

  lemma NoUpperInArgs(args: seq<string>)
    requires args == ["fmt", "println"] || args == ["json", "encoder"]
    ensures forall i :: 0 <= i < |args| ==> !ContainsUpper(args[i])
  {
  }

  lemma NoUpperJsonEncoder()
    ensures !ContainsUpper("json/encoder")
  {
    var s := "json/encoder";
    assert forall i :: 0 <= i < |s| ==> !IsUpper(s[i]);
  }

  lemma JsonEncoderTarget()
    ensures Lower(Join(["json", "encoder"], "/")) == "json/encoder"
  {
    assert Join(["json", "encoder"], "/") == "json/encoder";
    NoUpperJsonEncoder();
    LowerNoUpper("json/encoder");
  }

  lemma EncodingJsonLacksJsonEncoder()
    ensures !Contains(Lower("encoding/json"), "json/encoder")
  {
    NoUpperEncodingJson();
    assert 'r' !in "encoding/json";
    MissingCharRulesOut("encoding/json", "json/encoder", 'r');
  }

  lemma ThirdPartyLacksJsonEncoder()
    ensures !Contains(Lower("x.org/json"), "json/encoder")
  {
  }

  lemma JsonLowered()
    ensures Lower("json") == "json"
  {
    var s := "json";
    assert forall i :: 0 <= i < |s| ==> !IsUpper(s[i]);
    LowerNoUpper(s);
  }

  lemma EncoderLowered()
    ensures Lower("Encoder") == "encoder"
  {
    var s := "Encoder";
    var r := Lower(s);
    assert IsUpper(s[0]) && r[0] as int == 'e' as int;
    assert forall i :: 1 <= i < |s| ==> !IsUpper(s[i]) && s[i] == "encoder"[i];
    assert r == "encoder";
  }
}

/** What the less-function answers for concrete queries. */
module Scenarios {
  import opened Text
  import opened Normalize
  import opened Ranking
  import opened QueryFacts

  /** Query `net http`: an item under `net/http` is strictly less than one
      under `encoding/json`, whatever their names, kinds and flags. */
  lemma NetHttpBeatsEncodingJson(args: seq<string>, a: Item, b: Item)
    requires args == ["net", "http"]
    requires a.importPath == "net/http" && b.importPath == "encoding/json"
    ensures Less(args, a, b) && !Less(args, b, a)
  {
    NetHttpTarget();
    NetHttpContainsItself();
    EncodingJsonLacksNetHttp();
    PathLocality(args, a, b);
    PathLocality(args, b, a);
  }

  /** Query `fmt Println` has a capital letter, so rule 2 decides between
      two items on the same path and of the same kind: each is less than
      the other, whatever their names. An item named `Println` is NOT
      ranked strictly before one named `println` for this query. */
  lemma UpperCaseQueryIgnoresNames(args: seq<string>, a: Item, b: Item)
    requires args == ["fmt", "Println"]
    requires a.importPath == b.importPath && a.isSymbol == b.isSymbol
    ensures Less(args, a, b) && Less(args, b, a)
  {
    assert IsUpper(args[1][0]);
    SymbolIntent(args, a, b);
    SymbolIntent(args, b, a);
  }

  /** Query `fmt println`, three items on one path that differ only in
      name: `println` (exact match of the last argument) is strictly less
      than `Println` (case-insensitive match), which is strictly less than
      `Sprint` (no match). */
  lemma LowerCaseQueryRefinement(args: seq<string>, exact: Item, folded: Item, other: Item)
    requires args == ["fmt", "println"]
    requires exact.name == "println" && folded.name == "Println" && other.name == "Sprint"
    requires folded == exact.(name := folded.name) && other == exact.(name := other.name)
    ensures Less(args, exact, folded) && !Less(args, folded, exact)
    ensures Less(args, folded, other) && !Less(args, other, folded)
  {
    PrintlnLowered();
    SmallPrintlnLowered();
    NoUpperInArgs(args);
    assert LastHitBelow(args, |args|, 1, exact.name, folded.name);
    NameMatch(args, exact, folded, 1);
    assert LastHitBelow(args, |args|, 1, folded.name, exact.name);
    NameMatch(args, folded, exact, 1);
    assert LastHitBelow(args, |args|, 1, folded.name, other.name);
    NameMatch(args, folded, other, 1);
    assert LastHitBelow(args, |args|, 1, other.name, folded.name);
    NameMatch(args, other, folded, 1);
  }

  /** Two items alike in path and name, with no capital letter in the
      query: the standard-library one is strictly less. */
  lemma StandardLibraryTieBreak(args: seq<string>, a: Item, b: Item)
    requires forall i :: 0 <= i < |args| ==> !ContainsUpper(args[i])
    requires a.importPath == b.importPath && a.name == b.name
    requires a.isStandardLibrary && !b.isStandardLibrary
    ensures Less(args, a, b) && !Less(args, b, a)
  {
    StandardLibraryPreference(args, a, b);
    StandardLibraryPreference(args, b, a);
  }

  /** Query `json encoder`, rule 3: the `Encoder` symbol is strictly less
      than a package named `json` on the same path, by its
      case-insensitive match of the last argument. */
  lemma EncoderBeatsItsPackage(args: seq<string>, enc: Item, pkg: Item)
    requires args == ["json", "encoder"]
    requires enc.name == "Encoder" && pkg.name == "json" && enc.importPath == pkg.importPath
    ensures Less(args, enc, pkg) && !Less(args, pkg, enc)
  {
    EncoderLowered();
    JsonLowered();
    NoUpperInArgs(args);
    assert LastHitBelow(args, |args|, 1, enc.name, pkg.name);
    NameMatch(args, enc, pkg, 1);
    assert LastHitBelow(args, |args|, 1, pkg.name, enc.name);
    NameMatch(args, pkg, enc, 1);
  }

  /** Query `json encoder`: the target `json/encoder` occurs in neither
      `encoding/json` nor `x.org/json`, so rule 1 decides nothing. */
  lemma JsonEncoderPathsUndecided(args: seq<string>, a: Item, b: Item)
    requires args == ["json", "encoder"]
    requires a.importPath == "encoding/json" && b.importPath == "x.org/json"
    ensures PathUndecided(args, a, b) && PathUndecided(args, b, a)
  {
    JsonEncoderTarget();
    EncodingJsonLacksJsonEncoder();
    ThirdPartyLacksJsonEncoder();
  }

  /** Query `json encoder`, rule 3 again, for a package on another path. */
  lemma EncoderBeatsThirdParty(args: seq<string>, enc: Item, third: Item)
    requires args == ["json", "encoder"]
    requires enc.name == "Encoder" && enc.importPath == "encoding/json"
    requires third.name == "json" && third.importPath == "x.org/json"
    ensures Less(args, enc, third) && !Less(args, third, enc)
  {
    JsonEncoderPathsUndecided(args, enc, third);
    EncoderLowered();
    JsonLowered();
    NoUpperInArgs(args);
    assert LastHitBelow(args, |args|, 1, enc.name, third.name);
    NameMatch(args, enc, third, 1);
    assert LastHitBelow(args, |args|, 1, third.name, enc.name);
    NameMatch(args, third, enc, 1);
  }

  /** Query `json encoder` with three results: the standard
      `encoding/json` package, its `Encoder` symbol and a third-party `json`
      package. Rule 1 decides nothing; the symbol is strictly less than
      both packages (rule 3), and the standard package is strictly less
      than the third-party one of the same name (rule 4). */
  lemma JsonEncoderScenario(args: seq<string>, std: Item, enc: Item, third: Item)
    requires args == ["json", "encoder"]
    requires std.name == "json" && std.importPath == "encoding/json" && std.isStandardLibrary
    requires enc.name == "Encoder" && enc.importPath == "encoding/json"
    requires third.name == "json" && third.importPath == "x.org/json" && !third.isStandardLibrary
    ensures Less(args, enc, std) && !Less(args, std, enc)
    ensures Less(args, enc, third) && !Less(args, third, enc)
    ensures Less(args, std, third) && !Less(args, third, std)
  {
    EncoderBeatsItsPackage(args, enc, std);
    EncoderBeatsThirdParty(args, enc, third);
    JsonEncoderPathsUndecided(args, std, third);
    NoUpperInArgs(args);
    StandardLibraryPreference(args, std, third);
    StandardLibraryPreference(args, third, std);
  }
}
