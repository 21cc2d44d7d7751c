# awgodoc result ranking, modelled in Dafny

awgodoc is a launcher workflow that searches Go documentation. The query
arguments are joined with spaces and sent to two searches, one for packages
and one for symbols. `App.run` then does two things with the records that
come back:

* The **normaliser** turns every `Package` and every `Symbol` record into one
  local `Item`, packages first and symbols after, each in input order. It
  builds a display title `name (importPath)` and appends a standard-library
  marker when the record belongs to the standard library. Symbols keep their
  code snippet as subtitle.
* The **ranker** sorts the items in place with `sort.Slice`. Its less-function
  tries four rules in order:
  1. import-path locality against the arguments joined by `/` and lowered;
  2. "the query has a capital letter, so prefer symbols";
  3. a scan of the arguments from last to first for an exact, then a
     case-insensitive, name match;
  4. standard-library preference.

  When no rule decides, it answers `true`.

The model has five modules:

* `Text` holds the Go string functions the ranking calls (`strings.Join`,
  `strings.Contains`, `strings.ToLower`, `unicode.IsUpper`):
  * `IsUpper` is defined directly as the ASCII range `A`-`Z`.
  * `Contains` and `ContainsUpper` are characterised exactly.
  * `Lower` is pinned down character by character: a capital letter
    becomes its small letter, and every other character is kept.
  * `Join`'s contract gives the length (the parts plus one separator per
    gap), the first part at the start with the separator after it, and the
    last part at the end. `JoinContainsParts` adds that every part occurs
    in the result. Where the separators between later parts go is not
    stated (see "Left out").
* `Records` holds the two record shapes.
* `Normalize` holds the `Item` record, the title, and the loops that build
  `items`. `BuildItems` is a method with loops, proved against the
  specification function `Normalized`.
* `Ranking` holds the less-function `Less`, one rule per function and in the
  source's order. Each rule's contract says when it decides and which way,
  and lemmas state each rule's effect on `Less` in terms of the inputs. It
  also holds `SortItems`, an in-place sort over an `array<Item>`.
* `App.Run` chains the normaliser and the sort.

`Scenarios` (with its helper module `QueryFacts`) states what the
less-function answers for concrete queries.

The less-function is **not** a strict weak ordering, and the model keeps it
that way:
* `Less(args, x, x)` holds for every item.
* It is total: for every pair, at least one item is less than the other
  (`Ranking.LessTotal`).
* Two items whose different import paths both contain the target are each
  less than the other.
* With no arguments the target is empty, so every pair of items with
  different paths compares less both ways.
* Whenever some argument has a capital letter, rule 2 decides every pair
  that rule 1 leaves open.

So nothing is proved about the sorted order. What is proved is that sorting
only reorders the items.

Some consequences of the code, stated outright:
* When no rule decides, the less-function answers `true`; it does not fall
  back to the existing order, and `sort.Slice` is not stable.
* For the query `fmt Println`, the capital `P` makes rule 2 decide every
  pair that rule 1 leaves open, so names play no part. An item named
  `Println` and one named `println` are each less than the other
  (`Scenarios.UpperCaseQueryIgnoresNames`). For the lower-case query
  `fmt println`, rule 3 ranks `println` first, then `Println`
  (`Scenarios.LowerCaseQueryRefinement`).
* For the query `json encoder`, the target `json/encoder` occurs neither in
  `encoding/json` nor in the third-party path `x.org/json` of the scenario,
  so rule 1 decides nothing. Rules 3 and 4 decide instead (`Scenarios.JsonEncoderScenario`).
* The code never checks that an import path is non-empty, and the model does
  not assume it.

The standard-library marker is `" [✅ Standard Library]"`, with U+2705
(check mark button). At app.go:78 the literal holds the bytes `C3 A2 C5 93 E2 80 A6`: the UTF-8 bytes of U+2705, read as
Windows-1252 and encoded again as UTF-8.

## Model

| member | source | states |
|---|---|---|
| `Text.IsUpper` | app.go:134-134 | defined as the ASCII capitals `A` to `Z`; no contract |
| `Text.ContainsUpper` | app.go:132-139 | true exactly when some character of the string is upper case |
| `Text.Lower` | app.go:121-123 | the lowered string has the same length, turns each capital letter into its own small letter (code point plus 32), keeps every other character, and has no capital letter left |
| `Text.Join` | app.go:121-121 | the joined string is as long as the parts plus one separator per gap; it is empty for no parts, starts with the first part followed by the separator when more parts come, and ends with the last part |
| `Text.JoinContainsParts` | app.go:121-121 | every part occurs in the joined string |
| `Text.Contains` | app.go:124-129 | true exactly when the substring occurs at some index; the empty string occurs everywhere |
| `Text.ContainsUpperJoin` | app.go:45-45 | the space-joined query has a capital letter exactly when one of the arguments has one |
| `Normalize.StandardText` | app.go:76-81 | the suffix is non-empty exactly for a standard-library record, and then it is the standard-library marker |
| `Normalize.Title` | app.go:100-100 | the title starts with the name and the parenthesised import path, and ends in the standard-library marker exactly for a standard-library record |
| `Normalize.TitleExactly` | app.go:100-100 | the title is exactly as long as the name, the import path, ` (`, `)` and the suffix; a string is the title exactly when it has the `name (importPath)` prefix, that length, and the marker at its end for a standard-library record |
| `Normalize.PackageItem` | app.go:95-102 | a package item is not a symbol and has no subtitle; the package's name, import path, flag and URL are copied, so the package can be read back |
| `Normalize.SymbolItem` | app.go:105-114 | a symbol item is a symbol with the code as subtitle; the symbol, apart from its unused kind label, can be read back |
| `Normalize.NormalizedNextPackage` | app.go:94-103 | normalising one more package appends that package's item to the package part |
| `Normalize.NormalizedNextSymbol` | app.go:104-115 | normalising one more symbol appends that symbol's item after everything built so far |
| `Normalize.BuildItems` | app.go:93-115 | the two append loops build exactly `Normalized(pkgs, syms)`: after each step of the first loop, the items of the packages seen so far; after each step of the second, those of all packages and the symbols seen so far |
| `Normalize.NormalizedLayout` | app.go:93-115 | one item per record: the package items in input order, then the symbol items in input order |
| `Normalize.NormalizedWellFormed` | app.go:76-115 | every built item has title `name (importPath)` plus the suffix, and only symbols have a subtitle |
| `Ranking.Target` | app.go:121-121 | as long as the slash-joined arguments, with no capital letter, and empty for no arguments |
| `Ranking.Query` | app.go:45-45 | every argument occurs in the space-joined query, and it has a capital letter exactly when some argument has one |
| `Ranking.PathRule` | app.go:120-130 | rule 1 decides exactly when the paths differ and one lowered path contains the target; it answers false exactly when the paths differ, `a`'s lowered path does not contain the target and `b`'s does |
| `Ranking.SymbolRule` | app.go:132-146 | rule 2 decides exactly when some argument has a capital letter, and then answers false only for a package `a` against a symbol `b` |
| `Ranking.ArgHit` | app.go:151-165 | one argument hits exactly when it equals one of the names, exactly or after lowering; an exact match of `a` answers true, and a false answer needs an exact match of `b` or no lowered match of `a` |
| `Ranking.ScanFromLast` | app.go:148-167 | the scan gives no verdict exactly when no argument hits; otherwise it gives the verdict of the last argument that hits |
| `Ranking.NameRule` | app.go:148-167 | rule 3 decides exactly when the names differ and some argument hits one of them, and then gives the verdict of the last argument that hits |
| `Ranking.StdRule` | app.go:169-174 | rule 4 decides exactly when one item alone is from the standard library, and then favours that item |
| `Ranking.Less` | app.go:117-177 | every item is less than itself, because no rule decides between an item and itself |
| `Ranking.ScanSwap` | app.go:148-167 | swapping the two names turns a false verdict of the name scan into true and keeps an undecided scan undecided |
| `Ranking.LessTotal` | app.go:117-177 | for every pair, at least one item is less than the other |
| `Ranking.PathLocality` | app.go:120-130 | with different paths, `a` is less whenever its lowered path contains the target, whatever its other fields; otherwise `a` is not less whenever `b`'s lowered path contains it |
| `Ranking.PathMatchBothWays` | app.go:124-126 | two items whose different paths both contain the target are each less than the other |
| `Ranking.EmptyArgsDifferentPaths` | app.go:120-126 | with no arguments the target is empty, and every pair with different paths is less both ways |
| `Ranking.SymbolIntent` | app.go:132-146 | once rule 1 is undecided and an argument has a capital letter, `a` is not less exactly when `a` is a package and `b` a symbol; no later rule is consulted |
| `Ranking.NameMatch` | app.go:148-167 | once rules 1 and 2 are undecided and the names differ, the last argument that hits decides; each argument checks exact `a`, exact `b`, lowered `a`, lowered `b` in that order |
| `Ranking.StandardLibraryPreference` | app.go:169-176 | once rules 1 to 3 are undecided, `a` is less unless only `b` is from the standard library, so the fallback answers `true` |
| `Ranking.SortItems` | app.go:117-177 | sorting in place with the less-function leaves the same multiset of items |
| `App.Run` | app.go:93-177 | the ranked list has one entry per record and is a permutation of the normalised items; every item is unchanged and well formed |
| `Scenarios.NetHttpBeatsEncodingJson` | app.go:120-130 | for the query `net http`, a `net/http` item is strictly less than an `encoding/json` item, whatever else they hold |
| `Scenarios.UpperCaseQueryIgnoresNames` | app.go:140-146 | for the query `fmt Println`, two items of the same kind on the same path are each less than the other, whatever their names |
| `Scenarios.LowerCaseQueryRefinement` | app.go:148-167 | for the query `fmt println`, `println` is strictly less than `Println`, which is strictly less than `Sprint` |
| `Scenarios.StandardLibraryTieBreak` | app.go:169-174 | with no capital letter in the query, of two items with the same path and name, the standard-library one is strictly less |
| `Scenarios.JsonEncoderScenario` | app.go:117-177 | for the query `json encoder`, the `Encoder` symbol is strictly less than both `json` packages, and the standard one is strictly less than the third-party one |

## Left out

- The launcher plumbing (`aw.Workflow`: reading the arguments, emitting items, sending feedback) is not modelled. The arguments are an input sequence, and the ranked items are the output.
- The concurrent searches are not modelled: the errgroup fan-out, the 3-second timeout and the wrapping of their errors. The package and symbol records are inputs that have already been fetched.
- client.go is not part of this model (HTML scraping and the pkg.go.dev client). Only its `Package` and `Symbol` record shapes are kept. The symbol `Kind` label is kept as a plain string, because the ranking never reads it.
- Logging is left out.
- `Normalize.StandardLibraryMarker`: the marker holds U+2705, not the three characters (`â`, `œ`, `…`) that the literal at app.go:78 holds. Those three characters are the UTF-8 bytes of U+2705, read as Windows-1252.
- `Text.Join`: the contract does not state where the separators between the second and later parts go; the proofs that need the exact joined string (`Text.ContainsUpperJoin` and the literal query facts) use its definition.
- `Text.Lower`: only ASCII capital letters are lowered, and `Text.IsUpper` recognises only `A`-`Z`. The Unicode tables of `strings.ToLower` and `unicode.IsUpper` are not modelled.
- `Ranking.SortItems`: Go's `sort.Slice` algorithm is not shown, so the model uses an insertion sort that calls the same less-function. Only the permutation property is proved. The less-function is not a strict weak ordering, so the exact order Go produces may differ from the model's.
- In Go, `items` holds pointers to `Item` records. Those records are never changed after construction, so the model keeps the items as values in an array. Pointer identity is not modelled.
