/** The less-function that `App.run` hands to `sort.Slice`, and the sort.
    The comparator tries four rules in order; the first that decides gives
    the answer, and when none decides the answer is `true`. It is NOT a
    strict weak ordering: `Less(args, x, x)` holds for every item, and two
    items whose differing import paths both contain the target are each
    "less" than the other. */
module Ranking {
  import opened Text
  import opened Normalize

  /** `strings.ToLower(strings.Join(args, "/"))`: as long as the
      slash-joined arguments, with no capital letter, and empty when there
      are no arguments. */
  function Target(args: seq<string>): (r: string)
    ensures |r| == |Join(args, "/")| && !ContainsUpper(r)
    ensures args == [] ==> r == ""
  {
    Lower(Join(args, "/"))
  }

  /** `strings.Join(args, " ")`, the query sent to the searches: every
      argument occurs in it, and it has a capital letter exactly when some
      argument has one. */
  function Query(args: seq<string>): (r: string)
    ensures forall k :: 0 <= k < |args| ==> Contains(r, args[k])
    ensures ContainsUpper(r) <==> exists k :: 0 <= k < |args| && ContainsUpper(args[k])
  {
    ContainsUpperJoin(args, " ");
    JoinContainsParts(args, " ");
    Join(args, " ")
  }

  /** Rule 1, import-path locality: it decides only for differing paths
      of which one contains the target, and `a`'s own match comes first,
      so it answers false exactly when only `b`'s path contains it. */
  function PathRule(args: seq<string>, a: Item, b: Item): (r: Option<bool>)
    ensures r.Some? <==>
      (a.importPath != b.importPath &&
       (Contains(Lower(a.importPath), Target(args)) || Contains(Lower(b.importPath), Target(args))))
    ensures r == Some(false) <==>
      (a.importPath != b.importPath && !Contains(Lower(a.importPath), Target(args)) &&
       Contains(Lower(b.importPath), Target(args)))
  {
    if a.importPath == b.importPath then None
    else if Contains(Lower(a.importPath), Target(args)) then Some(true)
    else if Contains(Lower(b.importPath), Target(args)) then Some(false)
    else None
  }

  /** Rule 2: a query with an upper-case letter asks for a symbol. The rule
      decides exactly when some argument has a capital letter, and then
      answers false only for a package `a` against a symbol `b`. */
  function SymbolRule(args: seq<string>, a: Item, b: Item): (r: Option<bool>)
    ensures r.Some? <==> exists k :: 0 <= k < |args| && ContainsUpper(args[k])
    ensures r.Some? ==> (r.value <==> !(!a.isSymbol && b.isSymbol))
  {
    ContainsUpperJoin(args, " ");
    if !ContainsUpper(Query(args)) then None
    else if !b.isSymbol then Some(true)
    else Some(a.isSymbol)
  }

  /** One step of the name scan, for one argument: exact match of `a`, exact
      match of `b`, case-insensitive match of `a`, case-insensitive match of
      `b`, in that order. */
  function ArgHit(arg: string, aName: string, bName: string): (r: Option<bool>)
    ensures r.Some? <==> aName == arg || bName == arg || Lower(aName) == Lower(arg) || Lower(bName) == Lower(arg)
    ensures aName == arg ==> r == Some(true)
    ensures r == Some(true) ==> aName == arg || (bName != arg && Lower(aName) == Lower(arg))
    ensures r == Some(false) ==> aName != arg && (bName == arg || Lower(aName) != Lower(arg))
  {
    if aName == arg then Some(true)
    else if bName == arg then Some(false)
    else if Lower(aName) == Lower(arg) then Some(true)
    else if Lower(bName) == Lower(arg) then Some(false)
    else None
  }

  /** `args[k]` is the last of `args[..n]` that the name scan hits. */
  ghost predicate LastHitBelow(args: seq<string>, n: int, k: int, aName: string, bName: string) {
    && 0 <= k < n <= |args|
    && ArgHit(args[k], aName, bName).Some?
    && forall j :: k < j < n ==> ArgHit(args[j], aName, bName).None?
  }

  /** The scan of `args[..n]` from the last argument to the first: the
      verdict of the last argument that hits, or none when none does. */
  function ScanFromLast(args: seq<string>, n: nat, aName: string, bName: string): (r: Option<bool>)
    requires n <= |args|
    ensures r.None? <==> forall k :: 0 <= k < n ==> ArgHit(args[k], aName, bName).None?
    ensures r.Some? ==> exists k :: LastHitBelow(args, n, k, aName, bName) && ArgHit(args[k], aName, bName) == r
  {
    if n == 0 then None
    else
      var hit := ArgHit(args[n - 1], aName, bName);
      if hit.Some? then
        assert LastHitBelow(args, n, n - 1, aName, bName);
        hit
      else
        var r := ScanFromLast(args, n - 1, aName, bName);
        assert forall k :: LastHitBelow(args, n - 1, k, aName, bName) ==> LastHitBelow(args, n, k, aName, bName);
        r
  }

  /** Rule 3, name match: it decides exactly when the names differ and
      some argument hits one of them, and then gives the verdict of the
      last argument that hits. */
  function NameRule(args: seq<string>, a: Item, b: Item): (r: Option<bool>)
    ensures r.Some? <==> a.name != b.name && exists k :: 0 <= k < |args| && ArgHit(args[k], a.name, b.name).Some?
    ensures r.Some? ==> exists k :: LastHitBelow(args, |args|, k, a.name, b.name) && ArgHit(args[k], a.name, b.name) == r
  {
    if a.name == b.name then None
    else ScanFromLast(args, |args|, a.name, b.name)
  }

  /** Rule 4, standard-library preference: it decides exactly when one
      item alone is from the standard library, in that item's favour. */
  function StdRule(a: Item, b: Item): (r: Option<bool>)
    ensures r.Some? <==> a.isStandardLibrary != b.isStandardLibrary
    ensures r.Some? ==> r.value == a.isStandardLibrary
  {
    if a.isStandardLibrary && !b.isStandardLibrary then Some(true)
    else if !a.isStandardLibrary && b.isStandardLibrary then Some(false)
    else None
  }

  /** The verdict of a rule that decided, else what the later rules say. */
  function Decide(rule: Option<bool>, otherwise: bool): bool {
    if rule.Some? then rule.value else otherwise
  }

  /** The less-function: rules 1 to 4 in order, `true` when none decides.
      No rule decides between an item and itself, so every item is less
      than itself. */
  predicate Less(args: seq<string>, a: Item, b: Item)
    ensures a == b ==> Less(args, a, b)
  {
    Decide(PathRule(args, a, b),
    Decide(SymbolRule(args, a, b),
    Decide(NameRule(args, a, b),
    Decide(StdRule(a, b),
    true))))
  }

  /** Rule 1 did not decide: equal paths, or neither lowered path contains
      the target. */
  ghost predicate PathUndecided(args: seq<string>, a: Item, b: Item) {
    || a.importPath == b.importPath
    || (!Contains(Lower(a.importPath), Target(args)) && !Contains(Lower(b.importPath), Target(args)))
  }

  /** Rule 1: with differing paths, `a` is less whenever its lowered path
      contains the target, whatever else the items hold; otherwise `a` is
      not less whenever `b`'s lowered path contains it. */
  lemma PathLocality(args: seq<string>, a: Item, b: Item)
    requires a.importPath != b.importPath
    ensures Contains(Lower(a.importPath), Target(args)) ==> Less(args, a, b)
    ensures !Contains(Lower(a.importPath), Target(args)) && Contains(Lower(b.importPath), Target(args))
            ==> !Less(args, a, b)
  {
  }

  /** Two items with differing paths that both contain the target are each
      less than the other. */
  lemma PathMatchBothWays(args: seq<string>, a: Item, b: Item)
    requires a.importPath != b.importPath
    requires Contains(Lower(a.importPath), Target(args))
    requires Contains(Lower(b.importPath), Target(args))
    ensures Less(args, a, b) && Less(args, b, a)
  {
  }

  /** With no arguments the target is empty, so every pair of items with
      differing paths compares less both ways. */
  lemma EmptyArgsDifferentPaths(a: Item, b: Item)
    requires a.importPath != b.importPath
    ensures Target([]) == ""
    ensures Less([], a, b) && Less([], b, a)
  {
    ContainsEmpty(Lower(a.importPath));
    ContainsEmpty(Lower(b.importPath));
  }

  /** Rule 2: when rule 1 did not decide and some argument has an
      upper-case letter, `a` is not less exactly when `a` is a package and
      `b` a symbol; names and standard-library flags play no part. */
  lemma SymbolIntent(args: seq<string>, a: Item, b: Item)
    requires PathUndecided(args, a, b)
    requires exists k :: 0 <= k < |args| && ContainsUpper(args[k])
    ensures Less(args, a, b) <==> !(!a.isSymbol && b.isSymbol)
  {
    ContainsUpperJoin(args, " ");
  }

  /** The last argument the name scan hits is unique. */
  lemma LastHitUnique(args: seq<string>, n: int, k1: int, k2: int, aName: string, bName: string)
    requires LastHitBelow(args, n, k1, aName, bName)
    requires LastHitBelow(args, n, k2, aName, bName)
    ensures k1 == k2
  {
  }

  /** Rule 3: when rules 1 and 2 did not decide and the names differ, the
      last argument that hits (exact `a`, exact `b`, folded `a`, folded `b`)
      gives the verdict. */
  lemma NameMatch(args: seq<string>, a: Item, b: Item, k: nat)
    requires PathUndecided(args, a, b)
    requires forall i :: 0 <= i < |args| ==> !ContainsUpper(args[i])
    requires a.name != b.name
    requires LastHitBelow(args, |args|, k, a.name, b.name)
    ensures Less(args, a, b) == ArgHit(args[k], a.name, b.name).value
  {
    ContainsUpperJoin(args, " ");
    var r := ScanFromLast(args, |args|, a.name, b.name);
    var k' :| LastHitBelow(args, |args|, k', a.name, b.name) && ArgHit(args[k'], a.name, b.name) == r;
    LastHitUnique(args, |args|, k, k', a.name, b.name);
  }

  /** Rule 4 and the fallback: when rules 1 to 3 did not decide, `a` is
      less unless `b` alone is from the standard library. */
  lemma StandardLibraryPreference(args: seq<string>, a: Item, b: Item)
    requires PathUndecided(args, a, b)
    requires forall i :: 0 <= i < |args| ==> !ContainsUpper(args[i])
    requires a.name == b.name || forall i :: 0 <= i < |args| ==> ArgHit(args[i], a.name, b.name).None?
    ensures Less(args, a, b) <==> a.isStandardLibrary || !b.isStandardLibrary
  {
    ContainsUpperJoin(args, " ");
  }

  /** A rule that decides against `a` decides for `b` once the pair is
      swapped. */
  lemma ArgHitSwap(arg: string, aName: string, bName: string)
    ensures ArgHit(arg, aName, bName) == Some(false) ==> ArgHit(arg, bName, aName) == Some(true)
    ensures ArgHit(arg, aName, bName).None? ==> ArgHit(arg, bName, aName).None?
  {
  }

  /** The name scan, with the two names swapped, stays undecided or
      decides the other way round. */
  lemma {:induction false} ScanSwap(args: seq<string>, n: nat, aName: string, bName: string)
    requires n <= |args|
    ensures ScanFromLast(args, n, aName, bName) == Some(false) ==> ScanFromLast(args, n, bName, aName) == Some(true)
    ensures ScanFromLast(args, n, aName, bName).None? ==> ScanFromLast(args, n, bName, aName).None?
  {
    if n > 0 {
      var hit := ArgHit(args[n - 1], aName, bName);
      ArgHitSwap(args[n - 1], aName, bName);
      if hit.None? {
        ScanSwap(args, n - 1, aName, bName);
      } else if hit == Some(false) {
        assert ScanFromLast(args, n, bName, aName) == Some(true);
      }
    }
  }

  /** The comparator never answers false both ways: for every pair, at least
      one of the two is less than the other. */
  lemma LessTotal(args: seq<string>, a: Item, b: Item)
    ensures Less(args, a, b) || Less(args, b, a)
  {
    ScanSwap(args, |args|, a.name, b.name);
  }

  /** Insertion sort by adjacent swaps, calling `Less` exactly as a sort
      calls the less-function; it only reorders the items. */
  method SortItems(args: seq<string>, items: array<Item>)
    modifies items
    ensures multiset(items[..]) == old(multiset(items[..]))
  {
    var i := 1;
    while i < items.Length
      invariant multiset(items[..]) == old(multiset(items[..]))
    {
      var j := i;
      while 0 < j && Less(args, items[j], items[j - 1])
        invariant 0 <= j <= i < items.Length
        invariant multiset(items[..]) == old(multiset(items[..]))
      {
        items[j - 1], items[j] := items[j], items[j - 1];
        j := j - 1;
      }
      i := i + 1;
    }
  }
}
