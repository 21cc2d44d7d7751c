/** `App.run` once both searches have returned: normalise the records,
    then sort the items with the less-function. */
module App {
  import opened Records
  import opened Normalize
  import opened Ranking

  /** Builds the items and sorts them in place. The ranked list holds
      exactly the normalised items, each unchanged and each well formed;
      only their order is new. */
  method Run(args: seq<string>, pkgs: seq<Package>, syms: seq<Symbol>) returns (ranked: seq<Item>)
    ensures |ranked| == |pkgs| + |syms|
    ensures multiset(ranked) == multiset(Normalized(pkgs, syms))
    ensures forall it :: it in ranked ==> WellFormed(it)
  {
    var items := BuildItems(pkgs, syms);
    var a := new Item[|items|](i requires 0 <= i < |items| => items[i]);
    assert a[..] == items;
    SortItems(args, a);
    ranked := a[..];
    NormalizedLayout(pkgs, syms);
    NormalizedWellFormed(pkgs, syms);
    assert forall it :: it in ranked ==> it in multiset(items);
  }
}
