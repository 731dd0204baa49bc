/** The raw-material store and everything the machine does to it for a single drink:
    refilling, classifying a recipe against the stock, consuming a recipe and giving it back. */
module Inventory {
  import opened Wrappers
  import opened Tables

  /** Raw material name to quantity. */
  type Stock = map<string, int>

  /** One drink's ingredients and required quantities, in insertion order. */
  type Recipe = Dict<int>

  /** The machine's integer status flags: 1, 0, -1 and -2. */
  datatype Status = Possible | Insufficient | Impossible | NoOutlet

  function Code(s: Status): (c: int)
    ensures -2 <= c <= 1
  {
    match s
    case Possible => 1
    case Insufficient => 0
    case Impossible => -1
    case NoOutlet => -2
  }

  /** No two statuses share a flag. */
  lemma CodeInjective(a: Status, b: Status)
    ensures Code(a) == Code(b) <==> a == b
  {
  }

  predicate NonNegative(stock: Stock) {
    forall k :: k in stock ==> stock[k] >= 0
  }

  /** Every ingredient of the recipe is tracked by the machine. */
  predicate Covers(recipe: seq<(string, int)>, stock: Stock) {
    forall i :: 0 <= i < |recipe| ==> recipe[i].0 in stock
  }

  lemma CoversSameKeys(recipe: seq<(string, int)>, s1: Stock, s2: Stock)
    requires Covers(recipe, s1) && s1.Keys == s2.Keys
    ensures Covers(recipe, s2)
  {
    forall i | 0 <= i < |recipe|
      ensures recipe[i].0 in s2
    {
      assert recipe[i].0 in s1.Keys;
    }
  }

  /** Every ingredient is tracked and at least as plentiful as the recipe asks. */
  predicate Suffices(recipe: seq<(string, int)>, stock: Stock) {
    forall i :: 0 <= i < |recipe| ==> recipe[i].0 in stock && recipe[i].1 <= stock[recipe[i].0]
  }

  /** Add `qty` (possibly negative) to one tracked ingredient. */
  function Refill(stock: Stock, ingredient: string, qty: int): (r: Result<Stock, Error>)
    ensures ingredient !in stock ==> r == Err(IngredientNotInMachine)
    ensures ingredient in stock && stock[ingredient] + qty < 0 ==> r == Err(RefillBelowZero)
    ensures r.Ok? <==> ingredient in stock && stock[ingredient] + qty >= 0
    ensures r.Ok? ==> r.value.Keys == stock.Keys && r.value[ingredient] == stock[ingredient] + qty
    ensures r.Ok? ==> forall k :: k in stock && k != ingredient ==> r.value[k] == stock[k]
    ensures r.Ok? && NonNegative(stock) ==> NonNegative(r.value)
  {
    if ingredient !in stock then Err(IngredientNotInMachine)
    else if stock[ingredient] + qty < 0 then Err(RefillBelowZero)
    else Ok(stock[ingredient := stock[ingredient] + qty])
  }

  /** A refill is undone by refilling the opposite amount. */
  lemma RefillInverse(stock: Stock, ingredient: string, qty: int)
    requires NonNegative(stock)
    requires Refill(stock, ingredient, qty).Ok?
    ensures Refill(Refill(stock, ingredient, qty).value, ingredient, -qty) == Ok(stock)
  {
    var after := Refill(stock, ingredient, qty).value;
    var back := after[ingredient := after[ingredient] + -qty];
    assert back.Keys == stock.Keys;
    assert forall k :: k in stock ==> back[k] == stock[k];
    assert back == stock;
  }

  /** First pass of the classifier: stops at the first ingredient the machine does not track. */
  function AllPresent(recipe: seq<(string, int)>, stock: Stock): (b: bool)
    ensures b <==> Covers(recipe, stock)
  {
    if |recipe| == 0 then true
    else if recipe[0].0 !in stock then false
    else AllPresent(recipe[1..], stock)
  }

  /** Second pass of the classifier: stops at the first ingredient whose stock is too low. */
  function AllSufficient(recipe: seq<(string, int)>, stock: Stock): (b: bool)
    requires Covers(recipe, stock)
    ensures b <==> Suffices(recipe, stock)
  {
    if |recipe| == 0 then true
    else if stock[recipe[0].0] < recipe[0].1 then false
    else AllSufficient(recipe[1..], stock)
  }

  /** Can the drink be made from the stock? An untracked ingredient wins over a short one. */
  function Classify(recipe: seq<(string, int)>, stock: Stock): (s: Status)
    ensures s == Impossible <==> exists i :: 0 <= i < |recipe| && recipe[i].0 !in stock
    ensures s == Insufficient <==>
      Covers(recipe, stock) && exists i :: 0 <= i < |recipe| && stock[recipe[i].0] < recipe[i].1
    ensures s == Possible <==> Suffices(recipe, stock)
    ensures s != NoOutlet
  {
    if !AllPresent(recipe, stock) then Impossible
    else if !AllSufficient(recipe, stock) then Insufficient
    else Possible
  }

  /** Total amount of `k` the recipe asks for (its quantity when `k` is a key, 0 otherwise). */
  function Demand(recipe: seq<(string, int)>, k: string): int {
    if |recipe| == 0 then 0
    else (if recipe[0].0 == k then recipe[0].1 else 0) + Demand(recipe[1..], k)
  }

  lemma {:induction false} DemandOfAbsent(recipe: seq<(string, int)>, k: string)
    requires k !in Keys(recipe)
    ensures Demand(recipe, k) == 0
  {
    if |recipe| > 0 {
      assert Keys(recipe) == [recipe[0].0] + Keys(recipe[1..]);
      DemandOfAbsent(recipe[1..], k);
    }
  }

  lemma {:induction false} DemandOfKey(recipe: seq<(string, int)>, i: int)
    requires DistinctKeys(recipe)
    requires 0 <= i < |recipe|
    ensures Demand(recipe, recipe[i].0) == recipe[i].1
  {
    var k := recipe[i].0;
    if i == 0 {
      assert k !in Keys(recipe[1..]);
      DemandOfAbsent(recipe[1..], k);
    } else {
      DemandOfKey(recipe[1..], i - 1);
    }
  }

  /** Take every ingredient of the recipe out of the stock. */
  function Consume(stock: Stock, recipe: seq<(string, int)>): (r: Stock)
    requires Covers(recipe, stock)
    ensures r.Keys == stock.Keys
    ensures forall k :: k in stock ==> r[k] == stock[k] - Demand(recipe, k)
  {
    if |recipe| == 0 then stock
    else
      var k := recipe[0].0;
      Consume(stock[k := stock[k] - recipe[0].1], recipe[1..])
  }

  /** Put every ingredient of the recipe back into the stock. */
  function Restore(stock: Stock, recipe: seq<(string, int)>): (r: Stock)
    requires Covers(recipe, stock)
    ensures r.Keys == stock.Keys
    ensures forall k :: k in stock ==> r[k] == stock[k] + Demand(recipe, k)
  {
    if |recipe| == 0 then stock
    else
      var k := recipe[0].0;
      Restore(stock[k := stock[k] + recipe[0].1], recipe[1..])
  }

  /** Making a drink and then unmaking it gives back exactly the stock it started from. */
  lemma ConsumeRestore(stock: Stock, recipe: seq<(string, int)>)
    requires Covers(recipe, stock)
    ensures Restore(Consume(stock, recipe), recipe) == stock
  {
    var after := Restore(Consume(stock, recipe), recipe);
    assert forall k :: k in stock ==> after[k] == stock[k];
  }

  /** Making or unmaking a drink changes only that drink's ingredients, each by its quantity. */
  lemma ConsumeFrame(stock: Stock, recipe: Recipe)
    requires Covers(recipe, stock)
    ensures forall k :: k in stock && k !in Keys(recipe) ==>
      Consume(stock, recipe)[k] == stock[k] && Restore(stock, recipe)[k] == stock[k]
    ensures forall i :: 0 <= i < |recipe| ==>
      Consume(stock, recipe)[recipe[i].0] == stock[recipe[i].0] - recipe[i].1 &&
      Restore(stock, recipe)[recipe[i].0] == stock[recipe[i].0] + recipe[i].1
  {
    forall k | k in stock && k !in Keys(recipe) {
      DemandOfAbsent(recipe, k);
    }
    forall i | 0 <= i < |recipe| {
      DemandOfKey(recipe, i);
    }
  }

  /** A drink the classifier calls possible leaves no ingredient below zero once made. */
  lemma ConsumeNonNegative(stock: Stock, recipe: Recipe)
    requires NonNegative(stock)
    requires Classify(recipe, stock) == Possible
    ensures NonNegative(Consume(stock, recipe))
  {
    var after := Consume(stock, recipe);
    forall k | k in after
      ensures after[k] >= 0
    {
      if k in Keys(recipe) {
        var i :| 0 <= i < |recipe| && recipe[i].0 == k;
        DemandOfKey(recipe, i);
      } else {
        DemandOfAbsent(recipe, k);
      }
    }
  }

  /** The recipe's ingredients that the machine does not track, in recipe order. */
  function MissingIngredients(recipe: seq<(string, int)>, stock: Stock): (r: seq<string>)
    ensures forall x :: x in r <==> exists i :: 0 <= i < |recipe| && recipe[i].0 == x && recipe[i].0 !in stock
    ensures DistinctKeys(recipe) ==> InKeyOrder(r, recipe)
  {
    if |recipe| == 0 then []
    else
      var rest := MissingIngredients(recipe[1..], stock);
      var r := if recipe[0].0 !in stock then [recipe[0].0] + rest else rest;
      if DistinctKeys(recipe) then
        HeadNotInTail(recipe);
        OrderAfterHead(recipe, rest);
        r
      else r
  }

  /** The recipe's ingredients whose stock is below the required amount, in recipe order. */
  function ShortIngredients(recipe: seq<(string, int)>, stock: Stock): (r: seq<string>)
    requires Covers(recipe, stock)
    ensures forall x :: x in r <==>
      exists i :: 0 <= i < |recipe| && recipe[i].0 == x && stock[recipe[i].0] < recipe[i].1
    ensures DistinctKeys(recipe) ==> InKeyOrder(r, recipe)
  {
    if |recipe| == 0 then []
    else
      assert Covers(recipe[1..], stock) by {
        forall j | 0 <= j < |recipe| - 1 ensures recipe[1..][j].0 in stock {
          assert recipe[1..][j] == recipe[j + 1];
        }
      }
      var rest := ShortIngredients(recipe[1..], stock);
      var r := if stock[recipe[0].0] < recipe[0].1 then [recipe[0].0] + rest else rest;
      if DistinctKeys(recipe) then
        HeadNotInTail(recipe);
        OrderAfterHead(recipe, rest);
        r
      else r
  }

  /** Ordering step shared by the two list builders: names taken from the tail keep their
      order when the head key is put in front of them. */
  lemma OrderAfterHead(recipe: seq<(string, int)>, rest: seq<string>)
    requires |recipe| > 0 && recipe[0].0 !in Keys(recipe[1..])
    requires forall x :: x in rest ==> x in Keys(recipe[1..])
    requires InKeyOrder(rest, recipe[1..])
    ensures InKeyOrder(rest, recipe)
    ensures InKeyOrder([recipe[0].0] + rest, recipe)
  {
    forall a, b | 0 <= a < b < |rest|
      ensures IndexOf(recipe, rest[a]) < IndexOf(recipe, rest[b])
    {
      IndexAfterHead(recipe, rest[a]);
      IndexAfterHead(recipe, rest[b]);
    }
    var r := [recipe[0].0] + rest;
    forall a, b | 0 <= a < b < |r|
      ensures IndexOf(recipe, r[a]) < IndexOf(recipe, r[b])
    {
      assert r[b] == rest[b - 1];
      IndexAfterHead(recipe, rest[b - 1]);
      if a > 0 {
        assert r[a] == rest[a - 1];
      }
    }
  }

  /** A key of the tail is not the head key and sits one place further on in the whole. */
  lemma IndexAfterHead(recipe: seq<(string, int)>, x: string)
    requires |recipe| > 0 && recipe[0].0 !in Keys(recipe[1..])
    requires x in Keys(recipe[1..])
    ensures x != recipe[0].0 && IndexOf(recipe, x) == IndexOf(recipe[1..], x) + 1
  {
  }

  /** With distinct keys, the head key is not a key of the tail. */
  lemma HeadNotInTail(recipe: seq<(string, int)>)
    requires |recipe| > 0 && DistinctKeys(recipe)
    ensures recipe[0].0 !in Keys(recipe[1..])
  {
  }
}
