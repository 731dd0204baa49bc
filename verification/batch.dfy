/** The dry run over an order list: each order is classified against the stock left by the
    orders before it and, when possible, tentatively made; afterwards every tentative drink is
    unmade again. */
module Batch {
  import opened Tables
  import opened Inventory

  /** Every ordered drink has a recipe. */
  predicate AllKnown(t: Dict<Recipe>, orders: seq<string>) {
    forall i :: 0 <= i < |orders| ==> orders[i] in Keys(t)
  }

  /** The state of the first loop of the dry run: the working stock, the three result tables
      (the possible table's values are always empty, so only its keys are kept) and the
      statuses so far. */
  datatype Tally = Tally(
    stock: Stock,
    possible: seq<string>,
    insufficient: Dict<seq<string>>,
    impossible: Dict<seq<string>>,
    statuses: seq<Status>)

  /** What the dry run hands back: the three tables, one status per order, and the stock
      left in the machine once the call returns. */
  datatype Report = Report(
    possible: seq<string>,
    insufficient: Dict<seq<string>>,
    impossible: Dict<seq<string>>,
    statuses: seq<Status>,
    stockAfter: Stock)

  /** Combined amount of `k` taken by the orders whose status is possible. */
  function Used(t: Dict<Recipe>, orders: seq<string>, statuses: seq<Status>, k: string): int
    requires |statuses| == |orders| && AllKnown(t, orders)
    decreases |orders|
  {
    if |orders| == 0 then 0
    else
      var n := |orders| - 1;
      Used(t, orders[..n], statuses[..n], k)
        + (if statuses[n] == Possible then Demand(Get(t, orders[n]), k) else 0)
  }

  /** The stock seen by order `n`: the initial stock less what the earlier possible orders took. */
  function Remaining(t: Dict<Recipe>, stock: Stock, orders: seq<string>, statuses: seq<Status>, n: nat): Stock
    requires |statuses| == |orders| && AllKnown(t, orders) && n <= |orders|
  {
    map k | k in stock :: stock[k] - Used(t, orders[..n], statuses[..n], k)
  }

  /** The names of the orders with status `s`, in order. */
  function Select(orders: seq<string>, statuses: seq<Status>, s: Status): seq<string>
    requires |statuses| == |orders|
    decreases |orders|
  {
    if |orders| == 0 then []
    else
      var n := |orders| - 1;
      Select(orders[..n], statuses[..n], s) + (if statuses[n] == s then [orders[n]] else [])
  }

  /** How many of the statuses equal `s`. */
  function Count(statuses: seq<Status>, s: Status): nat
    decreases |statuses|
  {
    if |statuses| == 0 then 0
    else
      var n := |statuses| - 1;
      Count(statuses[..n], s) + (if statuses[n] == s then 1 else 0)
  }

  /** One pass of the first loop: classify the drink against the working stock and record it. */
  function Step(t: Dict<Recipe>, p: Tally, drink: string): (q: Tally)
    requires drink in Keys(t)
    ensures q.statuses == p.statuses + [Classify(Get(t, drink), p.stock)]
    ensures q.stock.Keys == p.stock.Keys
    ensures Classify(Get(t, drink), p.stock) == Possible ==>
      Covers(Get(t, drink), p.stock) && q.stock == Consume(p.stock, Get(t, drink))
    ensures Classify(Get(t, drink), p.stock) != Possible ==> q.stock == p.stock
  {
    var recipe := Get(t, drink);
    var status := Classify(recipe, p.stock);
    if status == Possible then
      p.(stock := Consume(p.stock, recipe),
         possible := AddKey(p.possible, drink),
         statuses := p.statuses + [status])
    else if status == Insufficient then
      p.(insufficient := Put(p.insufficient, drink, ShortIngredients(recipe, p.stock)),
         statuses := p.statuses + [status])
    else
      p.(impossible := Put(p.impossible, drink, MissingIngredients(recipe, p.stock)),
         statuses := p.statuses + [status])
  }

  /** The first loop run over the whole order list. */
  function Examine(t: Dict<Recipe>, stock: Stock, orders: seq<string>): (p: Tally)
    requires AllKnown(t, orders)
    ensures |p.statuses| == |orders|
    ensures p.stock.Keys == stock.Keys
    decreases |orders|, 1
  {
    if |orders| == 0 then Tally(stock, [], [], [], [])
    else Advance(t, stock, orders)
  }

  /** The loop over a non-empty order list: the loop over all but the last order, then one
      more pass. */
  function Advance(t: Dict<Recipe>, stock: Stock, orders: seq<string>): (p: Tally)
    requires AllKnown(t, orders) && |orders| > 0
    ensures |p.statuses| == |orders|
    ensures p.stock.Keys == stock.Keys
    decreases |orders|, 0
  {
    var n := |orders| - 1;
    Step(t, Examine(t, stock, orders[..n]), orders[n])
  }

  /** The working stock is the initial stock less what the possible orders took, and every
      possible order's ingredients are tracked. */
  lemma ExamineStock(t: Dict<Recipe>, stock: Stock, orders: seq<string>)
    requires AllKnown(t, orders)
    ensures var p := Examine(t, stock, orders);
      && (forall k :: k in stock ==> p.stock[k] == stock[k] - Used(t, orders, p.statuses, k))
      && (forall i :: 0 <= i < |orders| && p.statuses[i] == Possible ==> Covers(Get(t, orders[i]), stock))
  {
    ExamineUsed(t, stock, orders);
    ExamineCovers(t, stock, orders);
  }

  /** The working stock is the initial stock less what the possible orders took. */
  lemma {:induction false} ExamineUsed(t: Dict<Recipe>, stock: Stock, orders: seq<string>)
    requires AllKnown(t, orders)
    ensures var p := Examine(t, stock, orders);
      forall k :: k in stock ==> p.stock[k] == stock[k] - Used(t, orders, p.statuses, k)
    decreases |orders|
  {
    if |orders| > 0 {
      var n := |orders| - 1;
      var q := Examine(t, stock, orders[..n]);
      var p := Examine(t, stock, orders);
      ExamineLast(t, stock, orders);
      ExamineUsed(t, stock, orders[..n]);
      assert p.statuses[..n] == q.statuses;
      assert orders[..n][..n] == orders[..n];
    }
  }

  /** Every possible order's ingredients are tracked. */
  lemma ExamineCovers(t: Dict<Recipe>, stock: Stock, orders: seq<string>)
    requires AllKnown(t, orders)
    ensures var p := Examine(t, stock, orders);
      forall i :: 0 <= i < |orders| && p.statuses[i] == Possible ==> Covers(Get(t, orders[i]), stock)
  {
    var p := Examine(t, stock, orders);
    forall i | 0 <= i < |orders| && p.statuses[i] == Possible
      ensures Covers(Get(t, orders[i]), stock)
    {
      CoversAt(t, stock, orders, i);
    }
  }

  /** A possible order's ingredients are tracked: it was classified against a stock with the
      same ingredients as the initial one. */
  lemma CoversAt(t: Dict<Recipe>, stock: Stock, orders: seq<string>, i: nat)
    requires AllKnown(t, orders) && i < |orders|
    requires Examine(t, stock, orders).statuses[i] == Possible
    ensures Covers(Get(t, orders[i]), stock)
  {
    KnownPrefix(t, orders, i);
    ExamineClassifies(t, stock, orders, i);
    CoversSameKeys(Get(t, orders[i]), Examine(t, stock, orders[..i]).stock, stock);
  }

  /** The second loop: unmake, in order, every drink whose status is possible. */
  function Undo(t: Dict<Recipe>, stock: Stock, orders: seq<string>, statuses: seq<Status>): (r: Stock)
    requires |statuses| == |orders| && AllKnown(t, orders)
    requires forall i :: 0 <= i < |orders| && statuses[i] == Possible ==> Covers(Get(t, orders[i]), stock)
    ensures r.Keys == stock.Keys
    ensures forall k :: k in stock ==> r[k] == stock[k] + Used(t, orders, statuses, k)
    decreases |orders|
  {
    if |orders| == 0 then stock
    else
      var n := |orders| - 1;
      var s := Undo(t, stock, orders[..n], statuses[..n]);
      if statuses[n] == Possible then
        CoversSameKeys(Get(t, orders[n]), stock, s);
        Restore(s, Get(t, orders[n]))
      else s
  }

  /** The dry run proper, once every order is known to have a recipe. */
  function Tabulate(t: Dict<Recipe>, stock: Stock, orders: seq<string>): (r: Report)
    requires AllKnown(t, orders)
    ensures |r.statuses| == |orders|
    ensures r.stockAfter == stock
  {
    var p := Examine(t, stock, orders);
    ExamineStock(t, stock, orders);
    var after := Undo(t, p.stock, orders, p.statuses);
    assert forall k :: k in stock ==> after[k] == stock[k];
    Report(p.possible, p.insufficient, p.impossible, p.statuses, after)
  }

  /** Running the loop on a prefix of the orders gives a prefix of the statuses. */
  lemma {:induction false} ExaminePrefix(t: Dict<Recipe>, stock: Stock, orders: seq<string>, i: nat)
    requires AllKnown(t, orders) && i <= |orders|
    ensures Examine(t, stock, orders[..i]).statuses == Examine(t, stock, orders).statuses[..i]
    decreases |orders|
  {
    if i == |orders| {
      assert orders[..i] == orders;
    } else {
      var n := |orders| - 1;
      var q := Examine(t, stock, orders[..n]);
      ExamineLast(t, stock, orders);
      assert orders[..n][..i] == orders[..i];
      ExaminePrefix(t, stock, orders[..n], i);
    }
  }

  /** The loop over all the orders is one step after the loop over all but the last. */
  lemma ExamineLast(t: Dict<Recipe>, stock: Stock, orders: seq<string>)
    requires AllKnown(t, orders) && |orders| > 0
    ensures var n := |orders| - 1;
      Examine(t, stock, orders) == Step(t, Examine(t, stock, orders[..n]), orders[n])
  {
    assert Examine(t, stock, orders) == Advance(t, stock, orders);
  }

  /** The working stock before order `i` is the initial stock less the earlier possible orders. */
  lemma StockBefore(t: Dict<Recipe>, stock: Stock, orders: seq<string>, i: nat)
    requires AllKnown(t, orders) && i <= |orders|
    ensures Examine(t, stock, orders[..i]).stock
         == Remaining(t, stock, orders, Examine(t, stock, orders).statuses, i)
  {
    ExaminePrefix(t, stock, orders, i);
    ExamineStock(t, stock, orders[..i]);
    var q := Examine(t, stock, orders[..i]);
    var rem := Remaining(t, stock, orders, Examine(t, stock, orders).statuses, i);
    assert forall k :: k in stock ==> q.stock[k] == rem[k];
  }

  /** Each order is classified against the stock left by the orders before it. */
  lemma ExamineClassifies(t: Dict<Recipe>, stock: Stock, orders: seq<string>, i: nat)
    requires AllKnown(t, orders) && i < |orders|
    ensures Examine(t, stock, orders).statuses[i]
         == Classify(Get(t, orders[i]), Examine(t, stock, orders[..i]).stock)
  {
    var o := orders[..i + 1];
    KnownPrefix(t, orders, i + 1);
    ExaminePrefix(t, stock, orders, i + 1);
    LastStatus(t, stock, o);
    assert o[..i] == orders[..i] && o[i] == orders[i];
  }

  /** The last order is classified against the stock the earlier orders left. */
  lemma LastStatus(t: Dict<Recipe>, stock: Stock, orders: seq<string>)
    requires AllKnown(t, orders) && |orders| > 0
    ensures var n := |orders| - 1;
      Examine(t, stock, orders).statuses[n] == Classify(Get(t, orders[n]), Examine(t, stock, orders[..n]).stock)
  {
    ExamineLast(t, stock, orders);
  }

  /** Every prefix of a known order list is known. */
  lemma KnownPrefix(t: Dict<Recipe>, orders: seq<string>, n: nat)
    requires AllKnown(t, orders) && n <= |orders|
    ensures AllKnown(t, orders[..n])
  {
    forall i | 0 <= i < n ensures orders[..n][i] in Keys(t) {
      assert orders[..n][i] == orders[i];
    }
  }

  /** Starting from a stock with nothing below zero, the working stock never goes below zero. */
  lemma {:induction false} ExamineNonNegative(t: Dict<Recipe>, stock: Stock, orders: seq<string>)
    requires AllKnown(t, orders) && NonNegative(stock)
    ensures NonNegative(Examine(t, stock, orders).stock)
    decreases |orders|
  {
    if |orders| > 0 {
      var n := |orders| - 1;
      var q := Examine(t, stock, orders[..n]);
      ExamineNonNegative(t, stock, orders[..n]);
      var recipe := Get(t, orders[n]);
      if Classify(recipe, q.stock) == Possible {
        ConsumeNonNegative(q.stock, recipe);
      }
    }
  }

  /** The keys a Python dict ends up with when `d[orders[i]] = ...` runs for every order
      whose status is `s`: each such drink once, at its first such order. */
  function KeysWith(orders: seq<string>, statuses: seq<Status>, s: Status): seq<string>
    requires |statuses| == |orders|
    decreases |orders|
  {
    if |orders| == 0 then []
    else
      var n := |orders| - 1;
      var ks := KeysWith(orders[..n], statuses[..n], s);
      if statuses[n] == s then AddKey(ks, orders[n]) else ks
  }

  /** One name per order with status `s`. */
  lemma {:induction false} SelectCount(orders: seq<string>, statuses: seq<Status>, s: Status)
    requires |statuses| == |orders|
    ensures |Select(orders, statuses, s)| == Count(statuses, s)
    decreases |orders|
  {
    if |orders| > 0 {
      var n := |orders| - 1;
      SelectCount(orders[..n], statuses[..n], s);
    }
  }

  /** An order with status `s` sits in the selection after the earlier orders with that status. */
  lemma {:induction false} SelectAt(orders: seq<string>, statuses: seq<Status>, s: Status, i: nat)
    requires |statuses| == |orders| && i < |orders| && statuses[i] == s
    ensures Count(statuses[..i], s) < |Select(orders, statuses, s)|
    ensures Select(orders, statuses, s)[Count(statuses[..i], s)] == orders[i]
    decreases |orders|
  {
    var n := |orders| - 1;
    var sel := Select(orders[..n], statuses[..n], s);
    if i == n {
      SelectCount(orders[..n], statuses[..n], s);
    } else {
      SelectAt(orders[..n], statuses[..n], s, i);
      assert statuses[..n][..i] == statuses[..i];
      assert orders[..n][i] == orders[i];
    }
  }

  /** Every entry of the selection comes from an order with status `s`, at the position
      given by the earlier orders with that status. */
  lemma {:induction false} SelectFrom(orders: seq<string>, statuses: seq<Status>, s: Status, j: nat)
    requires |statuses| == |orders| && j < |Select(orders, statuses, s)|
    ensures exists i :: && 0 <= i < |orders| && statuses[i] == s && Count(statuses[..i], s) == j
                        && orders[i] == Select(orders, statuses, s)[j]
    decreases |orders|
  {
    var n := |orders| - 1;
    var sel := Select(orders[..n], statuses[..n], s);
    if j < |sel| {
      SelectFrom(orders[..n], statuses[..n], s, j);
      var i :| 0 <= i < n && statuses[..n][i] == s && Count(statuses[..n][..i], s) == j
        && orders[..n][i] == sel[j];
      assert statuses[..n][..i] == statuses[..i];
    } else {
      SelectCount(orders[..n], statuses[..n], s);
      assert statuses[n] == s && Count(statuses[..n], s) == j;
    }
  }

  /** The three tables of the loop have exactly the keys the dict assignments give them. */
  lemma {:induction false} ExamineKeys(t: Dict<Recipe>, stock: Stock, orders: seq<string>)
    requires AllKnown(t, orders)
    ensures var p := Examine(t, stock, orders);
      && p.possible == KeysWith(orders, p.statuses, Possible)
      && Keys(p.insufficient) == KeysWith(orders, p.statuses, Insufficient)
      && Keys(p.impossible) == KeysWith(orders, p.statuses, Impossible)
    decreases |orders|
  {
    if |orders| > 0 {
      var n := |orders| - 1;
      var q := Examine(t, stock, orders[..n]);
      var p := Examine(t, stock, orders);
      ExamineLast(t, stock, orders);
      ExamineKeys(t, stock, orders[..n]);
      StepTables(t, q, orders[n]);
      var c := Classify(Get(t, orders[n]), q.stock);
      assert p.statuses == q.statuses + [c];
      assert p.statuses[..n] == q.statuses && p.statuses[n] == c;
      KeysWithLast(orders, p.statuses, Possible);
      KeysWithLast(orders, p.statuses, Insufficient);
      KeysWithLast(orders, p.statuses, Impossible);
    }
  }

  /** The keys after the last order, from the keys before it. */
  lemma KeysWithLast(orders: seq<string>, statuses: seq<Status>, s: Status)
    requires |statuses| == |orders| > 0
    ensures var n := |orders| - 1;
      var ks := KeysWith(orders[..n], statuses[..n], s);
      KeysWith(orders, statuses, s) == if statuses[n] == s then AddKey(ks, orders[n]) else ks
  {
  }

  /** A drink is a key exactly when one of its orders has status `s`. */
  lemma {:induction false} KeysWithMembers(orders: seq<string>, statuses: seq<Status>, s: Status, d: string)
    requires |statuses| == |orders|
    ensures d in KeysWith(orders, statuses, s) <==>
      exists i :: 0 <= i < |orders| && orders[i] == d && statuses[i] == s
    decreases |orders|
  {
    if |orders| > 0 {
      var n := |orders| - 1;
      KeysWithMembers(orders[..n], statuses[..n], s, d);
      if exists i :: 0 <= i < |orders| && orders[i] == d && statuses[i] == s {
        var i :| 0 <= i < |orders| && orders[i] == d && statuses[i] == s;
        if i < n {
          assert orders[..n][i] == d && statuses[..n][i] == s;
        }
      }
      if d in KeysWith(orders[..n], statuses[..n], s) {
        var i :| 0 <= i < n && orders[..n][i] == d && statuses[..n][i] == s;
        assert orders[i] == d && statuses[i] == s;
      }
    }
  }

  /** No drink is a key twice. */
  lemma {:induction false} KeysWithDistinct(orders: seq<string>, statuses: seq<Status>, s: Status)
    requires |statuses| == |orders|
    ensures Distinct(KeysWith(orders, statuses, s))
    decreases |orders|
  {
    if |orders| > 0 {
      var n := |orders| - 1;
      KeysWithDistinct(orders[..n], statuses[..n], s);
    }
  }

  /** When no drink is ordered twice, the keys are the orders with status `s`, in order. */
  lemma {:induction false} KeysWithSelect(orders: seq<string>, statuses: seq<Status>, s: Status)
    requires |statuses| == |orders| && Distinct(orders)
    ensures KeysWith(orders, statuses, s) == Select(orders, statuses, s)
    decreases |orders|
  {
    if |orders| > 0 {
      var n := |orders| - 1;
      KeysWithSelect(orders[..n], statuses[..n], s);
      KeysWithMembers(orders[..n], statuses[..n], s, orders[n]);
    }
  }

  /** What one pass of the loop does to the three tables. */
  lemma StepTables(t: Dict<Recipe>, q: Tally, drink: string)
    requires drink in Keys(t)
    ensures var recipe := Get(t, drink);
      var c := Classify(recipe, q.stock);
      var p := Step(t, q, drink);
      && (c == Possible ==> p.possible == AddKey(q.possible, drink))
      && (c != Possible ==> p.possible == q.possible)
      && (c == Insufficient ==>
            Covers(recipe, q.stock) &&
            p.insufficient == Put(q.insufficient, drink, ShortIngredients(recipe, q.stock)))
      && (c != Insufficient ==> p.insufficient == q.insufficient)
      && (c == Impossible ==> p.impossible == Put(q.impossible, drink, MissingIngredients(recipe, q.stock)))
      && (c != Impossible ==> p.impossible == q.impossible)
  {
  }

  /** A drink whose recipe the working stock fully covers is made: it joins the possible table
      and its ingredients leave the stock. */
  lemma StepMakes(t: Dict<Recipe>, q: Tally, drink: string)
    requires drink in Keys(t) && Suffices(Get(t, drink), q.stock) && drink !in q.possible
    ensures Covers(Get(t, drink), q.stock)
    ensures Step(t, q, drink).possible == q.possible + [drink]
    ensures Step(t, q, drink).stock == Consume(q.stock, Get(t, drink))
  {
  }

  /** An order that is its drink's last insufficient one leaves in the insufficient table the
      short ingredients found against the stock it was classified with. */
  lemma {:induction false} ExamineShortValue(t: Dict<Recipe>, stock: Stock, orders: seq<string>, i: nat)
    requires AllKnown(t, orders) && i < |orders|
    requires LastWith(orders, Examine(t, stock, orders).statuses, i, Insufficient)
    ensures var p := Examine(t, stock, orders);
      var before := Remaining(t, stock, orders, p.statuses, i);
      && Covers(Get(t, orders[i]), before)
      && orders[i] in Keys(p.insufficient)
      && Get(p.insufficient, orders[i]) == ShortIngredients(Get(t, orders[i]), before)
    decreases |orders|
  {
    var n := |orders| - 1;
    if i == n {
      ShortAtLast(t, stock, orders);
    } else {
      StatusesPrefix(t, stock, orders);
      LastWithPrefix(orders, Examine(t, stock, orders).statuses, i, Insufficient);
      ExamineShortValue(t, stock, orders[..n], i);
      ShortValueCarried(t, stock, orders, i);
    }
  }

  /** The step of `ExamineShortValue` from all orders but the last to all orders. */
  lemma ShortValueCarried(t: Dict<Recipe>, stock: Stock, orders: seq<string>, i: nat)
    requires AllKnown(t, orders) && i < |orders| - 1
    requires LastWith(orders, Examine(t, stock, orders).statuses, i, Insufficient)
    requires var o := orders[..|orders| - 1];
      var q := Examine(t, stock, o);
      var before := Remaining(t, stock, o, q.statuses, i);
      && Covers(Get(t, o[i]), before)
      && o[i] in Keys(q.insufficient)
      && Get(q.insufficient, o[i]) == ShortIngredients(Get(t, o[i]), before)
    ensures var p := Examine(t, stock, orders);
      var before := Remaining(t, stock, orders, p.statuses, i);
      && Covers(Get(t, orders[i]), before)
      && orders[i] in Keys(p.insufficient)
      && Get(p.insufficient, orders[i]) == ShortIngredients(Get(t, orders[i]), before)
  {
    var n := |orders| - 1;
    RemainingStep(t, stock, orders, i);
    assert orders[..n][i] == orders[i];
    ShortCarried(t, stock, orders, i);
  }

  /** The statuses of a prefix of the orders are a prefix of the statuses. */
  lemma StatusesPrefix(t: Dict<Recipe>, stock: Stock, orders: seq<string>)
    requires AllKnown(t, orders) && |orders| > 0
    ensures Examine(t, stock, orders[..|orders| - 1]).statuses == Examine(t, stock, orders).statuses[..|orders| - 1]
  {
    ExamineLast(t, stock, orders);
  }

  /** The stock seen by an earlier order is the same whether or not the last order is run. */
  lemma RemainingStep(t: Dict<Recipe>, stock: Stock, orders: seq<string>, i: nat)
    requires AllKnown(t, orders) && i < |orders|
    ensures var n := |orders| - 1;
      Remaining(t, stock, orders[..n], Examine(t, stock, orders[..n]).statuses, i)
        == Remaining(t, stock, orders, Examine(t, stock, orders).statuses, i)
  {
    var n := |orders| - 1;
    KnownPrefix(t, orders, n);
    StatusesPrefix(t, stock, orders);
    RemainingPrefix(t, stock, orders, Examine(t, stock, orders).statuses, n, i);
  }

  /** The stock left before order i does not depend on the orders from i on. */
  lemma RemainingPrefix(t: Dict<Recipe>, stock: Stock, orders: seq<string>, statuses: seq<Status>, n: nat, i: nat)
    requires AllKnown(t, orders) && i <= n <= |orders| && |statuses| == |orders|
    ensures Remaining(t, stock, orders[..n], statuses[..n], i) == Remaining(t, stock, orders, statuses, i)
  {
    assert orders[..n][..i] == orders[..i];
    assert statuses[..n][..i] == statuses[..i];
  }

  /** An insufficient-table entry of an earlier order survives the last pass of the loop when
      that order is its drink's last insufficient one. */
  lemma ShortCarried(t: Dict<Recipe>, stock: Stock, orders: seq<string>, i: nat)
    requires AllKnown(t, orders) && i < |orders| - 1
    requires LastWith(orders, Examine(t, stock, orders).statuses, i, Insufficient)
    requires orders[i] in Keys(Examine(t, stock, orders[..|orders| - 1]).insufficient)
    ensures var n := |orders| - 1;
      && orders[i] in Keys(Examine(t, stock, orders).insufficient)
      && Get(Examine(t, stock, orders).insufficient, orders[i]) == Get(Examine(t, stock, orders[..n]).insufficient, orders[i])
  {
    var n := |orders| - 1;
    var q := Examine(t, stock, orders[..n]);
    ExamineLast(t, stock, orders);
    EntryCarried(t, q, orders[n], orders[i], Get(q.insufficient, orders[i]));
  }

  /** The last order, when insufficient, writes its short ingredients into the table. */
  lemma ShortAtLast(t: Dict<Recipe>, stock: Stock, orders: seq<string>)
    requires AllKnown(t, orders) && |orders| > 0
    requires Examine(t, stock, orders).statuses[|orders| - 1] == Insufficient
    ensures var p := Examine(t, stock, orders);
      var n := |orders| - 1;
      var before := Remaining(t, stock, orders, p.statuses, n);
      && Covers(Get(t, orders[n]), before)
      && orders[n] in Keys(p.insufficient)
      && Get(p.insufficient, orders[n]) == ShortIngredients(Get(t, orders[n]), before)
  {
    var n := |orders| - 1;
    var q := Examine(t, stock, orders[..n]);
    ExamineLast(t, stock, orders);
    StepTables(t, q, orders[n]);
    StockBefore(t, stock, orders, n);
  }

  /** A pass of the loop for another drink, or one that is not insufficient, leaves an entry
      of the insufficient table as it was. */
  lemma EntryCarried(t: Dict<Recipe>, q: Tally, drink: string, x: string, v: seq<string>)
    requires drink in Keys(t)
    requires x in Keys(q.insufficient) && Get(q.insufficient, x) == v
    requires x != drink || Step(t, q, drink).statuses[|q.statuses|] != Insufficient
    ensures var p := Step(t, q, drink);
      x in Keys(p.insufficient) && Get(p.insufficient, x) == v
  {
    StepTables(t, q, drink);
  }

  /** An impossible order leaves in the impossible table the recipe's untracked ingredients. */
  lemma {:induction false} ExamineMissingValue(t: Dict<Recipe>, stock: Stock, orders: seq<string>, i: nat)
    requires AllKnown(t, orders) && i < |orders|
    requires Examine(t, stock, orders).statuses[i] == Impossible
    ensures var p := Examine(t, stock, orders);
      && orders[i] in Keys(p.impossible)
      && Get(p.impossible, orders[i]) == MissingIngredients(Get(t, orders[i]), stock)
    decreases |orders|
  {
    var n := |orders| - 1;
    var q := Examine(t, stock, orders[..n]);
    ExamineLast(t, stock, orders);
    if i == n {
      MissingStep(t, stock, q, orders[n], orders[n]);
    } else {
      StatusesPrefix(t, stock, orders);
      assert orders[..n][i] == orders[i];
      ExamineMissingValue(t, stock, orders[..n], i);
      MissingStep(t, stock, q, orders[n], orders[i]);
    }
  }

  /** One pass of the loop keeps each impossible-table entry equal to its recipe's untracked
      ingredients, and writes such an entry for an impossible drink. */
  lemma MissingStep(t: Dict<Recipe>, stock: Stock, q: Tally, drink: string, x: string)
    requires drink in Keys(t) && x in Keys(t) && q.stock.Keys == stock.Keys
    requires x != drink ==> x in Keys(q.impossible) && Get(q.impossible, x) == MissingIngredients(Get(t, x), stock)
    requires x == drink ==>
      Classify(Get(t, drink), q.stock) == Impossible ||
      (x in Keys(q.impossible) && Get(q.impossible, x) == MissingIngredients(Get(t, x), stock))
    ensures var p := Step(t, q, drink);
      x in Keys(p.impossible) && Get(p.impossible, x) == MissingIngredients(Get(t, x), stock)
  {
    StepTables(t, q, drink);
    MissingDependsOnKeys(Get(t, drink), q.stock, stock);
  }

  /** Order `i` has status `s` and no later order of the same drink has it too. */
  predicate LastWith(orders: seq<string>, statuses: seq<Status>, i: int, s: Status)
    requires |statuses| == |orders| && 0 <= i < |orders|
  {
    statuses[i] == s && forall j :: i < j < |orders| ==> orders[j] != orders[i] || statuses[j] != s
  }

  lemma LastWithPrefix(orders: seq<string>, statuses: seq<Status>, i: int, s: Status)
    requires |statuses| == |orders| && 0 <= i < |orders| - 1
    requires LastWith(orders, statuses, i, s)
    ensures LastWith(orders[..|orders| - 1], statuses[..|orders| - 1], i, s)
  {
  }

  /** The missing list looks only at which ingredients are tracked, not at their amounts. */
  lemma {:induction false} MissingDependsOnKeys(recipe: seq<(string, int)>, s1: Stock, s2: Stock)
    requires s1.Keys == s2.Keys
    ensures MissingIngredients(recipe, s1) == MissingIngredients(recipe, s2)
  {
    if |recipe| > 0 {
      MissingDependsOnKeys(recipe[1..], s1, s2);
    }
  }
}
