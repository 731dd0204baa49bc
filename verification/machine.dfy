/** The coffee machine itself: construction with its validation, refilling, the dry run over
    an order list, the refill indicator and the outlet-limited run over the whole menu. */
module CoffeeMachine {
  import opened Wrappers
  import opened Tables
  import opened Inventory
  import opened Batch

  /** A machine: its outlet count, its recipes in insertion order, its stock, and the menu
      (the recipe names in the same order). */
  datatype Machine = Machine(outlets: int, beverages: Dict<Recipe>, stock: Stock, menu: seq<string>)

  /** No recipe asks for a negative amount of anything. */
  predicate RecipesNonNegative(beverages: seq<(string, Recipe)>) {
    forall d :: 0 <= d < |beverages| ==> forall j :: 0 <= j < |beverages[d].1| ==> beverages[d].1[j].1 >= 0
  }

  /** What construction establishes and every later operation keeps. */
  predicate Valid(m: Machine) {
    && m.outlets > 0
    && RecipesNonNegative(m.beverages)
    && NonNegative(m.stock)
    && m.menu == Keys(m.beverages)
  }

  /** The nested loop over every recipe's quantities. */
  function RecipesChecked(beverages: seq<(string, Recipe)>): (b: bool)
    ensures b <==> RecipesNonNegative(beverages)
    decreases |beverages|
  {
    if |beverages| == 0 then true
    else QuantitiesChecked(beverages[0].1) && RecipesChecked(beverages[1..])
  }

  /** The inner loop over one recipe's quantities. */
  function QuantitiesChecked(recipe: seq<(string, int)>): (b: bool)
    ensures b <==> forall j :: 0 <= j < |recipe| ==> recipe[j].1 >= 0
    decreases |recipe|
  {
    if |recipe| == 0 then true
    else recipe[0].1 >= 0 && QuantitiesChecked(recipe[1..])
  }

  /** The constructor: the outlet count is checked first, then the recipes, then the stock;
      the first failing check names the error. */
  function New(outlets: int, beverages: Dict<Recipe>, stock: Stock): (r: Result<Machine, Error>)
    ensures outlets <= 0 ==> r == Err(OutletsNotPositive)
    ensures outlets > 0 && !RecipesNonNegative(beverages) ==> r == Err(NegativeRecipeQuantity)
    ensures outlets > 0 && RecipesNonNegative(beverages) && !NonNegative(stock) ==> r == Err(NegativeRawMaterial)
    ensures r.Ok? <==> outlets > 0 && RecipesNonNegative(beverages) && NonNegative(stock)
    ensures r.Ok? ==> Valid(r.value)
    ensures r.Ok? ==> r.value.outlets == outlets && r.value.beverages == beverages && r.value.stock == stock
    ensures r.Ok? ==> forall i :: 0 <= i < |beverages| ==> r.value.menu[i] == beverages[i].0
  {
    if outlets <= 0 then Err(OutletsNotPositive)
    else if !RecipesChecked(beverages) then Err(NegativeRecipeQuantity)
    else if exists k :: k in stock && stock[k] < 0 then Err(NegativeRawMaterial)
    else Ok(Machine(outlets, beverages, stock, Keys(beverages)))
  }

  /** Refilling the machine: only the stock changes, and a valid machine stays valid. */
  function Refill(m: Machine, ingredient: string, qty: int): (r: Result<Machine, Error>)
    ensures r.Ok? <==> ingredient in m.stock && m.stock[ingredient] + qty >= 0
    ensures ingredient !in m.stock ==> r == Err(IngredientNotInMachine)
    ensures ingredient in m.stock && m.stock[ingredient] + qty < 0 ==> r == Err(RefillBelowZero)
    ensures r.Ok? ==> r.value == m.(stock := r.value.stock)
    ensures r.Ok? ==> r.value.stock.Keys == m.stock.Keys && r.value.stock[ingredient] == m.stock[ingredient] + qty
    ensures r.Ok? ==> forall k :: k in m.stock && k != ingredient ==> r.value.stock[k] == m.stock[k]
    ensures r.Ok? && Valid(m) ==> Valid(r.value)
  {
    match Inventory.Refill(m.stock, ingredient, qty)
    case Ok(s) => Ok(m.(stock := s))
    case Err(e) => Err(e)
  }

  /** The dry run over an order list: every order must name a known recipe; otherwise each
      order is classified and the stock is handed back as it was. */
  function CanMakeDrinksList(m: Machine, orders: seq<string>): (r: Result<Report, Error>)
    ensures r.Err? <==> exists i :: 0 <= i < |orders| && orders[i] !in Keys(m.beverages)
    ensures r.Err? ==> r.error == UnknownDrink
    ensures r.Ok? ==> |r.value.statuses| == |orders| && r.value.stockAfter == m.stock
  {
    if !AllKnown(m.beverages, orders) then Err(UnknownDrink)
    else Ok(Tabulate(m.beverages, m.stock, orders))
  }

  /** Order `i` of a dry run is classified against the stock less what the earlier possible
      orders took. */
  lemma DryRunStatuses(m: Machine, orders: seq<string>, i: nat)
    requires CanMakeDrinksList(m, orders).Ok? && i < |orders|
    ensures var r := CanMakeDrinksList(m, orders).value;
      r.statuses[i] == Classify(Get(m.beverages, orders[i]), Remaining(m.beverages, m.stock, orders, r.statuses, i))
  {
    ExamineClassifies(m.beverages, m.stock, orders, i);
    StockBefore(m.beverages, m.stock, orders, i);
  }

  /** In a valid machine the possible orders of a dry run fit in the stock together. */
  lemma DryRunFits(m: Machine, orders: seq<string>)
    requires Valid(m) && CanMakeDrinksList(m, orders).Ok?
    ensures var r := CanMakeDrinksList(m, orders).value;
      forall k :: k in m.stock ==> Used(m.beverages, orders, r.statuses, k) <= m.stock[k]
  {
    ExamineNonNegative(m.beverages, m.stock, orders);
    ExamineStock(m.beverages, m.stock, orders);
  }

  /** The possible table holds, once each and in order of first appearance, exactly the
      drinks with a possible order. */
  lemma DryRunPossible(m: Machine, orders: seq<string>)
    requires CanMakeDrinksList(m, orders).Ok?
    ensures var r := CanMakeDrinksList(m, orders).value;
      && r.possible == KeysWith(orders, r.statuses, Possible)
      && Distinct(r.possible)
      && forall d :: d in r.possible <==> exists i :: 0 <= i < |orders| && orders[i] == d && r.statuses[i] == Possible
  {
    var r := CanMakeDrinksList(m, orders).value;
    ExamineKeys(m.beverages, m.stock, orders);
    KeysWithDistinct(orders, r.statuses, Possible);
    forall d | true
      ensures d in r.possible <==> exists i :: 0 <= i < |orders| && orders[i] == d && r.statuses[i] == Possible
    {
      KeysWithMembers(orders, r.statuses, Possible, d);
    }
  }

  /** The insufficient table has a key for exactly the drinks with an insufficient order, and
      holds for each the short ingredients of its last insufficient order. */
  lemma DryRunInsufficient(m: Machine, orders: seq<string>, i: nat)
    requires CanMakeDrinksList(m, orders).Ok? && i < |orders|
    ensures var r := CanMakeDrinksList(m, orders).value;
      && Keys(r.insufficient) == KeysWith(orders, r.statuses, Insufficient)
      && (orders[i] in Keys(r.insufficient) <==>
            exists j :: 0 <= j < |orders| && orders[j] == orders[i] && r.statuses[j] == Insufficient)
    ensures var r := CanMakeDrinksList(m, orders).value;
      var before := Remaining(m.beverages, m.stock, orders, r.statuses, i);
      LastWith(orders, r.statuses, i, Insufficient) ==>
        && Covers(Get(m.beverages, orders[i]), before)
        && Get(r.insufficient, orders[i]) == ShortIngredients(Get(m.beverages, orders[i]), before)
  {
    var r := CanMakeDrinksList(m, orders).value;
    ExamineKeys(m.beverages, m.stock, orders);
    KeysWithMembers(orders, r.statuses, Insufficient, orders[i]);
    if LastWith(orders, r.statuses, i, Insufficient) {
      ExamineShortValue(m.beverages, m.stock, orders, i);
    }
  }

  /** The impossible table has a key for exactly the drinks with an impossible order, and
      holds for each the recipe's ingredients the machine does not stock. */
  lemma DryRunImpossible(m: Machine, orders: seq<string>, i: nat)
    requires CanMakeDrinksList(m, orders).Ok? && i < |orders|
    ensures var r := CanMakeDrinksList(m, orders).value;
      && Keys(r.impossible) == KeysWith(orders, r.statuses, Impossible)
      && (orders[i] in Keys(r.impossible) <==>
            exists j :: 0 <= j < |orders| && orders[j] == orders[i] && r.statuses[j] == Impossible)
    ensures var r := CanMakeDrinksList(m, orders).value;
      r.statuses[i] == Impossible ==>
        Get(r.impossible, orders[i]) == MissingIngredients(Get(m.beverages, orders[i]), m.stock)
  {
    var r := CanMakeDrinksList(m, orders).value;
    ExamineKeys(m.beverages, m.stock, orders);
    KeysWithMembers(orders, r.statuses, Impossible, orders[i]);
    if r.statuses[i] == Impossible {
      ExamineMissingValue(m.beverages, m.stock, orders, i);
    }
  }
  /** The recipe asks for `g > 0` more of the tracked ingredient `k` than the stock holds. */
  predicate Gap(recipe: seq<(string, int)>, stock: Stock, k: string, g: int) {
    k in stock && g > 0 && exists j :: 0 <= j < |recipe| && recipe[j].0 == k && recipe[j].1 - stock[k] == g
  }

  /** Drink `d` cannot be made for want of ingredients, and would need `g` more of `k`. */
  predicate Demands(t: Dict<Recipe>, stock: Stock, d: string, k: string, g: int)
    requires d in Keys(t)
  {
    Classify(Get(t, d), stock) == Insufficient && Gap(Get(t, d), stock, k, g)
  }

  /** The inner loop of the indicator: raise each ingredient's refill amount to what the
      recipe lacks of it. */
  function Raise(req: Stock, recipe: seq<(string, int)>, stock: Stock): (r: Stock)
    requires req.Keys == stock.Keys && Covers(recipe, stock)
    ensures r.Keys == stock.Keys
    decreases |recipe|
  {
    if |recipe| == 0 then req
    else
      var n := |recipe| - 1;
      assert Covers(recipe[..n], stock) by {
        forall j | 0 <= j < n ensures recipe[..n][j].0 in stock {
          assert recipe[..n][j] == recipe[j];
        }
      }
      var r := Raise(req, recipe[..n], stock);
      var k := recipe[n].0;
      if recipe[n].1 > stock[k] then r[k := Max(r[k], recipe[n].1 - stock[k])] else r
  }

  function Max(a: int, b: int): int {
    if a < b then b else a
  }

  /** Raising never lowers an amount, meets every gap of the recipe, and leaves each amount
      either where it was or at one of the recipe's gaps. */
  lemma {:induction false} RaiseBounds(req: Stock, recipe: seq<(string, int)>, stock: Stock)
    requires req.Keys == stock.Keys && Covers(recipe, stock)
    ensures var r := Raise(req, recipe, stock);
      && (forall k :: k in stock ==> req[k] <= r[k])
      && (forall k, g :: Gap(recipe, stock, k, g) ==> g <= r[k])
      && (forall k :: k in stock ==> r[k] == req[k] || Gap(recipe, stock, k, r[k]))
    decreases |recipe|
  {
    if |recipe| > 0 {
      var n := |recipe| - 1;
      var prefix := recipe[..n];
      assert Covers(prefix, stock) by {
        forall j | 0 <= j < n ensures prefix[j].0 in stock {
          assert prefix[j] == recipe[j];
        }
      }
      RaiseBounds(req, prefix, stock);
      var r0 := Raise(req, prefix, stock);
      var r := Raise(req, recipe, stock);
      forall k, g | Gap(recipe, stock, k, g) ensures g <= r[k] {
        var j :| 0 <= j < |recipe| && recipe[j].0 == k && recipe[j].1 - stock[k] == g;
        if j < n {
          assert prefix[j] == recipe[j];
          assert Gap(prefix, stock, k, g);
        }
      }
      forall k | k in stock ensures r[k] == req[k] || Gap(recipe, stock, k, r[k]) {
        if r[k] != r0[k] {
          assert recipe[n].0 == k;
        } else if r0[k] != req[k] {
          var j :| 0 <= j < n && prefix[j].0 == k && prefix[j].1 - stock[k] == r0[k];
          assert recipe[j] == prefix[j];
        }
      }
    }
  }

  /** The outer loop of the indicator: every insufficient menu drink raises the amounts. */
  function Indicator(t: Dict<Recipe>, menu: seq<string>, stock: Stock): (r: Stock)
    requires AllKnown(t, menu)
    ensures r.Keys == stock.Keys
    decreases |menu|
  {
    if |menu| == 0 then map k | k in stock :: 0
    else
      var n := |menu| - 1;
      var r := Indicator(t, menu[..n], stock);
      var recipe := Get(t, menu[n]);
      if Classify(recipe, stock) == Insufficient then Raise(r, recipe, stock) else r
  }

  /** Each refill amount is the largest shortfall of the ingredient over the menu's
      insufficient drinks, or zero when none lacks it. */
  lemma IndicatorLargestGap(t: Dict<Recipe>, menu: seq<string>, stock: Stock)
    requires AllKnown(t, menu)
    ensures var r := Indicator(t, menu, stock);
      && (forall k :: k in stock ==> r[k] >= 0)
      && (forall i, k, g :: 0 <= i < |menu| && Demands(t, stock, menu[i], k, g) ==> g <= r[k])
      && (forall k :: k in stock ==> r[k] == 0 || exists i :: 0 <= i < |menu| && Demands(t, stock, menu[i], k, r[k]))
  {
    IndicatorNonNegative(t, menu, stock);
    IndicatorMeetsGaps(t, menu, stock);
    IndicatorAttained(t, menu, stock);
  }

  /** No refill amount is negative. */
  lemma {:induction false} IndicatorNonNegative(t: Dict<Recipe>, menu: seq<string>, stock: Stock)
    requires AllKnown(t, menu)
    ensures forall k :: k in stock ==> Indicator(t, menu, stock)[k] >= 0
    decreases |menu|
  {
    if |menu| > 0 {
      var n := |menu| - 1;
      KnownPrefix(t, menu, n);
      IndicatorNonNegative(t, menu[..n], stock);
      var recipe := Get(t, menu[n]);
      if Classify(recipe, stock) == Insufficient {
        RaiseBounds(Indicator(t, menu[..n], stock), recipe, stock);
      }
    }
  }

  /** Every shortfall of an insufficient menu drink is covered by the refill amount. */
  lemma {:induction false} IndicatorMeetsGaps(t: Dict<Recipe>, menu: seq<string>, stock: Stock)
    requires AllKnown(t, menu)
    ensures var r := Indicator(t, menu, stock);
      forall i, k, g :: 0 <= i < |menu| && Demands(t, stock, menu[i], k, g) ==> g <= r[k]
    decreases |menu|
  {
    if |menu| > 0 {
      var n := |menu| - 1;
      var prefix := menu[..n];
      KnownPrefix(t, menu, n);
      IndicatorMeetsGaps(t, prefix, stock);
      IndicatorLast(t, menu, stock);
      var r := Indicator(t, menu, stock);
      forall i, k, g | 0 <= i < |menu| && Demands(t, stock, menu[i], k, g) ensures g <= r[k] {
        if i < n {
          assert prefix[i] == menu[i];
          assert Demands(t, stock, prefix[i], k, g);
        }
      }
    }
  }

  /** The last menu drink raises no amount and, when insufficient, meets each of its gaps. */
  lemma IndicatorLast(t: Dict<Recipe>, menu: seq<string>, stock: Stock)
    requires AllKnown(t, menu) && |menu| > 0
    ensures var n := |menu| - 1;
      var r0 := Indicator(t, menu[..n], stock);
      var r := Indicator(t, menu, stock);
      && (forall k :: k in stock ==> r0[k] <= r[k])
      && (forall k, g :: Demands(t, stock, menu[n], k, g) ==> g <= r[k])
  {
    var n := |menu| - 1;
    KnownPrefix(t, menu, n);
    var recipe := Get(t, menu[n]);
    if Classify(recipe, stock) == Insufficient {
      RaiseBounds(Indicator(t, menu[..n], stock), recipe, stock);
    }
  }

  /** A positive refill amount is the shortfall of some insufficient menu drink. */
  lemma {:induction false} IndicatorAttained(t: Dict<Recipe>, menu: seq<string>, stock: Stock)
    requires AllKnown(t, menu)
    ensures var r := Indicator(t, menu, stock);
      forall k :: k in stock ==> r[k] == 0 || exists i :: 0 <= i < |menu| && Demands(t, stock, menu[i], k, r[k])
    decreases |menu|
  {
    if |menu| > 0 {
      var n := |menu| - 1;
      var prefix := menu[..n];
      KnownPrefix(t, menu, n);
      IndicatorAttained(t, prefix, stock);
      var r0 := Indicator(t, prefix, stock);
      var r := Indicator(t, menu, stock);
      var recipe := Get(t, menu[n]);
      if Classify(recipe, stock) == Insufficient {
        RaiseBounds(r0, recipe, stock);
      }
      forall k | k in stock ensures r[k] == 0 || exists i :: 0 <= i < |menu| && Demands(t, stock, menu[i], k, r[k]) {
        if r[k] != r0[k] {
          assert Demands(t, stock, menu[n], k, r[k]);
        } else if r0[k] != 0 {
          var i :| 0 <= i < n && Demands(t, stock, prefix[i], k, r0[k]);
          assert prefix[i] == menu[i];
        }
      }
    }
  }

  /** The refill indicator: for every tracked ingredient, how much must be added so that
      each menu drink lacking ingredients could be made once. */
  function GiveIndicatorStatus(m: Machine): (r: Stock)
    requires AllKnown(m.beverages, m.menu)
    ensures r.Keys == m.stock.Keys
    ensures forall k :: k in r ==> r[k] >= 0
    ensures forall i, k, g :: 0 <= i < |m.menu| && Demands(m.beverages, m.stock, m.menu[i], k, g) ==> g <= r[k]
    ensures forall k :: k in r ==>
      r[k] == 0 || exists i :: 0 <= i < |m.menu| && Demands(m.beverages, m.stock, m.menu[i], k, r[k])
  {
    IndicatorLargestGap(m.beverages, m.menu, m.stock);
    Indicator(m.beverages, m.menu, m.stock)
  }

  /** What the outlet-limited run over the menu hands back: the drinks given an outlet, the
      makeable drinks left without one, the two failure tables and one status per menu drink. */
  datatype Outcome = Outcome(
    possible: seq<string>,
    noOutlet: seq<string>,
    insufficient: Dict<seq<string>>,
    impossible: Dict<seq<string>>,
    statuses: seq<Status>)

  /** The marking loop, one status at a time from the front: the status of every menu drink
      left without an outlet becomes the no-outlet status, and every other status is kept. */
  function MarkNoOutlet(menu: seq<string>, statuses: seq<Status>, waiting: seq<string>): (r: seq<Status>)
    requires |statuses| <= |menu|
    ensures |r| == |statuses|
    ensures forall i :: 0 <= i < |r| && menu[i] in waiting ==> r[i] == NoOutlet
    ensures forall i :: 0 <= i < |r| && menu[i] !in waiting ==> r[i] == statuses[i]
    decreases |statuses|
  {
    if |statuses| == 0 then []
    else
      var head := if menu[0] in waiting then NoOutlet else statuses[0];
      [head] + MarkNoOutlet(menu[1..], statuses[1..], waiting)
  }

  /** The outlet assignment after a dry run over the menu: the first `outlets` makeable drinks
      get an outlet and the rest wait for one. */
  function Allot(menu: seq<string>, r: Report, outlets: int): (o: Outcome)
    requires |r.statuses| <= |menu| && outlets >= 0
    ensures o.possible + o.noOutlet == r.possible
    ensures |o.possible| == (if |r.possible| > outlets then outlets else |r.possible|)
    ensures o.insufficient == r.insufficient && o.impossible == r.impossible
    ensures |o.statuses| == |r.statuses|
  {
    var made := if |r.possible| > outlets then r.possible[..outlets] else r.possible;
    var waiting := if |r.possible| > outlets then r.possible[outlets..] else [];
    Outcome(made, waiting, r.insufficient, r.impossible, MarkNoOutlet(menu, r.statuses, waiting))
  }

  /** When the possible table lists a distinct menu's makeable drinks in menu order, a drink
      waits for an outlet exactly when `outlets` makeable drinks precede it, and every other
      status is kept. */
  lemma AllotStatuses(menu: seq<string>, r: Report, outlets: int, i: nat)
    requires |r.statuses| == |menu| && outlets >= 0 && i < |menu| && Distinct(menu)
    requires r.possible == Select(menu, r.statuses, Possible)
    requires r.statuses[i] != NoOutlet
    ensures var s := r.statuses;
      var o := Allot(menu, r, outlets);
      && (o.statuses[i] == NoOutlet <==> s[i] == Possible && Count(s[..i], Possible) >= outlets)
      && (o.statuses[i] != NoOutlet ==> o.statuses[i] == s[i])
  {
    var s := r.statuses;
    var o := Allot(menu, r, outlets);
    assert o.statuses[i] == NoOutlet <==> menu[i] in o.noOutlet;
    if s[i] == Possible && Count(s[..i], Possible) >= outlets {
      WaitingWhenLate(menu, r, outlets, i);
    }
    if menu[i] in o.noOutlet {
      LateWhenWaiting(menu, r, outlets, i);
    }
  }

  /** A makeable drink preceded by `outlets` makeable drinks is left waiting. */
  lemma WaitingWhenLate(menu: seq<string>, r: Report, outlets: int, i: nat)
    requires |r.statuses| == |menu| && outlets >= 0 && i < |menu|
    requires r.possible == Select(menu, r.statuses, Possible)
    requires r.statuses[i] == Possible && Count(r.statuses[..i], Possible) >= outlets
    ensures menu[i] in Allot(menu, r, outlets).noOutlet
  {
    var p := r.possible;
    var c := Count(r.statuses[..i], Possible);
    SelectAt(menu, r.statuses, Possible, i);
    assert p[c] == p[outlets..][c - outlets];
  }

  /** A waiting drink is makeable and preceded by `outlets` makeable drinks. */
  lemma LateWhenWaiting(menu: seq<string>, r: Report, outlets: int, i: nat)
    requires |r.statuses| == |menu| && outlets >= 0 && i < |menu| && Distinct(menu)
    requires r.possible == Select(menu, r.statuses, Possible)
    requires menu[i] in Allot(menu, r, outlets).noOutlet
    ensures r.statuses[i] == Possible && Count(r.statuses[..i], Possible) >= outlets
  {
    var s := r.statuses;
    var p := r.possible;
    assert |p| > outlets;
    var x :| 0 <= x < |p| - outlets && p[outlets..][x] == menu[i];
    var j := outlets + x;
    assert p[j] == menu[i];
    SelectFrom(menu, s, Possible, j);
    var i' :| 0 <= i' < |menu| && s[i'] == Possible && Count(s[..i'], Possible) == j && menu[i'] == p[j];
    assert i' == i;
  }

  /** Under the same conditions, a drink given an outlet has the possible status. */
  lemma AllotOutlet(menu: seq<string>, r: Report, outlets: int, i: nat)
    requires |r.statuses| == |menu| && outlets >= 0 && i < |menu| && Distinct(menu)
    requires r.possible == Select(menu, r.statuses, Possible)
    requires menu[i] in Allot(menu, r, outlets).possible
    ensures Allot(menu, r, outlets).statuses[i] == Possible
  {
    var s := r.statuses;
    var p := r.possible;
    var o := Allot(menu, r, outlets);
    var j :| 0 <= j < |o.possible| && o.possible[j] == menu[i];
    assert p[j] == menu[i];
    SelectFrom(menu, s, Possible, j);
    var i' :| 0 <= i' < |menu| && s[i'] == Possible && Count(s[..i'], Possible) == j && menu[i'] == p[j];
    assert i' == i;
    if menu[i] in o.noOutlet {
      LateWhenWaiting(menu, r, outlets, i);
      SelectAt(menu, s, Possible, i);
      assert false;
    }
  }

  /** The whole menu is run through the dry run, then the outlets are allotted. */
  function AsManyDrinksAsPossible(m: Machine): (o: Outcome)
    requires Valid(m)
    ensures CanMakeDrinksList(m, m.menu).Ok?
    ensures var r := CanMakeDrinksList(m, m.menu).value;
      && o.possible + o.noOutlet == r.possible
      && |o.possible| == (if |r.possible| > m.outlets then m.outlets else |r.possible|)
      && o.insufficient == r.insufficient
      && o.impossible == r.impossible
      && |o.statuses| == |m.menu|
  {
    Allot(m.menu, Tabulate(m.beverages, m.stock, m.menu), m.outlets)
  }

  /** Over the menu, whose drinks are all different, the possible table lists the makeable
      drinks in menu order. */
  lemma MenuPossible(m: Machine)
    requires Valid(m)
    ensures Distinct(m.menu)
    ensures var r := CanMakeDrinksList(m, m.menu).value;
      r.possible == Select(m.menu, r.statuses, Possible)
  {
    var r := CanMakeDrinksList(m, m.menu).value;
    DryRunPossible(m, m.menu);
    KeysOfDistinct(m.beverages);
    KeysWithSelect(m.menu, r.statuses, Possible);
  }

  /** A menu drink is marked as waiting for an outlet exactly when it could be made but
      `outlets` makeable drinks come before it in the menu; every other status is the dry
      run's. */
  lemma AsManyStatuses(m: Machine, i: nat)
    requires Valid(m) && i < |m.menu|
    ensures var s := CanMakeDrinksList(m, m.menu).value.statuses;
      var o := AsManyDrinksAsPossible(m);
      && (o.statuses[i] == NoOutlet <==> s[i] == Possible && Count(s[..i], Possible) >= m.outlets)
      && (o.statuses[i] != NoOutlet ==> o.statuses[i] == s[i])
  {
    MenuPossible(m);
    DryRunStatuses(m, m.menu, i);
    AllotStatuses(m.menu, CanMakeDrinksList(m, m.menu).value, m.outlets, i);
  }

  /** No more drinks are made than there are outlets, and every drink given an outlet or left
      waiting has a status saying so. */
  lemma AsManyOutlets(m: Machine)
    requires Valid(m)
    ensures var o := AsManyDrinksAsPossible(m);
      && |o.possible| <= m.outlets
      && (forall i :: 0 <= i < |m.menu| && m.menu[i] in o.noOutlet ==> o.statuses[i] == NoOutlet)
      && (forall i :: 0 <= i < |m.menu| && m.menu[i] in o.possible ==> o.statuses[i] == Possible)
  {
    var o := AsManyDrinksAsPossible(m);
    MenuPossible(m);
    forall i | 0 <= i < |m.menu| && m.menu[i] in o.possible ensures o.statuses[i] == Possible {
      AllotOutlet(m.menu, CanMakeDrinksList(m, m.menu).value, m.outlets, i);
    }
  }
}
