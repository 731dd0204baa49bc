/** Three places where the Python code does not do what its surrounding code and documentation
    evidently intend, modelled as written. Each as-written member raises an error where the
    corrected member in the rest of the model returns a value; the lemmas say exactly when the
    two disagree and give an input on which they do. */
module AsWritten {
  import opened Wrappers
  import opened Tables
  import opened Inventory
  import opened Batch
  import opened CoffeeMachine

  /** `refill` as written: after the membership check, the guard adds the integer to the whole
      stock dictionary, which Python rejects, so no refill of a tracked ingredient succeeds. */
  function RefillAsWritten(stock: Stock, ingredient: string, qty: int): (r: Result<Stock, Error>)
    ensures r.Err?
    ensures ingredient !in stock ==> r.error == IngredientNotInMachine
    ensures ingredient in stock ==> r.error == DictPlusInt
  {
    if ingredient !in stock then Err(IngredientNotInMachine)
    else Err(DictPlusInt)
  }

  /** The two versions agree on an untracked ingredient and disagree on every tracked one. */
  lemma RefillAsWrittenDiffers(stock: Stock, ingredient: string, qty: int)
    ensures RefillAsWritten(stock, ingredient, qty) == Inventory.Refill(stock, ingredient, qty)
        <==> ingredient !in stock
  {
  }

  /** Adding one unit of milk to a machine holding one unit. */
  lemma RefillCounterexample()
    ensures RefillAsWritten(map["milk" := 1], "milk", 1) == Err(DictPlusInt)
    ensures Inventory.Refill(map["milk" := 1], "milk", 1) == Ok(map["milk" := 2])
  {
    var after := Inventory.Refill(map["milk" := 1], "milk", 1).value;
    assert after.Keys == {"milk"} && after["milk"] == 2;
    assert after == map["milk" := 2];
  }

  /** The marking loop as written: it assigns to a name that does not exist, so it fails on
      the first menu drink left without an outlet and otherwise leaves the statuses alone. */
  function MarkNoOutletAsWritten(menu: seq<string>, statuses: seq<Status>, waiting: seq<string>)
    : (r: Result<seq<Status>, Error>)
    requires |statuses| <= |menu|
    ensures r.Ok? <==> forall i :: 0 <= i < |statuses| ==> menu[i] !in waiting
    ensures r.Err? ==> r.error == UndefinedName
    ensures r.Ok? ==> r.value == statuses
    decreases |statuses|
  {
    if |statuses| == 0 then Ok(statuses)
    else if menu[0] in waiting then Err(UndefinedName)
    else
      match MarkNoOutletAsWritten(menu[1..], statuses[1..], waiting)
      case Ok(rest) => Ok([statuses[0]] + rest)
      case Err(e) => Err(e)
  }

  /** The loop as written agrees with the corrected marking exactly when no drink waits. */
  lemma MarkNoOutletAsWrittenAgrees(menu: seq<string>, statuses: seq<Status>, waiting: seq<string>)
    requires |statuses| <= |menu|
    ensures MarkNoOutletAsWritten(menu, statuses, waiting) == Ok(MarkNoOutlet(menu, statuses, waiting))
        <==> forall i :: 0 <= i < |statuses| ==> menu[i] !in waiting
  {
    if forall i :: 0 <= i < |statuses| ==> menu[i] !in waiting {
      assert MarkNoOutlet(menu, statuses, waiting) == statuses;
    }
  }

  /** Tea and coffee both makeable, coffee waiting for an outlet. */
  lemma MarkNoOutletCounterexample()
    ensures MarkNoOutletAsWritten(["tea", "coffee"], [Possible, Possible], ["coffee"]) == Err(UndefinedName)
    ensures MarkNoOutlet(["tea", "coffee"], [Possible, Possible], ["coffee"]) == [Possible, NoOutlet]
  {
    var menu := ["tea", "coffee"];
    assert menu[1..][0] == "coffee";
    var marked := MarkNoOutlet(menu, [Possible, Possible], ["coffee"]);
    assert marked[0] == Possible && marked[1] == NoOutlet;
  }

  /** `asManyDrinksAsPossible` as written: with more makeable drinks than outlets it slices a
      dict view, which Python rejects; otherwise nothing waits and the marking loop does
      nothing. */
  function AsManyAsWritten(m: Machine): (r: Result<Outcome, Error>)
    requires Valid(m)
    ensures var dry := CanMakeDrinksList(m, m.menu);
      dry.Ok? && (r.Ok? <==> |dry.value.possible| <= m.outlets)
    ensures r.Err? ==> r.error == ItemsNotSubscriptable
  {
    var dry := Tabulate(m.beverages, m.stock, m.menu);
    if |dry.possible| > m.outlets then Err(ItemsNotSubscriptable)
    else
      match MarkNoOutletAsWritten(m.menu, dry.statuses, [])
      case Ok(statuses) => Ok(Outcome(dry.possible, [], dry.insufficient, dry.impossible, statuses))
      case Err(e) => Err(e)
  }

  /** Whenever the version as written returns, it returns what the corrected version does. */
  lemma AsManyAsWrittenAgrees(m: Machine)
    requires Valid(m)
    ensures AsManyAsWritten(m).Ok? ==> AsManyAsWritten(m).value == AsManyDrinksAsPossible(m)
  {
    var dry := Tabulate(m.beverages, m.stock, m.menu);
    if |dry.possible| <= m.outlets {
      MarkNoOutletAsWrittenAgrees(m.menu, dry.statuses, []);
    }
  }

  /** One outlet; tea and coffee each need one unit of water, and there are two. */
  function TwoDrinksOneOutlet(): (m: Machine)
    ensures Valid(m) && m.outlets == 1 && m.stock == map["water" := 2]
    ensures m.menu == ["tea", "coffee"]
    ensures Get(m.beverages, "tea") == [("water", 1)] && Get(m.beverages, "coffee") == [("water", 1)]
  {
    var beverages: Dict<Recipe> := [("tea", [("water", 1)]), ("coffee", [("water", 1)])];
    assert Keys(beverages)[0] == "tea" && Keys(beverages)[1] == "coffee";
    Machine(1, beverages, map["water" := 2], Keys(beverages))
  }

  /** A recipe table in which tea and coffee each take one unit of water. */
  predicate WaterDrinks(t: Dict<Recipe>) {
    && "tea" in Keys(t) && Get(t, "tea") == [("water", 1)]
    && "coffee" in Keys(t) && Get(t, "coffee") == [("water", 1)]
  }

  /** Tea is made from the two units of water, leaving one. */
  lemma ExampleFirstPass(t: Dict<Recipe>)
    requires WaterDrinks(t)
    ensures var p := Examine(t, map["water" := 2], ["tea"]);
      p.possible == ["tea"] && p.stock == map["water" := 1]
  {
    var water := map["water" := 2];
    var recipe := [("water", 1)];
    ExamineLast(t, water, ["tea"]);
    assert ["tea"][..0] == [];
    var q := Examine(t, water, []);
    StepMakes(t, q, "tea");
    var after := Consume(water, recipe);
    assert Demand(recipe, "water") == 1;
    assert after.Keys == {"water"} && after["water"] == 1;
    assert after == map["water" := 1];
  }

  /** Coffee is then made from the remaining unit. */
  lemma ExampleSecondPass(t: Dict<Recipe>)
    requires WaterDrinks(t)
    ensures Examine(t, map["water" := 2], ["tea", "coffee"]).possible == ["tea", "coffee"]
  {
    ExamineLast(t, map["water" := 2], ["tea", "coffee"]);
    assert ["tea", "coffee"][..1] == ["tea"];
    ExampleCoffeeStep(t);
  }

  /** The pass for coffee, after tea. */
  lemma ExampleCoffeeStep(t: Dict<Recipe>)
    requires WaterDrinks(t)
    ensures Step(t, Examine(t, map["water" := 2], ["tea"]), "coffee").possible == ["tea", "coffee"]
  {
    var q := Examine(t, map["water" := 2], ["tea"]);
    ExampleFirstPass(t);
    StepMakes(t, q, "coffee");
  }

  /** On that machine the version as written fails, while the corrected one makes tea and
      leaves coffee waiting. */
  lemma AsManyCounterexample()
    ensures AsManyAsWritten(TwoDrinksOneOutlet()) == Err(ItemsNotSubscriptable)
    ensures AsManyDrinksAsPossible(TwoDrinksOneOutlet()).possible == ["tea"]
    ensures AsManyDrinksAsPossible(TwoDrinksOneOutlet()).noOutlet == ["coffee"]
  {
    ExampleSecondPass(TwoDrinksOneOutlet().beverages);
    assert ["tea", "coffee"][..1] == ["tea"] && ["tea", "coffee"][1..] == ["coffee"];
  }
}
