# Coffee machine: inventory and recipe core

A Dafny model of the `CoffeeMachine` class in `coffee_machine.py`. The class holds:

- a number of outlets;
- an insertion-ordered table of recipes (drink name to ingredient quantities);
- a stock of raw materials;
- a menu, which is the recipe names in table order.

The model covers all of its operations except the verbose printing:

- **construction** with its checks: outlets, then recipe quantities, then stock quantities; the first failing check is the error;
- **refilling** one ingredient;
- **classifying** a recipe against the stock: possible (flag 1), insufficient (0) or impossible (-1). An untracked ingredient takes precedence over a short one;
- **making** a drink and **unmaking** it;
- **the dry run** over an order list. It classifies each order against the stock the earlier makeable orders left and fills the three result tables. Then it undoes every tentative drink;
- **the refill indicator**: for each ingredient, how much must be added so that every insufficient menu drink could be made once;
- **the outlet-limited run** over the whole menu. The first `outlets` makeable drinks get an outlet; the rest are flagged -2.

Everything is a pure function over immutable values:

- A Python dict becomes `Tables.Dict<V>`, a sequence of key/value pairs with distinct keys, kept in insertion order.
- The stock is a `map<string, int>`.
- The integer status flags 1, 0, -1 and -2 are the `Inventory.Status` values; `Inventory.Code` gives each one's flag.
- Errors the Python code raises become `Err` values of `Wrappers.Result`.
- The two loops of the dry run are folds over prefixes of the order list: `Batch.Examine` and `Batch.Undo`. That the stock comes back unchanged is therefore a theorem, not part of a definition.

Modules:

- `Wrappers`: `Result` and the error names.
- `Tables`: dict operations.
- `Inventory`: the stock and one recipe.
- `Batch`: the dry-run loops.
- `CoffeeMachine`: the machine and its public operations.
- `AsWritten`: three defects of the source, modelled as written (see Findings).

## Model

| member | source | states |
|---|---|---|
| Inventory.Code | coffee_machine.py:458-462 | each status maps to one of the flags 1, 0, -1, -2 |
| Inventory.Refill | coffee_machine.py:177-188 | an untracked ingredient is an error; a result below zero is an error; otherwise exactly that ingredient changes, by `qty`, and a stock with nothing negative stays so |
| Inventory.RefillInverse | coffee_machine.py:187-188 | refilling by `-qty` after a successful refill by `qty` gives back the original stock |
| Inventory.AllPresent | coffee_machine.py:219-222 | the first loop of the classifier finds no untracked ingredient exactly when every ingredient is tracked |
| Inventory.AllSufficient | coffee_machine.py:224-227 | the second loop finds no short ingredient exactly when each tracked amount meets the recipe |
| Inventory.Classify | coffee_machine.py:219-229 | impossible iff some ingredient is untracked; insufficient iff all are tracked and one is short; possible iff all are tracked and sufficient; never the no-outlet flag |
| Inventory.Consume | coffee_machine.py:247-250 | the stock keeps its keys and each ingredient drops by the recipe's amount of it |
| Inventory.Restore | coffee_machine.py:267-270 | the stock keeps its keys and each ingredient rises by the recipe's amount of it |
| Inventory.ConsumeRestore | coffee_machine.py:247-270 | unmaking a drink after making it gives back exactly the stock it started from |
| Inventory.ConsumeFrame | coffee_machine.py:249-250 | only the recipe's own ingredients change, each by its listed quantity |
| Inventory.ConsumeNonNegative | coffee_machine.py:225-250 | making a drink classified possible leaves no ingredient below zero |
| Inventory.ShortIngredients | coffee_machine.py:340-343 | a name is listed iff it is an ingredient whose stock is below the required amount; names keep recipe order |
| Inventory.MissingIngredients | coffee_machine.py:350-356 | a name is listed iff it is an ingredient the machine does not track; names keep recipe order |
| Tables.Get | coffee_machine.py:217 | the value looked up is stored under that key |
| Tables.Put | coffee_machine.py:346 | an existing key keeps its position and takes the new value; a new key goes last; every other entry is unchanged |
| Tables.AddKey | coffee_machine.py:333 | the keys after the assignment are the old keys plus the drink, appended only if new, and stay distinct |
| CoffeeMachine.New | coffee_machine.py:26-147 | the outlet check comes first, then recipe quantities, then stock quantities; construction succeeds iff all three hold, and the machine is then valid, keeps its arguments and has the recipe names in table order as its menu |
| CoffeeMachine.RecipesChecked | coffee_machine.py:137-141 | the nested loop accepts iff no recipe lists a negative quantity |
| CoffeeMachine.QuantitiesChecked | coffee_machine.py:138-141 | the inner loop accepts iff no quantity of the recipe is negative |
| CoffeeMachine.Refill | coffee_machine.py:150-188 | only the stock changes, as the inventory refill says, and a valid machine stays valid |
| CoffeeMachine.CanMakeDrinksList | coffee_machine.py:307-313 | the dry run fails iff some order names no recipe; otherwise it gives one status per order and hands the stock back unchanged |
| Batch.Step | coffee_machine.py:324-359 | one pass appends the order's classification against the working stock, and consumes the recipe exactly when the order is possible |
| Batch.Examine | coffee_machine.py:324-359 | the first loop over the whole order list gives one status per order, and the working stock keeps the stock's ingredients |
| Batch.Advance | coffee_machine.py:324-359 | the non-empty case of `Batch.Examine`: the loop over all orders but the last, then one more pass; one status per order and the same ingredients |
| Batch.StepMakes | coffee_machine.py:330-333 | a drink the working stock fully covers joins the possible table and its ingredients leave the stock |
| Batch.Undo | coffee_machine.py:364-366 | the undo loop adds back, for every ingredient, the total the possible orders took |
| Batch.Tabulate | coffee_machine.py:316-369 | after both loops the machine's stock equals the stock before the dry run |
| Batch.ExamineStock | coffee_machine.py:324-332 | the working stock is the initial stock less what the possible orders took, and every possible order's ingredients are tracked |
| Batch.ExamineClassifies | coffee_machine.py:326 | each order is classified against the stock left by the orders before it |
| Batch.StockBefore | coffee_machine.py:324-332 | the stock seen by order `i` is the initial stock less what the earlier possible orders took |
| Batch.ExaminePrefix | coffee_machine.py:324-327 | the statuses of a prefix of the orders are that prefix of the statuses |
| Batch.ExamineNonNegative | coffee_machine.py:326-332 | starting from a stock with nothing negative, the working stock never goes below zero |
| Batch.ExamineKeys | coffee_machine.py:324-359 | each table's keys are the drinks with an order of that status, once each, at the first such order |
| Batch.KeysWithMembers | coffee_machine.py:333 | a drink is a key iff one of its orders has the status |
| Batch.KeysWithDistinct | coffee_machine.py:333 | no drink is a key twice |
| Batch.KeysWithSelect | coffee_machine.py:333 | when no drink is ordered twice, the keys are exactly the orders with the status, in order |
| Batch.ExamineShortValue | coffee_machine.py:336-346 | a drink's insufficient entry lists the short ingredients of its last insufficient order, against the stock that order saw |
| Batch.ExamineMissingValue | coffee_machine.py:348-359 | an impossible drink's entry lists its recipe's untracked ingredients |
| CoffeeMachine.DryRunStatuses | coffee_machine.py:324-332 | order `i` gets the classification against the stock less what the earlier possible orders took |
| CoffeeMachine.DryRunFits | coffee_machine.py:326-332 | in a valid machine, the possible orders of a dry run fit in the stock together |
| CoffeeMachine.DryRunPossible | coffee_machine.py:330-333 | the possible table lists, once each and in order of first appearance, exactly the drinks with a possible order |
| CoffeeMachine.DryRunInsufficient | coffee_machine.py:336-346 | a drink is a key of the insufficient table iff one of its orders is insufficient; its value is the short list of its last such order |
| CoffeeMachine.DryRunImpossible | coffee_machine.py:348-359 | a drink is a key of the impossible table iff one of its orders is impossible; its value is the recipe's untracked ingredients |
| CoffeeMachine.Raise | coffee_machine.py:416-422 | the inner indicator loop keeps the ingredient keys |
| CoffeeMachine.RaiseBounds | coffee_machine.py:416-422 | raising never lowers an amount, meets every gap of the recipe, and leaves each amount either unchanged or equal to one of the recipe's gaps |
| CoffeeMachine.Indicator | coffee_machine.py:400-424 | the indicator has exactly the stock's ingredients as keys |
| CoffeeMachine.IndicatorLargestGap | coffee_machine.py:400-424 | each amount is non-negative, at least every gap of an insufficient menu drink, and either zero or one of those gaps |
| CoffeeMachine.IndicatorNonNegative | coffee_machine.py:404-422 | no refill amount is negative |
| CoffeeMachine.IndicatorMeetsGaps | coffee_machine.py:414-422 | every shortfall of an insufficient menu drink is covered by the refill amount |
| CoffeeMachine.IndicatorLast | coffee_machine.py:408-422 | the last menu drink lowers no amount and, when insufficient, covers each of its gaps |
| CoffeeMachine.IndicatorAttained | coffee_machine.py:414-422 | a positive refill amount is the shortfall of some insufficient menu drink |
| CoffeeMachine.GiveIndicatorStatus | coffee_machine.py:374-424 | for each tracked ingredient, the largest shortfall over the insufficient menu drinks, or zero when none lacks it |
| CoffeeMachine.MarkNoOutlet | coffee_machine.py:477-480 | the loop, run one status at a time from the front, keeps the length, sets the status of every waiting menu drink to the no-outlet flag and keeps every other status |
| CoffeeMachine.Allot | coffee_machine.py:470-480 | the drinks given an outlet followed by those waiting are the possible table; at most `outlets` get an outlet; the failure tables are kept |
| CoffeeMachine.AllotStatuses | coffee_machine.py:472-480 | a drink waits iff it is makeable and `outlets` makeable drinks precede it; other statuses are kept |
| CoffeeMachine.AllotOutlet | coffee_machine.py:472-480 | a drink given an outlet has the possible status |
| CoffeeMachine.AsManyDrinksAsPossible | coffee_machine.py:465-486 | the dry run over the menu succeeds; its makeable drinks are split, in order, between at most `outlets` made and the rest waiting |
| CoffeeMachine.MenuPossible | coffee_machine.py:465-468 | over the menu the possible table lists the makeable drinks in menu order |
| CoffeeMachine.AsManyStatuses | coffee_machine.py:472-480 | a menu drink is flagged no-outlet iff it is makeable and `outlets` makeable menu drinks precede it; other statuses are the dry run's |
| CoffeeMachine.AsManyOutlets | coffee_machine.py:472-480 | no more drinks are made than there are outlets, and the statuses agree with the two tables |
| AsWritten.RefillAsWritten | coffee_machine.py:177-185 | as written, refill fails for every ingredient: untracked ones with the membership error, tracked ones at the guard |
| AsWritten.RefillAsWrittenDiffers | coffee_machine.py:183 | the version as written agrees with the corrected one exactly on untracked ingredients |
| AsWritten.RefillCounterexample | coffee_machine.py:183 | adding one unit of milk to a machine holding one fails as written and gives two when corrected |
| AsWritten.MarkNoOutletAsWritten | coffee_machine.py:477-480 | the marking loop as written fails iff some menu drink waits, and otherwise leaves the statuses alone |
| AsWritten.MarkNoOutletAsWrittenAgrees | coffee_machine.py:477-480 | the loop as written agrees with the corrected marking iff no drink waits |
| AsWritten.MarkNoOutletCounterexample | coffee_machine.py:480 | with tea made and coffee waiting, the loop as written fails while the corrected one flags coffee |
| AsWritten.AsManyAsWritten | coffee_machine.py:465-486 | as written, the run fails iff there are more makeable drinks than outlets |
| AsWritten.AsManyAsWrittenAgrees | coffee_machine.py:472-480 | whenever the version as written returns, it returns what the corrected one does |
| AsWritten.TwoDrinksOneOutlet | coffee_machine.py:26-38 | a valid one-outlet machine with tea and coffee each needing one unit of water, and two units in stock |
| AsWritten.ExampleFirstPass | coffee_machine.py:324-333 | tea is made from two units of water, leaving one |
| AsWritten.ExampleCoffeeStep | coffee_machine.py:324-333 | coffee is then made from the remaining unit |
| AsWritten.ExampleSecondPass | coffee_machine.py:324-333 | both tea and coffee are makeable in the dry run over that menu |
| AsWritten.AsManyCounterexample | coffee_machine.py:473-475 | on that machine the version as written fails, while the corrected one makes tea and leaves coffee waiting |

## Left out

- The type checks (`coffee_machine.py:65-105`, `171-175`, `210-211`, `309-310`) are not modelled. Dafny's types already rule out a non-integer outlet count, a non-string name and a non-integer quantity.
- Verbose output (`coffee_machine.py:482-485`, `489-557`) only prints, so it is not modelled.
- The sample scripts `sample_usage.py` and `random_order.py` are not part of this model. Neither is JSON loading or any other input and output.
- Order of the stock's keys: the stock is a map, so the insertion order of the raw-material dict is not kept. That order is visible in the dict the indicator returns, whose keys follow the raw-material insertion order (`coffee_machine.py:402-405`, `424`). The model's indicator is a map with the same keys and values, in no order.
- Default arguments: `__init__` defaults to one outlet and empty recipe and stock dicts (`coffee_machine.py:26`). `CoffeeMachine.New` takes all three arguments; a caller passes `1`, `[]` and `map[]` for the defaults.
- Aliasing: the constructor stores the caller's dicts, and so do Python's shared default arguments (`coffee_machine.py:26`). A later mutation through another reference is not modelled; every operation returns new values.
- Drink and ingredient names: the code accepts any string (`coffee_machine.py:77`, `88`, `99` check only the type), and so does the model.
- Batch.Step: requires that the drink has a recipe. The classifier raises an error otherwise (`coffee_machine.py:213-214`), but that branch is unreachable from its two callers. The dry run checks every order's name first (`coffee_machine.py:308-313`). The indicator checks nothing and loops over the menu (`coffee_machine.py:408-410`), relying on the menu being the recipe table's key list, as the next line says.
- CoffeeMachine.GiveIndicatorStatus: requires every menu drink to have a recipe. That holds whenever the menu is the recipe table's key list, as construction makes it.
- CoffeeMachine.AsManyDrinksAsPossible: requires a valid machine, as produced by construction. Its menu is then the recipe table's key list, so the dry run over it cannot fail.
- Concurrency: "made concurrently" appears only in a docstring (`coffee_machine.py:491-492`). The code runs no concurrency, and none is modelled.

## Findings

| source | as written | input that shows it | evidently intended | confidence | as-written member | corrected member |
|---|---|---|---|---|---|---|
| coffee_machine.py:183 | the guard adds the integer to the whole stock dictionary, which raises a type error for every tracked ingredient, so no refill ever succeeds | stock `{milk: 1}`, refill `milk` by 1 | compare the ingredient's own amount plus `qty` with zero, then add | not executed | AsWritten.RefillAsWritten (AsWritten.RefillCounterexample) | Inventory.Refill |
| coffee_machine.py:474-475 | slices the result of `dict.items()`, which is not subscriptable, so the run fails whenever more drinks are makeable than there are outlets | one outlet; tea and coffee each need one unit of water; two units in stock | the first `outlets` makeable drinks in menu order get an outlet and the rest wait | not executed | AsWritten.AsManyAsWritten (AsWritten.AsManyCounterexample) | CoffeeMachine.Allot |
| coffee_machine.py:480 | assigns to `status`, a name not defined in that method, so the marking fails on the first waiting menu drink. As written it is reached only once line 474 is fixed | menu tea, coffee; both makeable; coffee waiting | set `statuses[i]` to the no-outlet flag | not executed | AsWritten.MarkNoOutletAsWritten (AsWritten.MarkNoOutletCounterexample) | CoffeeMachine.MarkNoOutlet |
