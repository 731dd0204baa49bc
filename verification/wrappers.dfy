/** Failure-carrying results and the errors the coffee machine can report. */
module Wrappers {

  /** Either a value or the error that stopped the operation (a raised ValueError in the machine). */
  datatype Result<+T, +E> = Ok(value: T) | Err(error: E)

  /** One constructor per distinct failure of the machine. The last three are the Python runtime
      errors raised by the defective lines modelled in module AsWritten; the corrected model never
      produces them. */
  datatype Error =
    | OutletsNotPositive        // construction: outlet count is zero or negative
    | NegativeRecipeQuantity    // construction: some recipe asks for a negative amount
    | NegativeRawMaterial       // construction: some raw material starts below zero
    | IngredientNotInMachine    // refill of an ingredient the machine does not track
    | RefillBelowZero           // refill would leave the ingredient below zero
    | UnknownDrink              // an ordered drink has no recipe
    | DictPlusInt               // TypeError: adding an int to the whole inventory dict
    | ItemsNotSubscriptable     // TypeError: slicing a dict's items view
    | UndefinedName             // NameError: assigning through an undefined name
}
