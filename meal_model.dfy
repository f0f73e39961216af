/** The records the meal-search function reads and the criteria it extracts
    from a query. Nullable columns are `Option`s; prices are integer cents. */
module MealModel {
  import opened Wrappers

  /** The joined `restaurants (name, delivery_time_min, delivery_time_max)`
      row of a meal. */
  datatype Restaurant = Restaurant(
    name: Option<string>,
    deliveryTimeMin: Option<int>,
    deliveryTimeMax: Option<int>)

  /** A row of the `meals` table together with its joined restaurant, which
      is `None` when the meal has no restaurant row. */
  datatype Meal = Meal(
    id: string,
    name: string,
    description: Option<string>,
    priceCents: int,
    category: Option<string>,
    emoji: Option<string>,
    isAvailable: bool,
    restaurant: Option<Restaurant>)

  /** The `MealCriteria` interface: every field may be null. */
  datatype MealCriteria = MealCriteria(
    keywords: Option<seq<string>>,
    dietaryRestrictions: Option<seq<string>>,
    ingredients: Option<seq<string>>,
    textures: Option<seq<string>>,
    flavors: Option<seq<string>>,
    categories: Option<seq<string>>,
    exclude: Option<seq<string>>,
    pricePreference: Option<string>)

  /** The keyword-only criteria used when the extraction reply cannot be
      parsed. */
  function FallbackCriteria(query: string): MealCriteria {
    MealCriteria(Some([query]), None, None, None, None, None, None, None)
  }

  /** JavaScript truthiness of a nullable string: neither null nor empty. */
  predicate Truthy(s: Option<string>) {
    s.Some? && s.value != ""
  }

  /** `s || fallback` for a nullable string. */
  function TextOr(s: Option<string>, fallback: string): (r: string)
    ensures Truthy(s) ==> r == s.value
    ensures !Truthy(s) ==> r == fallback
  {
    if Truthy(s) then s.value else fallback
  }

  /** `i || fallback` for a nullable integer: null and 0 are falsy. */
  function IntOr(i: Option<int>, fallback: int): (r: int)
    ensures i.Some? && i.value != 0 ==> r == i.value
    ensures i.None? || i.value == 0 ==> r == fallback
  {
    if i.Some? && i.value != 0 then i.value else fallback
  }

  /** The outcome of one call to the chat-completions service: a request
      that got no response (the `fetch` promise rejects, e.g. on a DNS,
      connection or TLS failure) with the error's message, a non-ok HTTP
      status with its response text, or an ok response whose first choice
      carries `content` (`None` when the `choices` array is empty or the
      field is missing or null). */
  datatype ChatReply =
    | Rejected(message: string)
    | HttpError(status: int, text: string)
    | Completed(content: Option<string>)
}
