/** Step 5 of the search function: each ranked meal becomes the record the
    client receives, with defaults for every missing or falsy field. */
module MealFormat {
  import opened Wrappers
  import opened JsText
  import opened MealModel

  const DefaultRestaurant: string := "Unknown Restaurant"
  /** U+1F37D FORK AND KNIFE WITH PLATE, then VARIATION SELECTOR-16. */
  const DefaultEmoji: string := "\U{1F37D}\U{FE0F}"
  const DefaultCategory: string := "main"
  const DefaultMinutesMin: int := 15
  const DefaultMinutesMax: int := 30

  datatype FormattedMeal = FormattedMeal(
    id: string,
    name: string,
    restaurant: string,
    price: string,
    deliveryTime: string,
    emoji: string,
    description: string,
    category: string)

  /** `meal.restaurants?.name`. */
  function RestaurantName(m: Meal): Option<string> {
    if m.restaurant.Some? then m.restaurant.value.name else None
  }

  function MinutesMin(m: Meal): Option<int> {
    if m.restaurant.Some? then m.restaurant.value.deliveryTimeMin else None
  }

  function MinutesMax(m: Meal): Option<int> {
    if m.restaurant.Some? then m.restaurant.value.deliveryTimeMax else None
  }

  /** The digits after the point of `frac` hundredths, without trailing
      zeros; empty for zero. */
  function FractionText(frac: nat): (s: string)
    requires frac < 100
    ensures s == "" <==> frac == 0
    ensures s != "" ==> s[0] == '.'
  {
    if frac == 0 then ""
    else if frac % 10 == 0 then "." + [DigitChar(frac / 10)]
    else "." + [DigitChar(frac / 10), DigitChar(frac % 10)]
  }

  /** How a price of `cents` cents prints as a JavaScript number of dollars:
      no trailing zeros after the point and no point for whole dollars. A
      whole number of dollars prints as that integer. */
  function PriceText(cents: int): (s: string)
    ensures |s| > 0
    ensures cents % 100 == 0 ==> s == IntToString(cents / 100)
  {
    if cents < 0 then
      var a: nat := -cents;
      WholeDollarsOfNegation(cents);
      "-" + NatToString(a / 100) + FractionText(a % 100)
    else
      assert cents % 100 == 0 ==> NatToString(cents / 100) + "" == NatToString(cents / 100);
      NatToString(cents / 100) + FractionText(cents % 100)
  }

  /** For a negative price, the dollars of its magnitude are the negated
      dollars, and both are whole together. */
  lemma WholeDollarsOfNegation(cents: int)
    requires cents < 0
    ensures cents % 100 == 0 <==> (-cents) % 100 == 0
    ensures cents % 100 == 0 ==> (-cents) / 100 == -(cents / 100)
  {
    var q, r := cents / 100, cents % 100;
    assert cents == 100 * q + r && 0 <= r < 100;
    if r == 0 {
      assert -cents == 100 * -q;
    } else {
      assert -cents == 100 * (-q - 1) + (100 - r) && 0 < 100 - r < 100;
    }
  }

  /** Reading the price text back as an integer gives the whole dollars
      (rounded toward zero), and nothing follows them exactly when the price
      is a whole number of dollars. */
  lemma PriceTextDollars(cents: int)
    ensures var whole: int := if cents < 0 then -((-cents) / 100) else cents / 100;
      && ScanInt(PriceText(cents)).Some?
      && ScanInt(PriceText(cents)).value.0 == whole
      && (ScanInt(PriceText(cents)).value.1 == "" <==> cents % 100 == 0)
  {
    var text := PriceText(cents);
    if cents < 0 {
      var a: nat := -cents;
      var dollars, fraction := a / 100, FractionText(a % 100);
      assert text == "-" + NatToString(dollars) + fraction;
      ScanNegative(dollars, fraction);
      assert ScanInt(text) == Some((-(dollars as int), fraction));
      WholeDollarsOfNegation(cents);
      assert fraction == "" <==> cents % 100 == 0;
    } else {
      var dollars, fraction := cents / 100, FractionText(cents % 100);
      assert text == NatToString(dollars) + fraction;
      ScanPlain(dollars, fraction);
    }
  }

  /** `${min || 15}-${max || 30} min`. */
  function DeliveryTime(m: Meal): string {
    IntToString(IntOr(MinutesMin(m), DefaultMinutesMin)) + "-"
      + IntToString(IntOr(MinutesMax(m), DefaultMinutesMax)) + " min"
  }

  /** Reads a `lo-hi min` delivery-time text back into its two bounds. */
  function ParseDeliveryTime(s: string): Option<(int, int)> {
    match ScanInt(s)
    case None => None
    case Some((lo, r)) =>
      if |r| == 0 || r[0] != '-' then None
      else match ScanInt(r[1..])
        case None => None
        case Some((hi, r')) => if r' == " min" then Some((lo, hi)) else None
  }

  /** The delivery time reads back as the restaurant's bounds, each replaced
      by its default (15 and 30) when missing or zero, so neither bound shown
      is ever 0. */
  lemma DeliveryTimeRoundTrip(m: Meal)
    ensures ParseDeliveryTime(DeliveryTime(m)) == Some((IntOr(MinutesMin(m), DefaultMinutesMin), IntOr(MinutesMax(m), DefaultMinutesMax)))
    ensures ParseDeliveryTime(DeliveryTime(m)).value.0 != 0 && ParseDeliveryTime(DeliveryTime(m)).value.1 != 0
  {
    var lo := IntOr(MinutesMin(m), DefaultMinutesMin);
    var hi := IntOr(MinutesMax(m), DefaultMinutesMax);
    var tail := IntToString(hi) + " min";
    assert DeliveryTime(m) == IntToString(lo) + ("-" + tail);
    ScanIntOfIntToString(lo, "-" + tail);
    assert ("-" + tail)[1..] == tail;
    ScanIntOfIntToString(hi, " min");
  }

  /** One formatted meal. */
  function FormatMeal(m: Meal): (f: FormattedMeal)
    ensures f.id == m.id && f.name == m.name
    ensures f.restaurant != "" && f.emoji != "" && f.category != ""
    ensures Truthy(RestaurantName(m)) ==> f.restaurant == RestaurantName(m).value
    ensures !Truthy(RestaurantName(m)) ==> f.restaurant == DefaultRestaurant
    ensures f.price == "$" + PriceText(m.priceCents)
    ensures f.deliveryTime == DeliveryTime(m)
    ensures Truthy(m.emoji) ==> f.emoji == m.emoji.value
    ensures !Truthy(m.emoji) ==> f.emoji == DefaultEmoji
    ensures m.description.Some? ==> f.description == m.description.value
    ensures m.description.None? ==> f.description == ""
    ensures Truthy(m.category) ==> f.category == m.category.value
    ensures !Truthy(m.category) ==> f.category == DefaultCategory
  {
    FormattedMeal(
      m.id,
      m.name,
      TextOr(RestaurantName(m), DefaultRestaurant),
      "$" + PriceText(m.priceCents),
      DeliveryTime(m),
      TextOr(m.emoji, DefaultEmoji),
      TextOr(m.description, ""),
      TextOr(m.category, DefaultCategory))
  }

  /** `rankedMeals.map(...)`: one formatted record per ranked meal, in the
      same order. */
  function FormatMeals(ranked: seq<Meal>): (out: seq<FormattedMeal>)
    ensures |out| == |ranked|
    ensures forall i :: 0 <= i < |ranked| ==> out[i] == FormatMeal(ranked[i])
  {
    seq(|ranked|, i requires 0 <= i < |ranked| => FormatMeal(ranked[i]))
  }
}
