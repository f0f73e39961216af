/** The Cuisine Adventure Map: clicking a country opens it and adds its name
    to the discovered list once; "Back to Map" closes it; the trophy shows
    when every country has been discovered. A country is identified by its
    name. */
module CuisineMap {
  import opened Wrappers

  const Countries: seq<string> := ["Italy", "Japan", "Mexico", "India", "Thailand", "France"]

  datatype MapState = MapState(selectedCountry: Option<string>, discoveredDishes: seq<string>)

  /** Nothing selected, nothing discovered. */
  const InitialMap: MapState := MapState(None, [])

  predicate NoDuplicates(xs: seq<string>) {
    forall i, j :: 0 <= i < j < |xs| ==> xs[i] != xs[j]
  }

  /** `handleCountryClick`: the country is selected, and its name is
      appended to the discovered list unless already there. */
  function ClickCountry(s: MapState, country: string): (t: MapState)
    ensures t.selectedCountry == Some(country)
    ensures country in t.discoveredDishes
    ensures country in s.discoveredDishes ==> t.discoveredDishes == s.discoveredDishes
    ensures country !in s.discoveredDishes ==> t.discoveredDishes == s.discoveredDishes + [country]
  {
    var discovered := if country in s.discoveredDishes then s.discoveredDishes else s.discoveredDishes + [country];
    MapState(Some(country), discovered)
  }

  /** "Back to Map": clears the selection only. */
  function BackToMap(s: MapState): (t: MapState)
    ensures t.selectedCountry.None? && t.discoveredDishes == s.discoveredDishes
  {
    s.(selectedCountry := None)
  }

  /** The map screen shows the trophy when as many countries are discovered as
      there are countries. */
  predicate ShowsTrophy(s: MapState) {
    |s.discoveredDishes| == |Countries|
  }

  /** Every reachable state: the discovered names are distinct country
      names. */
  predicate MapInvariant(s: MapState) {
    NoDuplicates(s.discoveredDishes) && forall i :: 0 <= i < |s.discoveredDishes| ==> s.discoveredDishes[i] in Countries
  }

  /** Clicking a country keeps the discovered list free of duplicates and made
      of country names. */
  lemma ClickKeepsInvariant(s: MapState, country: string)
    requires MapInvariant(s) && country in Countries
    ensures MapInvariant(ClickCountry(s, country))
  {
    var d := s.discoveredDishes;
    if country !in d {
      var e := d + [country];
      forall i, j | 0 <= i < j < |e| ensures e[i] != e[j] {
        if j == |d| {
          assert e[i] == d[i];
          assert d[i] in d;
        }
      }
    }
  }

  /** A second click on the same country changes nothing. */
  lemma ClickIdempotent(s: MapState, country: string)
    ensures ClickCountry(ClickCountry(s, country), country) == ClickCountry(s, country)
  {
  }

  lemma {:induction false} DistinctCardinality(xs: seq<string>)
    requires NoDuplicates(xs)
    ensures |set x | x in xs| == |xs|
  {
    if |xs| > 0 {
      var last := xs[|xs| - 1];
      var init := xs[..|xs| - 1];
      DistinctCardinality(init);
      assert last !in init by {
        assert forall i :: 0 <= i < |init| ==> init[i] == xs[i] && xs[i] != last;
      }
      assert xs == init + [last];
      assert (set x | x in xs) == (set x | x in init) + {last};
    }
  }

  lemma {:induction false} SubsetCardinality(a: set<string>, b: set<string>)
    requires a <= b
    ensures |a| <= |b|
    ensures |a| == |b| ==> a == b
    decreases |a|
  {
    if a != {} {
      var x :| x in a;
      SubsetCardinality(a - {x}, b - {x});
      assert a == (a - {x}) + {x} && b == (b - {x}) + {x};
    } else if |b| == 0 {
      assert b == {};
    }
  }

  lemma CountryNames()
    ensures |set c | c in Countries| == |Countries|
  {
    DistinctCardinality(Countries);
  }

  /** The discovered list never holds more names than there are countries,
      and the trophy shows exactly when every country has been discovered. */
  lemma TrophyMeansAllDiscovered(s: MapState)
    requires MapInvariant(s)
    ensures |s.discoveredDishes| <= |Countries|
    ensures ShowsTrophy(s) <==> forall c :: c in Countries ==> c in s.discoveredDishes
  {
    var found := set x | x in s.discoveredDishes;
    var all := set c | c in Countries;
    DistinctCardinality(s.discoveredDishes);
    CountryNames();
    assert found <= all;
    SubsetCardinality(found, all);
    if ShowsTrophy(s) {
      assert found == all;
      forall c | c in Countries ensures c in s.discoveredDishes {
        assert c in all;
      }
    }
    if forall c :: c in Countries ==> c in s.discoveredDishes {
      assert all <= found;
      SubsetCardinality(all, found);
    }
  }

  /** A click on one of the map's countries, or "Back to Map". */
  datatype Action = Open(country: string) | Back

  function Explore(s: MapState, actions: seq<Action>): MapState
    decreases |actions|
  {
    if |actions| == 0 then s
    else
      var next := match actions[0]
        case Open(c) => if c in Countries then ClickCountry(s, c) else s
        case Back => BackToMap(s);
      Explore(next, actions[1..])
  }

  /** Starting from the empty map, the invariant holds after any actions. */
  lemma {:induction false} ExploreKeepsInvariant(s: MapState, actions: seq<Action>)
    requires MapInvariant(s)
    ensures MapInvariant(Explore(s, actions))
    decreases |actions|
  {
    if |actions| > 0 {
      match actions[0]
      case Open(c) =>
        if c in Countries {
          ClickKeepsInvariant(s, c);
        }
        var next := if c in Countries then ClickCountry(s, c) else s;
        ExploreKeepsInvariant(next, actions[1..]);
      case Back =>
        ExploreKeepsInvariant(BackToMap(s), actions[1..]);
    }
  }

  /** The component's state. */
  class AdventureMap {
    var selectedCountry: Option<string>
    var discoveredDishes: seq<string>

    function State(): MapState
      reads this
    {
      MapState(selectedCountry, discoveredDishes)
    }

    constructor()
      ensures State() == InitialMap
    {
      selectedCountry := None;
      discoveredDishes := [];
    }

    method HandleCountryClick(country: string)
      modifies this
      ensures State() == ClickCountry(old(State()), country)
    {
      selectedCountry := Some(country);
      if country !in discoveredDishes {
        discoveredDishes := discoveredDishes + [country];
      }
    }

    method BackToMapClick()
      modifies this
      ensures State() == BackToMap(old(State()))
    {
      selectedCountry := None;
    }
  }
}
