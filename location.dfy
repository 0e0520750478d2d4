/** Where the dashboard takes its coordinates from: the last map click, else
    the first geocoding result for the typed city name, else it stops. */
module Location {
  import opened Results

  datatype Coord = Coord(lat: real, lon: real)

  datatype Source = MapClick | CityName

  /** `Prompt`: the "enter a city name or click on the map" notice;
      `NotFound`: the "Location Not Found" error. Both end the run. */
  datatype StopReason = Prompt | NotFound

  datatype Outcome = Located(coord: Coord, source: Source) | Stopped(reason: StopReason)

  /** `Main.py` lines 34-53. `click` is `map_data["last_clicked"]` when the map reports one;
      `geocode` stands for the direct-geocoding request with `limit=1`, whose
      JSON list of places is reduced to their coordinates. */
  function ResolveLocation(click: Option<Coord>, city: string, geocode: string -> seq<Coord>): (o: Outcome)
    ensures o.Located? && o.source == MapClick <==> click.Some?
    ensures o == Stopped(Prompt) <==> click.None? && city == []
    ensures o == Stopped(NotFound) <==> click.None? && city != [] && geocode(city) == []
    ensures o.Located? ==>
      || (o.source == MapClick && o.coord == click.value)
      || (o.source == CityName && city != [] && geocode(city) != [] && o.coord == geocode(city)[0])
  {
    if click.Some? then Located(click.value, MapClick)
    else if city != [] then
      var places := geocode(city);
      if places == [] then Stopped(NotFound) else Located(places[0], CityName)
    else Stopped(Prompt)
  }

  /** A click decides alone: the typed name and the geocoder play no part. */
  lemma ClickWins(c: Coord, city1: string, city2: string, g1: string -> seq<Coord>, g2: string -> seq<Coord>)
    ensures ResolveLocation(Some(c), city1, g1) == ResolveLocation(Some(c), city2, g2) == Located(c, MapClick)
  {
  }

  /** The geocoder is consulted only with a typed name and no click: any two
      geocoders that agree on that name give the same outcome. */
  lemma GeocodeOnlyForTypedCity(click: Option<Coord>, city: string, g1: string -> seq<Coord>, g2: string -> seq<Coord>)
    requires click.Some? || city == [] || g1(city) == g2(city)
    ensures ResolveLocation(click, city, g1) == ResolveLocation(click, city, g2)
  {
  }

  /** The run goes on exactly when there is a click, or a typed name the geocoder finds. */
  lemma LocatedExactly(click: Option<Coord>, city: string, geocode: string -> seq<Coord>)
    ensures ResolveLocation(click, city, geocode).Located? <==> click.Some? || (city != [] && geocode(city) != [])
  {
  }
}
