/** `get_district`: the district of a vehicle position, picked from the
    address a reverse-geocoding service returns. The service is a function
    parameter; every way it can fail is one constructor of `Lookup`. */
module District {
  import opened Wrappers
  import opened Tables

  /** What one `geolocator.reverse(...)` call amounts to: an exception, no
      location, or a location whose raw record carries an address map
      (an absent or empty address is the empty map). */
  datatype Lookup = Raised | NoLocation | Located(address: map<string, string>)

  const InvalidCoordinates := "Invalid coordinates"
  const Unknown := "Unknown"

  /** Address components in the order they are tried. */
  const Priority: seq<string> := ["suburb", "neighbourhood", "city_district", "town"]

  /** `address.get(k)` as Python truth sees it: missing and empty are falsy. */
  function Component(a: map<string, string>, k: string): string {
    if k in a then a[k] else ""
  }

  /** The `a or b or c or d` chain over the given keys. */
  function FirstComponent(a: map<string, string>, keys: seq<string>): (r: Option<string>)
    ensures r.Some? ==> r.value != ""
  {
    if keys == [] then None
    else if Component(a, keys[0]) != "" then Some(Component(a, keys[0]))
    else FirstComponent(a, keys[1..])
  }

  /** The chain yields the first non-empty component in key order, and
      nothing exactly when every component is empty. */
  lemma {:induction false} FirstComponentSpec(a: map<string, string>, keys: seq<string>)
    ensures FirstComponent(a, keys).None? <==> forall i :: 0 <= i < |keys| ==> Component(a, keys[i]) == ""
    ensures forall i :: 0 <= i < |keys| && Component(a, keys[i]) != ""
              && (forall j :: 0 <= j < i ==> Component(a, keys[j]) == "")
              ==> FirstComponent(a, keys) == Some(Component(a, keys[i]))
  {
    if keys != [] {
      FirstComponentSpec(a, keys[1..]);
      assert forall i :: 1 <= i < |keys| ==> keys[i] == keys[1..][i - 1];
      forall i | 0 <= i < |keys| && Component(a, keys[i]) != ""
                 && (forall j :: 0 <= j < i ==> Component(a, keys[j]) == "")
        ensures FirstComponent(a, keys) == Some(Component(a, keys[i]))
      {
        if i > 0 {
          assert forall j :: 0 <= j < i - 1 ==> keys[1..][j] == keys[j + 1];
        }
      }
    }
  }

  /** `get_district(latitude, longitude)`. NaN coordinates short-circuit
      without a lookup; otherwise the first non-empty of suburb,
      neighbourhood, city_district, town; every failure is "Unknown". */
  function GetDistrict(lat: Cell, lon: Cell, geocode: (Value, Value) -> Lookup): (r: string)
    ensures r != ""
    ensures lat.None? || lon.None? ==> r == InvalidCoordinates
    ensures lat.Some? && lon.Some? && !geocode(lat.value, lon.value).Located? ==> r == Unknown
    ensures lat.Some? && lon.Some? && geocode(lat.value, lon.value).Located? ==>
      var a := geocode(lat.value, lon.value).address;
      && ((forall i :: 0 <= i < |Priority| ==> Component(a, Priority[i]) == "") ==> r == Unknown)
      && (forall i :: 0 <= i < |Priority| && Component(a, Priority[i]) != ""
            && (forall j :: 0 <= j < i ==> Component(a, Priority[j]) == "")
            ==> r == Component(a, Priority[i]))
  {
    if lat.None? || lon.None? then InvalidCoordinates
    else match geocode(lat.value, lon.value)
      case Located(a) =>
        FirstComponentSpec(a, Priority);
        FirstComponent(a, Priority).GetOr(Unknown)
      case _ => Unknown
  }

  /** The script never assigns `geolocator`, so every lookup raises a NameError. */
  function UnassignedGeolocator(lat: Value, lon: Value): Lookup {
    Raised
  }

  /** As the script runs, a position is "Invalid coordinates" when a
      coordinate is NaN and "Unknown" otherwise. */
  lemma ScriptDistrict(lat: Cell, lon: Cell)
    ensures GetDistrict(lat, lon, UnassignedGeolocator) ==
      if lat.None? || lon.None? then InvalidCoordinates else Unknown
  {
  }
}
