/** Vehicle status encodings: the GTFS-realtime enum of the Carris feed, the
    upstream text both feeds share, and the display labels. */
module Status {
  import opened Wrappers
  import opened Tables

  const IncomingAt := "INCOMING_AT"
  const StoppedAt := "STOPPED_AT"
  const InTransitTo := "IN_TRANSIT_TO"

  const Approaching := "Approaching"
  const Stationed := "Stationed"
  const InTransit := "In Transit"

  /** Python `==` between a cell value and an integer dictionary key: ints,
      floats and bools compare numerically, everything else is unequal.
      This is the lookup of a column holding mixed values; a column of
      booleans only finds no integer key at all. */
  predicate EqualsCode(v: Value, n: int) {
    match v
    case Int(i) => i == n
    case Float(x) => x == n as real
    case Bool(b) => (if b then 1 else 0) == n
    case _ => false
  }

  /** Python's `==` as the map lookup uses it: `True` is the key 1, the
      float 2.0 is the key 2, but the text "0" is not the key 0. */
  lemma EqualsCodeExamples()
    ensures EqualsCode(Bool(true), 1) && EqualsCode(Bool(false), 0)
    ensures EqualsCode(Float(2.0), 2) && !EqualsCode(Float(0.5), 0)
    ensures !EqualsCode(Str("0"), 0) && EqualsCode(Int(1), 1) && !EqualsCode(Int(1), 2)
  {
  }

  /** `current_status.map(status_map)`: codes 0, 1, 2 become the upstream
      text; any other value, and NaN, becomes NaN. */
  function StatusText(c: Cell): (r: Cell)
    ensures c.Some? && EqualsCode(c.value, 0) ==> r == Some(Str(IncomingAt))
    ensures c.Some? && EqualsCode(c.value, 1) ==> r == Some(Str(StoppedAt))
    ensures c.Some? && EqualsCode(c.value, 2) ==> r == Some(Str(InTransitTo))
    ensures r.None? <==> c.None? || !(EqualsCode(c.value, 0) || EqualsCode(c.value, 1) || EqualsCode(c.value, 2))
  {
    match c
    case None => None
    case Some(v) =>
      if EqualsCode(v, 0) then Some(Str(IncomingAt))
      else if EqualsCode(v, 1) then Some(Str(StoppedAt))
      else if EqualsCode(v, 2) then Some(Str(InTransitTo))
      else None
  }

  /** The `.replace({...})` on `Current_Status`: the three upstream strings
      get their display label, every other cell is passed through. */
  function Relabel(c: Cell): (r: Cell)
    ensures c == Some(Str(InTransitTo)) ==> r == Some(Str(InTransit))
    ensures c == Some(Str(IncomingAt)) ==> r == Some(Str(Approaching))
    ensures c == Some(Str(StoppedAt)) ==> r == Some(Str(Stationed))
    ensures c != Some(Str(InTransitTo)) && c != Some(Str(IncomingAt)) && c != Some(Str(StoppedAt)) ==> r == c
  {
    match c
    case Some(Str(s)) =>
      if s == InTransitTo then Some(Str(InTransit))
      else if s == IncomingAt then Some(Str(Approaching))
      else if s == StoppedAt then Some(Str(Stationed))
      else c
    case _ => c
  }

  /** Relabelling twice is relabelling once: no label is itself an upstream string. */
  lemma RelabelIdempotent(c: Cell)
    ensures Relabel(Relabel(c)) == Relabel(c)
  {
  }

  /** The Carris pipeline (map, then replace) sends codes 0, 1, 2 to
      Approaching, Stationed, In Transit and everything else to NaN. */
  lemma CarrisStatusLabel(c: Cell)
    ensures Relabel(StatusText(c)) ==
      if c.Some? && EqualsCode(c.value, 0) then Some(Str(Approaching))
      else if c.Some? && EqualsCode(c.value, 1) then Some(Str(Stationed))
      else if c.Some? && EqualsCode(c.value, 2) then Some(Str(InTransit))
      else None
    ensures Relabel(StatusText(c)) in {None, Some(Str(Approaching)), Some(Str(Stationed)), Some(Str(InTransit))}
  {
  }
}
