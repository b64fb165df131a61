/** The canonical line identifier of the Carris feed: `str[-3:]`. */
module LineId {
  import opened Wrappers
  import opened Tables

  /** Python's `s[-3:]`: the last three characters, or all of a shorter string. */
  function LastThree(s: string): (r: string)
    ensures |r| == if |s| < 3 then |s| else 3
    ensures r == s[|s| - |r|..]
  {
    if |s| <= 3 then s else s[|s| - 3..]
  }

  /** Truncating an already truncated identifier changes nothing. */
  lemma LastThreeIdempotent(s: string)
    ensures LastThree(LastThree(s)) == LastThree(s)
  {
  }

  /** A long composite code keeps only its trailing line number. */
  lemma LastThreeExample()
    ensures LastThree("9999123") == "123"
    ensures LastThree("12") == "12"
  {
  }

  /** `Series.str[-3:]` on one cell: strings are cut, other values become NaN. */
  function TruncateCell(c: Cell): (r: Cell)
    ensures c.Some? && c.value.Str? ==> r == Some(Str(LastThree(c.value.s)))
    ensures !(c.Some? && c.value.Str?) ==> r.None?
  {
    match c case Some(Str(s)) => Some(Str(LastThree(s))) case _ => None
  }
}
