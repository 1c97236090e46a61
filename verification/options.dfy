/** The absent-or-present values that every field accessor of an entry returns. */
module Options {

  datatype Option<+T> = None | Some(value: T) {

    /** This value when present, otherwise `other` (Rust's `or_else` on a check result). */
    function OrElse(other: Option<T>): Option<T> {
      if Some? then this else other
    }

    /** The present value, or `default` when absent (Rust's `unwrap_or`). */
    function GetOr(default: T): T {
      if Some? then value else default
    }
  }

  /** The present values, in order. */
  function Present<T>(values: seq<Option<T>>): (ps: seq<T>)
    ensures |ps| <= |values|
  {
    if |values| == 0 then []
    else
      var last := values[|values| - 1];
      Present(values[..|values| - 1]) + (if last.Some? then [last.value] else [])
  }

  /** `Present` on lists of one, two and three values, unfolded. */
  lemma PresentThree<T>(a: Option<T>, b: Option<T>, c: Option<T>)
    ensures Present([a, b, c]) == Present([a, b]) + (if c.Some? then [c.value] else [])
    ensures Present([a, b]) == Present([a]) + (if b.Some? then [b.value] else [])
    ensures Present([a]) == (if a.Some? then [a.value] else [])
  {
    assert [a, b, c][..2] == [a, b];
    assert [a, b][..1] == [a];
    assert [a][..0] == [];
  }
}
