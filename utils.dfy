/** The growable vector the syllabifier accumulates into, with the in-place append
    that returns the vector itself. */
module Utils {

  class Vec<T> {
    var elems: seq<T>

    constructor ()
      ensures elems == []
    {
      elems := [];
    }

    /** Appends `t` in place and hands back this same vector, not a copy. */
    method PushRet(t: T) returns (r: Vec<T>)
      modifies this
      ensures r == this
      ensures |elems| == |old(elems)| + 1
      ensures elems[|elems| - 1] == t
      ensures elems[..|old(elems)|] == old(elems)
    {
      elems := elems + [t];
      r := this;
    }

    /** The standard library's in-place reversal of a vector. */
    method Reverse()
      modifies this
      ensures |elems| == |old(elems)|
      ensures forall k :: 0 <= k < |elems| ==> elems[k] == old(elems)[|elems| - 1 - k]
    {
      var before := elems;
      elems := seq(|before|, k requires 0 <= k < |before| => before[|before| - 1 - k]);
    }
  }
}
