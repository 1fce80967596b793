/** Model of the small records of wikisort.go: `Range` and `Pull`. */
module Ranges {

  /** A half-open interval [start, end) of positions in the slice being sorted. */
  datatype Range = Range(start: int, end: int) {

    /** The number of positions in [start, end); negative when end < start,
        as the subtraction in Go gives. */
    function Length(): (n: int)
      ensures start + n == end
      ensures start <= end ==> n == |Positions()|
    {
      end - start
    }

    /** The positions the range covers, in increasing order. */
    function Positions(): (ps: seq<int>)
      ensures |ps| == if start <= end then end - start else 0
      ensures forall k :: 0 <= k < |ps| ==> ps[k] == start + k
    {
      if end <= start then [] else seq(end - start, k => start + k)
    }
  }

  /** A buffer relocation record: `count` elements moved from `from` to `to`,
      taken from the range `r`. */
  class Pull {
    var r: Range
    var from: int
    var to: int
    var count: int

    constructor ()
      ensures r == Range(0, 0) && from == 0 && to == 0 && count == 0
    {
      r := Range(0, 0);
      from, to, count := 0, 0, 0;
    }

    /** Clears the record: no elements moved, empty range. */
    method Reset()
      modifies this
      ensures from == 0 && to == 0 && count == 0
      ensures r == Range(0, 0) && r.Length() == 0
    {
      from, to, count := 0, 0, 0;
      r := Range(0, 0);
    }
  }
}
