/** The pressure-band filter: `[i for i in result if pinit <= pressure_np[i] <= pfinal]`. */
module BandFilter {

  /** The closed band `[lo, hi]` of the command-line options `--pinit` and
      `--pfinal` (integers, in bar). */
  predicate InBand(p: real, lo: int, hi: int) {
    lo as real <= p <= hi as real
  }

  /** Every candidate is a position of the pressure series. */
  predicate IndicesOf(idx: seq<int>, pressure: seq<real>) {
    forall k | 0 <= k < |idx| :: 0 <= idx[k] < |pressure|
  }

  /** `a` is `b` with some elements left out, the rest in their order. */
  predicate SubsequenceOf(a: seq<int>, b: seq<int>)
    decreases |b|
  {
    if a == [] then true
    else if b == [] then false
    else (a[0] == b[0] && SubsequenceOf(a[1..], b[1..])) || SubsequenceOf(a, b[1..])
  }

  /** The list comprehension: keep the candidates whose pressure lies in the
      band, in their original order. Each kept index is one of the input's
      and in the band; each input index in the band is kept. */
  function FilterBand(idx: seq<int>, pressure: seq<real>, lo: int, hi: int): (r: seq<int>)
    requires IndicesOf(idx, pressure)
    ensures IndicesOf(r, pressure)
    ensures |r| <= |idx|
    ensures forall x :: x in r <==> x in idx && 0 <= x < |pressure| && InBand(pressure[x], lo, hi)
    ensures SubsequenceOf(r, idx)
  {
    if idx == [] then []
    else
      var rest := FilterBand(idx[1..], pressure, lo, hi);
      if InBand(pressure[idx[0]], lo, hi) then [idx[0]] + rest else rest
  }

  /** A band that holds none of the candidates' pressures gives an empty
      list, which is a valid result and not an error. */
  lemma {:induction false} NothingInBand(idx: seq<int>, pressure: seq<real>, lo: int, hi: int)
    requires IndicesOf(idx, pressure)
    requires forall k | 0 <= k < |idx| :: !InBand(pressure[idx[k]], lo, hi)
    ensures FilterBand(idx, pressure, lo, hi) == []
  {
    if idx != [] {
      NothingInBand(idx[1..], pressure, lo, hi);
    }
  }

  /** Filtering an already filtered list with the same band changes nothing. */
  lemma {:induction false} FilterIdempotent(idx: seq<int>, pressure: seq<real>, lo: int, hi: int)
    requires IndicesOf(idx, pressure)
    ensures FilterBand(FilterBand(idx, pressure, lo, hi), pressure, lo, hi) == FilterBand(idx, pressure, lo, hi)
  {
    if idx != [] {
      FilterIdempotent(idx[1..], pressure, lo, hi);
      var rest := FilterBand(idx[1..], pressure, lo, hi);
      if InBand(pressure[idx[0]], lo, hi) {
        assert ([idx[0]] + rest)[1..] == rest;
      }
    }
  }

  /** Filtering with a narrower band after a wider one is the same as
      filtering with the narrower band alone. */
  lemma {:induction false} FilterNested(idx: seq<int>, pressure: seq<real>, lo: int, hi: int, lo': int, hi': int)
    requires IndicesOf(idx, pressure)
    requires lo' <= lo && hi <= hi'
    ensures FilterBand(FilterBand(idx, pressure, lo', hi'), pressure, lo, hi) == FilterBand(idx, pressure, lo, hi)
  {
    if idx != [] {
      FilterNested(idx[1..], pressure, lo, hi, lo', hi');
      var rest := FilterBand(idx[1..], pressure, lo', hi');
      if InBand(pressure[idx[0]], lo', hi') {
        assert ([idx[0]] + rest)[1..] == rest;
      }
    }
  }

  /** Widening the band never drops an index: the narrow result is an
      order-preserving subsequence of the wide one, hence no longer. */
  lemma WideningKeepsIndices(idx: seq<int>, pressure: seq<real>, lo: int, hi: int, lo': int, hi': int)
    requires IndicesOf(idx, pressure)
    requires lo' <= lo && hi <= hi'
    ensures SubsequenceOf(FilterBand(idx, pressure, lo, hi), FilterBand(idx, pressure, lo', hi'))
    ensures |FilterBand(idx, pressure, lo, hi)| <= |FilterBand(idx, pressure, lo', hi')|
    ensures forall x :: x in FilterBand(idx, pressure, lo, hi) ==> x in FilterBand(idx, pressure, lo', hi')
  {
    FilterNested(idx, pressure, lo, hi, lo', hi');
  }
}
