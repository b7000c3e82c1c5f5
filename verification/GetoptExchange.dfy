/** Exchanging two neighbouring stretches of an array in place. */
module GetoptExchange {

  /** Where the element that ends up at k comes from when s[l..m] and s[m..r] change places. */
  function Origin(l: nat, m: nat, r: nat, k: nat): nat
    requires l <= m <= r
  {
    if k < l || r <= k then k
    else if k < l + (r - m) then k + (m - l)
    else k - (r - m)
  }

  /** The sequence rotated left by m - l between l and r. */
  function Rotated<T>(s: seq<T>, l: nat, m: nat, r: nat): (t: seq<T>)
    requires l <= m <= r <= |s|
    ensures |t| == |s|
  {
    seq(|s|, k requires 0 <= k < |s| => s[Origin(l, m, r, k)])
  }

  /** Rotating makes the two stretches change places and leaves everything else alone. */
  lemma RotatedIsExchange<T>(s: seq<T>, l: nat, m: nat, r: nat)
    requires l <= m <= r <= |s|
    ensures Rotated(s, l, m, r) == s[..l] + s[m..r] + s[l..m] + s[r..]
  {
  }

  /** The sequence with the stretches of length n at i and at j exchanged. */
  function Swapped<T>(s: seq<T>, i: nat, j: nat, n: nat): (t: seq<T>)
    requires i + n <= j && j + n <= |s|
    ensures |t| == |s|
  {
    seq(|s|, k requires 0 <= k < |s| => s[SwapOrigin(i, j, n, k)])
  }

  function SwapOrigin(i: nat, j: nat, n: nat, k: nat): nat
    requires i + n <= j
  {
    if i <= k < i + n then k - i + j else if j <= k < j + n then k - j + i else k
  }

  /** Swapping a shorter bottom part with the far end of the top part leaves a smaller exchange to do. */
  lemma SwapFarEnd<T>(s: seq<T>, l: nat, m: nat, r: nat)
    requires l <= m <= r <= |s| && m - l < r - m
    ensures Rotated(s, l, m, r) == Rotated(Swapped(s, l, r - (m - l), m - l), l, m, r - (m - l))
  {
  }

  /** ... and so does swapping a top part that is not longer with the near end of the bottom part. */
  lemma SwapNearEnd<T>(s: seq<T>, l: nat, m: nat, r: nat)
    requires l <= m <= r <= |s| && r - m <= m - l
    ensures Rotated(s, l, m, r) == Rotated(Swapped(s, l, m, r - m), l + (r - m), m, r)
  {
  }

  method SwapStretches<T>(argv: array<T>, i: nat, j: nat, n: nat)
    requires i + n <= j && j + n <= argv.Length
    modifies argv
    ensures argv[..] == Swapped(old(argv[..]), i, j, n)
  {
    ghost var s := argv[..];
    for k := 0 to n
      invariant forall x :: 0 <= x < argv.Length ==> argv[x] == s[SwapOrigin(i, j, k, x)]
    {
      var tem := argv[i + k];
      argv[i + k] := argv[j + k];
      argv[j + k] := tem;
    }
  }

  lemma NothingToRotate<T>(s: seq<T>, l: nat, m: nat, r: nat)
    requires l <= m <= r <= |s| && (l == m || m == r)
    ensures Rotated(s, l, m, r) == s
  {
  }

  /** The exchange by block swaps: the shorter part is put in its place and the rest exchanged further. */
  method BlockSwap<T>(argv: array<T>, first: nat, middle: nat, last: nat)
    requires first <= middle <= last <= argv.Length
    modifies argv
    ensures argv[..] == Rotated(old(argv[..]), first, middle, last)
  {
    hide Rotated, Swapped;
    var bottom, top := first, last;
    while top > middle && middle > bottom
      invariant first <= bottom <= middle <= top <= last
      invariant Rotated(argv[..], bottom, middle, top) == Rotated(old(argv[..]), first, middle, last)
      decreases top - bottom
    {
      if top - middle > middle - bottom {
        var len := middle - bottom;
        SwapFarEnd(argv[..], bottom, middle, top);
        SwapStretches(argv, bottom, top - (middle - bottom), len);
        top := top - len;
      } else {
        var len := top - middle;
        SwapNearEnd(argv[..], bottom, middle, top);
        SwapStretches(argv, bottom, middle, len);
        bottom := bottom + len;
      }
    }
    NothingToRotate(argv[..], bottom, middle, top);
  }
}
