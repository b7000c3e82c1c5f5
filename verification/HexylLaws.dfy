/** Which rows a hex dump may consist of, said of the rows alone. */
module HexylLaws {
  import opened Streams
  import opened Hexyl

  /** Only one byte value, throughout. */
  predicate Uniform(d: seq<byte>) {
    forall i, j :: 0 <= i < j < |d| ==> d[i] == d[j]
  }

  /** What may follow the row of data d that ends before offset `end`.  Only whole rows are followed, by a row that
      is not empty and does not repeat a uniform one, or, if that is squeezed, by a star; then by a row at least one
      row further on that differs, or is cut short, even to nothing. */
  predicate Follows(w: nat, squeeze: bool, end: nat, d: seq<byte>, rows: seq<Row>)
    decreases |rows|
  {
    rows != [] ==>
      && |d| == w
      && match rows[0]
         case Bytes(offset, d') =>
           && offset == end && 0 < |d'| <= w && !(squeeze && Uniform(d) && d' == d)
           && Follows(w, squeeze, offset + w, d', rows[1..])
         case Star => squeeze && Uniform(d) && FollowsStar(w, squeeze, end + w, d, rows[1..])
         case NoContent => false
  }

  /** What may follow the star behind data d. */
  predicate FollowsStar(w: nat, squeeze: bool, least: nat, d: seq<byte>, rows: seq<Row>)
    decreases |rows|
  {
    && rows != [] && rows[0].Bytes? && rows[0].offset >= least && |rows[0].data| <= w && rows[0].data != d
    && Follows(w, squeeze, rows[0].offset + w, rows[0].data, rows[1..])
  }

  /** A dump: the notice that there is nothing, or rows from the given offset on. */
  predicate Canonical(w: nat, squeeze: bool, from: nat, rows: seq<Row>) {
    || rows == [NoContent]
    || (rows != [] && rows[0].Bytes? && rows[0].offset == from && 0 < |rows[0].data| <= w
        && Follows(w, squeeze, from + w, rows[0].data, rows[1..]))
  }

  lemma UniformRow(input: seq<byte>, w: nat, squeeze: bool, p: nat)
    requires w > 0 && w <= p && p + w <= |input|
    ensures Squeezed(input, w, squeeze, p) <==>
      squeeze && Uniform(input[p - w..p]) && input[p..p + w] == input[p - w..p]
  {
    var d, d' := input[p - w..p], input[p..p + w];
    if Squeezed(input, w, squeeze, p) {
      assert forall k :: 0 <= k < w ==> d[k] == input[p - w + k] == input[p - w] && d'[k] == input[p + k];
    }
    if squeeze && Uniform(d) && d' == d {
      forall i | p - w <= i < p + w
        ensures input[i] == input[p - w]
      {
        assert i < p ==> input[i] == d[i - (p - w)];
        assert i >= p ==> input[i] == d'[i - p];
      }
    }
  }

  /** The rows from p on follow the row before p, or its star. */
  predicate After(input: seq<byte>, w: nat, squeeze: bool, from: nat, p: nat, rows: seq<Row>)
    requires 0 < w <= p <= |input|
  {
    if w <= p - w && Squeezed(input, w, squeeze, p - w) then FollowsStar(w, squeeze, from + p, input[p - w..p], rows)
    else Follows(w, squeeze, from + p, input[p - w..p], rows)
  }

  lemma {:induction false} RowsFollow(input: seq<byte>, w: nat, squeeze: bool, from: nat, p: nat)
    requires 0 < w <= p <= |input|
    ensures After(input, w, squeeze, from, p, RowsFrom(input, w, squeeze, from, p))
    decreases |input| - p
  {
    hide Squeezed, Follows, FollowsStar, After;
    if |input| < p + w {
      EndingFollows(input, w, squeeze, from, p);
    } else {
      RowsFollow(input, w, squeeze, from, p + w);
      RowAtFollows(input, w, squeeze, from, p, RowsFrom(input, w, squeeze, from, p + w));
    }
  }

  lemma EndingFollows(input: seq<byte>, w: nat, squeeze: bool, from: nat, p: nat)
    requires 0 < w <= p <= |input| < p + w
    ensures After(input, w, squeeze, from, p, Ending(input, w, squeeze, from, p))
  {
    hide Squeezed, Follows, FollowsStar;
    NotSqueezedFirst(input, w, squeeze, p - w);
    LastFollows(w, squeeze, from + p, input[p - w..p], input[p..]);
  }

  lemma RowAtFollows(input: seq<byte>, w: nat, squeeze: bool, from: nat, p: nat, rest: seq<Row>)
    requires 0 < w <= p && p + w <= |input| && After(input, w, squeeze, from, p + w, rest)
    ensures After(input, w, squeeze, from, p, RowAt(input, w, squeeze, from, p) + rest)
  {
    hide Squeezed, Follows, FollowsStar, Uniform;
    var d, d' := input[p - w..p], input[p..p + w];
    NotSqueezedFirst(input, w, squeeze, p - w);
    UniformRow(input, w, squeeze, p);
    UniformBefore(input, w, squeeze, p - w);
    assert [] + rest == rest && input[p + w - w..p + w] == d';
    if !Squeezed(input, w, squeeze, p) {
      RowFollows(w, squeeze, from + p, d, d', rest);
    } else if Squeezed(input, w, squeeze, p - w) {
      FollowsLater(w, squeeze, from + p, from + p + w, d, rest);
    } else {
      StarFollows(w, squeeze, from + p, d, rest);
    }
  }

  lemma FollowsLater(w: nat, squeeze: bool, least: nat, least': nat, d: seq<byte>, rows: seq<Row>)
    requires least <= least' && FollowsStar(w, squeeze, least', d, rows)
    ensures FollowsStar(w, squeeze, least, d, rows)
  {
  }

  lemma UniformBefore(input: seq<byte>, w: nat, squeeze: bool, p: nat)
    requires w > 0 && p + w <= |input|
    ensures Squeezed(input, w, squeeze, p) ==> squeeze && Uniform(input[p..p + w])
  {
    var d := input[p..p + w];
    assert forall k :: 0 <= k < w ==> d[k] == input[p + k];
  }

  lemma LastFollows(w: nat, squeeze: bool, end: nat, d: seq<byte>, last: seq<byte>)
    requires |d| == w && |last| < w
    ensures Follows(w, squeeze, end, d, [])
    ensures last != [] ==> Follows(w, squeeze, end, d, [Bytes(end, last)])
    ensures FollowsStar(w, squeeze, end, d, [Bytes(end, last)])
  {
  }

  lemma StarFollows(w: nat, squeeze: bool, end: nat, d: seq<byte>, rest: seq<Row>)
    requires squeeze && |d| == w && Uniform(d) && FollowsStar(w, squeeze, end + w, d, rest)
    ensures Follows(w, squeeze, end, d, [Star] + rest)
  {
  }

  lemma RowFollows(w: nat, squeeze: bool, end: nat, d: seq<byte>, d': seq<byte>, rest: seq<Row>)
    requires w > 0 && |d| == |d'| == w && Follows(w, squeeze, end + w, d', rest)
    requires !(squeeze && Uniform(d) && d' == d)
    ensures Follows(w, squeeze, end, d, [Bytes(end, d')] + rest)
    ensures d' != d ==> FollowsStar(w, squeeze, end, d, [Bytes(end, d')] + rest)
  {
  }

  /** Every dump is canonical: offsets go on row by row; a star stands only for repetitions of a uniform row and
      is never last; no row repeats a uniform one; and only behind a star is the end shown by an offset alone. */
  lemma DumpIsCanonical(input: seq<byte>, w: nat, squeeze: bool, from: nat)
    requires w > 0
    ensures Canonical(w, squeeze, from, Rows(input, w, squeeze, from))
    ensures Rows(input, w, squeeze, from) == [NoContent] <==> input == []
  {
    hide Follows, FollowsStar, Squeezed;
    NotSqueezedFirst(input, w, squeeze, 0);
    if 0 < |input| < w {
      FollowsNothing(w, squeeze, from + w, input);
      assert input[0..] == input && [Bytes(from, input)][1..] == [];
    } else if input != [] {
      RowsFollow(input, w, squeeze, from, w);
      var first, rest := input[0..w], RowsFrom(input, w, squeeze, from, w);
      assert input[w - w..w] == first;
      assert RowAt(input, w, squeeze, from, 0) == [Bytes(from, first)];
      assert ([Bytes(from, first)] + rest)[1..] == rest && ([Bytes(from, first)] + rest)[0].Bytes?;
    }
  }

  lemma FollowsNothing(w: nat, squeeze: bool, end: nat, d: seq<byte>)
    ensures Follows(w, squeeze, end, d, [])
  {
  }

  lemma NotSqueezedFirst(input: seq<byte>, w: nat, squeeze: bool, p: nat)
    requires w > 0
    ensures p < w ==> !Squeezed(input, w, squeeze, p)
  {
  }
}
