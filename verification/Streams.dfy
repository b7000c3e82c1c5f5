/** Bytes, and readers that hand out a stream in chunks of any size. */
module Streams {

  type byte = n: int | 0 <= n < 256

  datatype Option<+T> = None | Some(value: T)

  /** The bytes of a text in ASCII. */
  function Ascii(text: string): (b: seq<byte>)
    requires forall k :: 0 <= k < |text| ==> text[k] < 128 as char
    ensures |b| == |text| && forall k :: 0 <= k < |text| ==> b[k] as int == text[k] as int
  {
    seq(|text|, k requires 0 <= k < |text| => text[k] as int)
  }

  function Flatten<T>(parts: seq<seq<T>>): seq<T> {
    if parts == [] then [] else parts[0] + Flatten(parts[1..])
  }

  /** Reading a piece splits what is left of a whole input at the end of the piece. */
  lemma SplitAt<T>(all: seq<T>, p: nat, piece: seq<T>, rest: seq<T>)
    requires p <= |all| && all[p..] == piece + rest
    ensures p + |piece| <= |all| && all[p + |piece|..] == rest
    ensures forall k :: 0 <= k < |piece| ==> piece[k] == all[p + k]
  {
  }

  /** An input: the non-empty pieces that the following reads will find, then end of input. */
  class Reader {
    var chunks: seq<seq<byte>>

    constructor (chunks: seq<seq<byte>>)
      requires forall i :: 0 <= i < |chunks| ==> chunks[i] != []
      ensures Valid() && this.chunks == chunks
    {
      this.chunks := chunks;
    }

    ghost predicate Valid()
      reads this
    {
      forall i :: 0 <= i < |chunks| ==> chunks[i] != []
    }

    /** All bytes still to be read. */
    ghost function Rest(): seq<byte>
      reads this
    {
      Flatten(chunks)
    }

    /** Reads into buf[lo..hi]; 0 means end of input.  A piece longer than the room is split. */
    method Read(buf: array<byte>, lo: nat, hi: nat) returns (n: nat)
      requires Valid() && lo < hi <= buf.Length
      modifies this, buf
      ensures Valid() && n <= hi - lo
      ensures n == 0 <==> old(Rest()) == []
      ensures old(Rest()) == buf[lo..lo + n] + Rest()
      ensures buf[..lo] == old(buf[..lo]) && buf[lo + n..] == old(buf[lo + n..])
    {
      if chunks == [] {
        return 0;
      }
      var chunk := chunks[0];
      n := if |chunk| <= hi - lo then |chunk| else hi - lo;
      assert chunk != [] && |chunk[..n]| == n;
      chunks := WithoutFirst(chunks, n);
      Put(buf, lo, chunk[..n]);
    }

    /** The next piece as it comes; empty at end of input. */
    method Next() returns (piece: seq<byte>)
      requires Valid()
      modifies this
      ensures Valid() && old(Rest()) == piece + Rest()
      ensures piece == [] <==> old(Rest()) == []
    {
      if chunks == [] {
        return [];
      }
      piece := chunks[0];
      chunks := chunks[1..];
    }
  }

  /** The pieces that are left when n elements of the first have been taken. */
  function WithoutFirst<T>(chunks: seq<seq<T>>, n: nat): (rest: seq<seq<T>>)
    requires chunks != [] && n <= |chunks[0]|
    ensures Flatten(chunks) == chunks[0][..n] + Flatten(rest)
    ensures (forall i :: 0 <= i < |chunks| ==> chunks[i] != []) ==> forall i :: 0 <= i < |rest| ==> rest[i] != []
  {
    assert chunks[0] == chunks[0][..n] + chunks[0][n..];
    if n == |chunks[0]| then
      assert chunks[0][..n] == chunks[0];
      chunks[1..]
    else
      assert ([chunks[0][n..]] + chunks[1..])[1..] == chunks[1..];
      assert chunks[0][..n] + (chunks[0][n..] + Flatten(chunks[1..])) == chunks[0] + Flatten(chunks[1..]);
      [chunks[0][n..]] + chunks[1..]
  }

  method Put(buf: array<byte>, lo: nat, piece: seq<byte>)
    requires lo + |piece| <= buf.Length
    modifies buf
    ensures buf[lo..lo + |piece|] == piece
    ensures buf[..lo] == old(buf[..lo]) && buf[lo + |piece|..] == old(buf[lo + |piece|..])
  {
    forall k | 0 <= k < |piece| {
      buf[lo + k] := piece[k];
    }
  }
}
