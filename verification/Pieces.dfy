/** Sequences cut into pieces of one size. */
module Pieces {
  import opened Bytes
  import opened Geometry

  /** The k-th piece of `size` bytes */
  function PieceAt(d: seq<byte>, size: nat, k: nat): (r: seq<byte>)
    requires Times(k, size) + size <= |d|
    ensures |r| == size
  {
    d[Times(k, size)..Times(k, size) + size]
  }

  lemma PieceFits(n: nat, size: nat, k: nat)
    requires k < n
    ensures Times(k, size) + size <= Times(n, size)
  {
    TimesMono(k + 1, n, size);
  }

  /** The pieces after the first are those of the rest. */
  lemma PieceOfRest(d: seq<byte>, size: nat, k: nat)
    requires k > 0 && Times(k, size) + size <= |d|
    ensures Times(k - 1, size) + size <= |d[size..]| && PieceAt(d[size..], size, k - 1) == PieceAt(d, size, k)
  {
  }

  lemma PieceOfJoin(first: seq<byte>, rest: seq<byte>, size: nat, k: nat)
    requires |first| == size && Times(k, size) + size <= |first + rest|
    ensures k == 0 ==> PieceAt(first + rest, size, k) == first
    ensures k > 0 ==> Times(k - 1, size) + size <= |rest| && PieceAt(first + rest, size, k) == PieceAt(rest, size, k - 1)
  {
    if k > 0 {
      PieceOfRest(first + rest, size, k);
      assert (first + rest)[size..] == rest;
    }
  }

  /** The j-th piece of a sequence, which has one */
  ghost predicate IsPiece(all: seq<byte>, size: nat, j: nat, piece: seq<byte>) {
    Times(j, size) + size <= |all| && PieceAt(all, size, j) == piece
  }

  lemma FirstPiece(first: seq<byte>, rest: seq<byte>, size: nat)
    requires |first| == size
    ensures IsPiece(first + rest, size, 0, first)
  {
    PieceOfJoin(first, rest, size, 0);
  }

  lemma LaterPiece(first: seq<byte>, rest: seq<byte>, size: nat, j: nat, piece: seq<byte>)
    requires |first| == size && j > 0 && IsPiece(rest, size, j - 1, piece)
    ensures IsPiece(first + rest, size, j, piece)
  {
    PieceOfJoin(first, rest, size, j);
  }
}
