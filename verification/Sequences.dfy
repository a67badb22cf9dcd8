/** Concatenation of a list of lists, and where each piece starts in it. */
module Sequences {

  function Flatten<T>(xss: seq<seq<T>>): seq<T> {
    if xss == [] then [] else xss[0] + Flatten(xss[1..])
  }

  // Offset of piece k in the concatenation.
  function Boundary<T>(xss: seq<seq<T>>, k: nat): nat
    requires k <= |xss|
  {
    |Flatten(xss[..k])|
  }

  lemma {:induction false} FlattenAppend<T>(xss: seq<seq<T>>, yss: seq<seq<T>>)
    ensures Flatten(xss + yss) == Flatten(xss) + Flatten(yss)
  {
    if xss == [] {
      assert xss + yss == yss;
    } else {
      assert (xss + yss)[1..] == xss[1..] + yss;
      FlattenAppend(xss[1..], yss);
    }
  }

  lemma FlattenOne<T>(xs: seq<T>)
    ensures Flatten([xs]) == xs
  {
    assert [xs][1..] == [];
  }

  lemma FlattenSnoc<T>(xss: seq<seq<T>>, xs: seq<T>)
    ensures Flatten(xss + [xs]) == Flatten(xss) + xs
  {
    FlattenAppend(xss, [xs]);
    FlattenOne(xs);
  }

  // Piece k occupies exactly the bytes between two consecutive boundaries.
  lemma PieceAt<T>(xss: seq<seq<T>>, k: nat)
    requires k < |xss|
    ensures Boundary(xss, k + 1) == Boundary(xss, k) + |xss[k]| <= |Flatten(xss)|
    ensures Flatten(xss)[Boundary(xss, k)..Boundary(xss, k + 1)] == xss[k]
  {
    var a, b := xss[..k], xss[k + 1..];
    assert xss[..k + 1] == a + [xss[k]];
    FlattenSnoc(a, xss[k]);
    assert xss == xss[..k + 1] + b;
    FlattenAppend(xss[..k + 1], b);
  }

  lemma BoundaryEnds<T>(xss: seq<seq<T>>)
    ensures Boundary(xss, 0) == 0
    ensures Boundary(xss, |xss|) == |Flatten(xss)|
  {
    assert xss[..|xss|] == xss;
  }

  // The tail of the concatenation from a boundary on is the concatenation of the remaining pieces.
  lemma TailAt<T>(xss: seq<seq<T>>, k: nat)
    requires k <= |xss|
    ensures Boundary(xss, k) <= |Flatten(xss)|
    ensures Flatten(xss)[Boundary(xss, k)..] == Flatten(xss[k..])
  {
    assert xss == xss[..k] + xss[k..];
    FlattenAppend(xss[..k], xss[k..]);
  }

  lemma SliceWidth<T>(xss: seq<seq<T>>, i: nat, j: nat)
    requires i <= j <= |xss|
    ensures |Flatten(xss[i..j])| == Boundary(xss, j) - Boundary(xss, i)
  {
    assert xss[..j] == xss[..i] + xss[i..j];
    FlattenAppend(xss[..i], xss[i..j]);
  }
}
