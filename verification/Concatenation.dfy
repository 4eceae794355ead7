/** Sequences put together from the pieces that the items of a list contribute. */
module Concatenation {

  lemma Assoc<T>(x: seq<T>, y: seq<T>, z: seq<T>)
    ensures (x + y) + z == x + (y + z)
  {
  }

  /** The pieces of the first `n` items, in order. */
  function Concat<T, E>(piece: T -> seq<E>, items: seq<T>, n: nat): seq<E>
    requires n <= |items|
  {
    if n == 0 then [] else Concat(piece, items, n - 1) + piece(items[n - 1])
  }

  lemma {:induction false} ConcatPrefix<T, E>(piece: T -> seq<E>, a: seq<T>, b: seq<T>, n: nat)
    requires n <= |a|
    ensures Concat(piece, a + b, n) == Concat(piece, a, n)
  {
    if n > 0 {
      ConcatPrefix(piece, a, b, n - 1);
    }
  }

  lemma {:induction false} ConcatAppend<T, E>(piece: T -> seq<E>, a: seq<T>, b: seq<T>, n: nat)
    requires n <= |b|
    ensures Concat(piece, a + b, |a| + n) == Concat(piece, a, |a|) + Concat(piece, b, n)
  {
    if n == 0 {
      ConcatPrefix(piece, a, b, |a|);
    } else {
      ConcatAppend(piece, a, b, n - 1);
      Assoc(Concat(piece, a, |a|), Concat(piece, b, n - 1), piece(b[n - 1]));
    }
  }

  lemma {:induction false} ConcatMember<T, E>(piece: T -> seq<E>, items: seq<T>, n: nat, i: nat)
    requires i < n <= |items|
    ensures forall e :: e in piece(items[i]) ==> e in Concat(piece, items, n)
  {
    if i < n - 1 {
      ConcatMember(piece, items, n - 1, i);
    }
  }

  /** The piece of item `i` stands behind those of the items before it. */
  lemma {:induction false} PieceWithin<T, E>(piece: T -> seq<E>, items: seq<T>, n: nat, i: nat)
    requires i < n <= |items|
    ensures Concat(piece, items, i + 1) <= Concat(piece, items, n)
    ensures var p := |Concat(piece, items, i)|; var q := |Concat(piece, items, i + 1)|;
      q == p + |piece(items[i])| && Concat(piece, items, n)[p..q] == piece(items[i])
  {
    if i < n - 1 {
      PieceWithin(piece, items, n - 1, i);
    }
  }
}
