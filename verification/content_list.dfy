/**
 * What `add_content` accepts and how `@content << addition; @content.flatten!`
 * turns it into items: one item, `nil`, or an array of further additions nested
 * to any depth, flattened depth-first from left to right.
 */
module ContentList {

  /** An argument of `add_content`. `Nil` is Ruby's `nil`, which `flatten!` keeps
      as an item of its own. */
  datatype Addition<T> = Piece(item: T) | Nil | Group(parts: seq<Addition<T>>)

  /** The items `[addition].flatten` yields, with `nil` becoming `blank`. */
  function Flatten<T>(a: Addition<T>, blank: T): seq<T>
    decreases a, 1
  {
    match a
    case Piece(x) => [x]
    case Nil => [blank]
    case Group(ps) => FlattenAll(ps, blank)
  }

  /** The items of a list of additions, each flattened, in order. */
  function FlattenAll<T>(ps: seq<Addition<T>>, blank: T): seq<T>
    decreases ps, 0
  {
    if ps == [] then [] else Flatten(ps[0], blank) + FlattenAll(ps[1..], blank)
  }

  /** Flattening a concatenation is concatenating the flattenings: adding two
      lists one after the other, or both in one call, gives the same content. */
  lemma {:induction false} FlattenAllAppend<T>(ps: seq<Addition<T>>, qs: seq<Addition<T>>, blank: T)
    ensures FlattenAll(ps + qs, blank) == FlattenAll(ps, blank) + FlattenAll(qs, blank)
    decreases |ps|
  {
    if ps != [] {
      assert (ps + qs)[0] == ps[0];
      assert (ps + qs)[1..] == ps[1..] + qs;
      FlattenAllAppend(ps[1..], qs, blank);
    } else {
      assert ps + qs == qs;
    }
  }

  /** An array of plain items is added as exactly those items, in order. */
  lemma {:induction false} FlattenPieces<T>(xs: seq<T>, blank: T)
    ensures FlattenAll(seq(|xs|, i requires 0 <= i < |xs| => Piece(xs[i])), blank) == xs
    decreases |xs|
  {
    if xs != [] {
      var ps := seq(|xs|, i requires 0 <= i < |xs| => Piece(xs[i]));
      assert ps[1..] == seq(|xs[1..]|, i requires 0 <= i < |xs[1..]| => Piece(xs[1..][i]));
      FlattenPieces(xs[1..], blank);
      assert [xs[0]] + xs[1..] == xs;
    }
  }
}
