/** `stripCoords`: cut every position of a coordinate array of any depth to its
    first two ordinates, keeping every enclosing array's length and order. */
module Strip {
  import opened GeoJson

  /** `position.slice(0, 2)`: the first two ordinates, or all of them when there
      are fewer. */
  function Slice2(p: Position): (q: Position)
    ensures |q| <= 2 && |q| <= |p| && q == p[..|q|]
    ensures |p| >= 2 ==> |q| == 2
    ensures |p| <= 2 ==> q == p
  {
    if |p| <= 2 then p else p[..2]
  }

  /** The leaf test of the source: the array's first element is a number. An
      empty array fails it. */
  predicate FirstIsNumber(c: Coords) {
    c.Leaf? && |c.position| > 0
  }

  /** `stripCoords` (src/index.ts:131-137). A leaf is cut with `slice(0, 2)`;
      any other array is mapped element by element. The empty array, mapped
      over no elements, comes back as it was. */
  function StripCoords(c: Coords): Coords {
    if FirstIsNumber(c) then Leaf(Slice2(c.position))
    else match c
      case Leaf(_) => c
      case Node(cs) => Node(seq(|cs|, i requires 0 <= i < |cs| => StripCoords(cs[i])))
  }

  /** Every position of a coordinate array, in document order. */
  function Positions(c: Coords): seq<Position> {
    match c
    case Leaf(p) => [p]
    case Node(cs) => PositionsOf(cs)
  }

  /** The positions of a sequence of coordinate arrays, one after the other. */
  function PositionsOf(cs: seq<Coords>): seq<Position> {
    if cs == [] then [] else Positions(cs[0]) + PositionsOf(cs[1..])
  }

  /** Each position of `ps` cut to its first two ordinates, in the same order. */
  function Truncated(ps: seq<Position>): (qs: seq<Position>)
    ensures |qs| == |ps|
  {
    seq(|ps|, i requires 0 <= i < |ps| => Slice2(ps[i]))
  }

  /** No position has more than two ordinates. */
  predicate AtMost2D(ps: seq<Position>) {
    forall p | p in ps :: |p| <= 2
  }

  /** Every position has at least two ordinates (a 2D or 3D input). */
  predicate AtLeast2D(ps: seq<Position>) {
    forall p | p in ps :: |p| >= 2
  }

  /** Every position has exactly two ordinates. */
  predicate Exactly2D(ps: seq<Position>) {
    forall p | p in ps :: |p| == 2
  }

  /** The two arrays have the same nesting: a position where the other has a
      position, and arrays of equal length, element by element, elsewhere. */
  predicate SameSkeleton(a: Coords, b: Coords) {
    match a
    case Leaf(_) => b.Leaf?
    case Node(xs) =>
      b.Node? && |xs| == |b.children| &&
      forall i | 0 <= i < |xs| :: SameSkeleton(xs[i], b.children[i])
  }

  // Facts about truncation of a list of positions.

  lemma TruncatedConcat(a: seq<Position>, b: seq<Position>)
    ensures Truncated(a + b) == Truncated(a) + Truncated(b)
  {
  }

  /** After truncation no position has more than two ordinates, and a list of
      2D or 3D positions becomes a list of 2D positions. */
  lemma TruncatedIsPlanar(ps: seq<Position>)
    ensures AtMost2D(Truncated(ps))
    ensures AtLeast2D(ps) ==> Exactly2D(Truncated(ps))
  {
  }

  /** Both halves of a list of positions with at most two ordinates each have
      at most two ordinates each. */
  lemma AtMost2DSplit(ps: seq<Position>, qs: seq<Position>)
    requires AtMost2D(ps + qs)
    ensures AtMost2D(ps) && AtMost2D(qs)
  {
  }

  // The positions of the stripped array are the truncated positions.

  /** Stripping cuts every position, in order, to its first two ordinates: the
      positions of the result are exactly the truncated positions of the input. */
  lemma {:induction false} StripCoordsPositions(c: Coords)
    ensures Positions(StripCoords(c)) == Truncated(Positions(c))
  {
    match c
    case Leaf(p) =>
    case Node(cs) =>
      StripEachPositions(cs);
  }

  lemma {:induction false} StripEachPositions(cs: seq<Coords>)
    ensures PositionsOf(seq(|cs|, i requires 0 <= i < |cs| => StripCoords(cs[i])))
         == Truncated(PositionsOf(cs))
  {
    var ss := seq(|cs|, i requires 0 <= i < |cs| => StripCoords(cs[i]));
    if cs != [] {
      var rest := seq(|cs[1..]|, i requires 0 <= i < |cs[1..]| => StripCoords(cs[1..][i]));
      assert ss[1..] == rest;
      StripCoordsPositions(cs[0]);
      StripEachPositions(cs[1..]);
      TruncatedConcat(Positions(cs[0]), PositionsOf(cs[1..]));
    }
  }

  /** Stripping keeps the nesting: every enclosing array keeps its length, and a
      position stays a position. */
  lemma {:induction false} StripCoordsSkeleton(c: Coords)
    ensures SameSkeleton(c, StripCoords(c))
  {
    match c
    case Leaf(_) =>
    case Node(cs) =>
      forall i | 0 <= i < |cs| ensures SameSkeleton(cs[i], StripCoords(c).children[i]) {
        StripCoordsSkeleton(cs[i]);
      }
  }

  /** After stripping, no position has more than two ordinates; when every input
      position had two or three, every output position has exactly two. */
  lemma StripCoordsPlanar(c: Coords)
    ensures AtMost2D(Positions(StripCoords(c)))
    ensures AtLeast2D(Positions(c)) ==> Exactly2D(Positions(StripCoords(c)))
  {
    StripCoordsPositions(c);
    TruncatedIsPlanar(Positions(c));
  }

  /** Every position of a child array is a position of the parent list. */
  lemma {:induction false} PositionsOfChild(cs: seq<Coords>, i: nat)
    requires i < |cs|
    ensures forall p | p in Positions(cs[i]) :: p in PositionsOf(cs)
  {
    if i > 0 {
      PositionsOfChild(cs[1..], i - 1);
      assert cs[1..][i - 1] == cs[i];
    }
  }

  /** An array whose positions are already 2D is left unchanged. */
  lemma {:induction false} StripCoordsPlanarUnchanged(c: Coords)
    requires AtMost2D(Positions(c))
    ensures StripCoords(c) == c
  {
    match c
    case Leaf(p) =>
      assert p in Positions(c);
    case Node(cs) =>
      forall i | 0 <= i < |cs| ensures StripCoords(cs[i]) == cs[i] {
        PositionsOfChild(cs, i);
        StripCoordsPlanarUnchanged(cs[i]);
      }
  }

  /** Stripping is idempotent. */
  lemma {:induction false} StripCoordsIdempotent(c: Coords)
    ensures StripCoords(StripCoords(c)) == StripCoords(c)
  {
    StripCoordsPlanar(c);
    StripCoordsPlanarUnchanged(StripCoords(c));
  }

  // The two facts above determine the stripped array completely.

  /** Arrays of the same nesting have the same number of positions. */
  lemma {:induction false} SkeletonPositionCount(a: Coords, b: Coords)
    requires SameSkeleton(a, b)
    ensures |Positions(a)| == |Positions(b)|
  {
    match a
    case Leaf(_) =>
    case Node(xs) =>
      SkeletonPositionCountOf(xs, b.children);
  }

  lemma {:induction false} SkeletonPositionCountOf(xs: seq<Coords>, ys: seq<Coords>)
    requires |xs| == |ys|
    requires forall i | 0 <= i < |xs| :: SameSkeleton(xs[i], ys[i])
    ensures |PositionsOf(xs)| == |PositionsOf(ys)|
  {
    if xs != [] {
      SkeletonPositionCount(xs[0], ys[0]);
      SkeletonPositionCountOf(xs[1..], ys[1..]);
    }
  }

  /** Any array with the input's nesting whose positions are the input's
      positions cut to two ordinates is the stripped array: keeping the nesting
      and truncating the positions in order is all that stripping does. */
  lemma {:induction false} StripCoordsUnique(c: Coords, r: Coords)
    requires SameSkeleton(c, r)
    requires Positions(r) == Truncated(Positions(c))
    ensures r == StripCoords(c)
  {
    match c
    case Leaf(p) =>
      assert [r.position] == Positions(r) == Truncated([p]);
      assert Truncated([p])[0] == Slice2(p);
    case Node(xs) =>
      var ys := r.children;
      StripEachUnique(xs, ys);
  }

  lemma {:induction false} StripEachUnique(xs: seq<Coords>, ys: seq<Coords>)
    requires |xs| == |ys|
    requires forall i | 0 <= i < |xs| :: SameSkeleton(xs[i], ys[i])
    requires PositionsOf(ys) == Truncated(PositionsOf(xs))
    ensures forall i | 0 <= i < |xs| :: ys[i] == StripCoords(xs[i])
  {
    if xs != [] {
      SkeletonPositionCount(xs[0], ys[0]);
      TruncatedConcat(Positions(xs[0]), PositionsOf(xs[1..]));
      var n := |Positions(xs[0])|;
      assert PositionsOf(ys) == Positions(ys[0]) + PositionsOf(ys[1..]);
      assert Truncated(PositionsOf(xs)) == Truncated(Positions(xs[0])) + Truncated(PositionsOf(xs[1..]));
      assert Positions(ys[0]) == PositionsOf(ys)[..n];
      assert PositionsOf(ys[1..]) == PositionsOf(ys)[n..];
      StripCoordsUnique(xs[0], ys[0]);
      StripEachUnique(xs[1..], ys[1..]);
      forall i | 0 <= i < |xs| ensures ys[i] == StripCoords(xs[i]) {
        if i > 0 {
          assert ys[1..][i - 1] == ys[i] && xs[1..][i - 1] == xs[i];
        }
      }
    }
  }
}
