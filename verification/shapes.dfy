/** The shape comparison behind the layout solver: sorting positions,
    mirroring them across a face, and normalising them to their first
    position so that two faces can be compared independent of where the
    pattern sits on each. */
module Shapes {
  import opened Index

  /** `(x, y)` order: by column, then by row. */
  predicate PosLe(a: Pos, b: Pos) {
    a.x < b.x || (a.x == b.x && a.y <= b.y)
  }

  predicate Sorted(s: seq<Pos>) {
    forall i, j :: 0 <= i < j < |s| ==> PosLe(s[i], s[j])
  }

  /** Insert `p` before the first element not below it. */
  function Insert(p: Pos, s: seq<Pos>): (r: seq<Pos>)
    ensures |r| == |s| + 1
    decreases |s|
  {
    if s == [] || PosLe(p, s[0]) then [p] + s
    else [s[0]] + Insert(p, s[1..])
  }

  /** Dropping the head of a sorted list leaves it sorted. */
  lemma SortedTail(s: seq<Pos>)
    requires Sorted(s) && s != []
    ensures Sorted(s[1..])
  {
    forall i, j | 0 <= i < j < |s[1..]| ensures PosLe(s[1..][i], s[1..][j]) {
      assert PosLe(s[i + 1], s[j + 1]);
    }
  }

  /** Inserting into a sorted list keeps it sorted; the new head is `p`
      exactly when `p` is not above the old head. */
  lemma {:induction false} InsertSorted(p: Pos, s: seq<Pos>)
    requires Sorted(s)
    ensures Sorted(Insert(p, s))
    ensures Insert(p, s)[0] == (if s == [] || PosLe(p, s[0]) then p else s[0])
    decreases |s|
  {
    if s != [] && !PosLe(p, s[0]) {
      var rest := Insert(p, s[1..]);
      SortedTail(s);
      InsertSorted(p, s[1..]);
      assert Insert(p, s) == [s[0]] + rest;
      assert PosLe(s[0], rest[0]) by {
        if |s| > 1 { assert PosLe(s[0], s[1]); }
      }
    }
  }

  /** Inserting adds exactly `p` to the elements. */
  lemma {:induction false} InsertMultiset(p: Pos, s: seq<Pos>)
    ensures multiset(Insert(p, s)) == multiset(s) + multiset{p}
    decreases |s|
  {
    if s != [] && !PosLe(p, s[0]) {
      InsertMultiset(p, s[1..]);
      assert s == [s[0]] + s[1..];
    }
  }

  /** The positions sorted by `(x, y)`, as `sort_by` leaves them. */
  function SortPositions(s: seq<Pos>): (r: seq<Pos>)
    ensures |r| == |s|
    decreases |s|
  {
    if s == [] then [] else Insert(s[0], SortPositions(s[1..]))
  }

  /** Sorting yields a sorted permutation of its input. */
  lemma {:induction false} SortPositionsSorts(s: seq<Pos>)
    ensures Sorted(SortPositions(s))
    ensures multiset(SortPositions(s)) == multiset(s)
    decreases |s|
  {
    if s != [] {
      var tail := SortPositions(s[1..]);
      assert SortPositions(s) == Insert(s[0], tail);
      SortPositionsSorts(s[1..]);
      InsertSorted(s[0], tail);
      InsertMultiset(s[0], tail);
      assert multiset(s) == multiset(s[1..]) + multiset{s[0]} by {
        assert s == [s[0]] + s[1..];
      }
    }
  }

  /** Two sorted lists with the same elements start with the same one. */
  lemma SortedSameHead(a: seq<Pos>, b: seq<Pos>)
    requires Sorted(a) && Sorted(b) && a != [] && b != []
    requires multiset(a) == multiset(b)
    ensures a[0] == b[0]
  {
    assert a[0] in b by { assert a[0] in multiset(b); }
    assert b[0] in a by { assert b[0] in multiset(a); }
    var i :| 0 <= i < |b| && b[i] == a[0];
    var j :| 0 <= j < |a| && a[j] == b[0];
    assert PosLe(b[0], a[0]) by { if i > 0 { assert PosLe(b[0], b[i]); } }
    assert PosLe(a[0], b[0]) by { if j > 0 { assert PosLe(a[0], a[j]); } }
  }

  lemma MultisetTail(a: seq<Pos>)
    requires a != []
    ensures multiset(a[1..]) == multiset(a) - multiset{a[0]}
  {
    assert a == [a[0]] + a[1..];
  }

  /** Two sorted lists with the same elements are equal. */
  lemma {:induction false} SortedUnique(a: seq<Pos>, b: seq<Pos>)
    requires Sorted(a) && Sorted(b)
    requires multiset(a) == multiset(b)
    ensures a == b
    decreases |a|
  {
    assert |a| == |multiset(a)| == |multiset(b)| == |b|;
    if a != [] {
      SortedSameHead(a, b);
      MultisetTail(a);
      MultisetTail(b);
      SortedTail(a);
      SortedTail(b);
      SortedUnique(a[1..], b[1..]);
      assert a == [a[0]] + a[1..] && b == [b[0]] + b[1..];
    }
  }

  /** Sorting has one outcome: any sorted arrangement of the same positions,
      stable or not, is `SortPositions`. */
  lemma SortIsUnique(s: seq<Pos>, t: seq<Pos>)
    requires Sorted(t) && multiset(t) == multiset(s)
    ensures t == SortPositions(s)
  {
    SortPositionsSorts(s);
    SortedUnique(t, SortPositions(s));
  }

  /** The list moved by (dx, dy). */
  function Translate(s: seq<Pos>, dx: int, dy: int): (r: seq<Pos>)
    ensures |r| == |s|
  {
    seq(|s|, i requires 0 <= i < |s| => Pos(s[i].x + dx, s[i].y + dy))
  }

  /** Moving shifts every position by exactly (dx, dy), and moving back
      undoes it. */
  lemma TranslateMoves(s: seq<Pos>, dx: int, dy: int)
    ensures forall i :: 0 <= i < |s| ==>
      Translate(s, dx, dy)[i].x - s[i].x == dx && Translate(s, dx, dy)[i].y - s[i].y == dy
    ensures Translate(Translate(s, dx, dy), -dx, -dy) == s
  {
  }

  /** Two moves are one move. */
  lemma TranslateTwice(s: seq<Pos>, dx: int, dy: int, ex: int, ey: int)
    ensures Translate(Translate(s, dx, dy), ex, ey) == Translate(s, dx + ex, dy + ey)
  {
  }

  /** Moving a list keeps it sorted. */
  lemma TranslateSorted(s: seq<Pos>, dx: int, dy: int)
    requires Sorted(s)
    ensures Sorted(Translate(s, dx, dy))
  {
    var t := Translate(s, dx, dy);
    forall i, j | 0 <= i < j < |t| ensures PosLe(t[i], t[j]) {
      assert PosLe(s[i], s[j]);
    }
  }

  /** Moving a list moves its head and its tail. */
  lemma TranslateCons(a: Pos, s: seq<Pos>, dx: int, dy: int)
    ensures Translate([a] + s, dx, dy) == [Pos(a.x + dx, a.y + dy)] + Translate(s, dx, dy)
  {
  }

  /** Insertion commutes with moving. */
  lemma {:induction false} InsertTranslate(p: Pos, s: seq<Pos>, dx: int, dy: int)
    ensures Insert(Pos(p.x + dx, p.y + dy), Translate(s, dx, dy)) == Translate(Insert(p, s), dx, dy)
    decreases |s|
  {
    var q := Pos(p.x + dx, p.y + dy);
    var t := Translate(s, dx, dy);
    if s == [] || PosLe(p, s[0]) {
      assert Insert(q, t) == [q] + t;
      TranslateCons(p, s, dx, dy);
    } else {
      var rest := Insert(p, s[1..]);
      assert s == [s[0]] + s[1..];
      TranslateCons(s[0], s[1..], dx, dy);
      assert Insert(q, t) == [t[0]] + Insert(q, Translate(s[1..], dx, dy));
      InsertTranslate(p, s[1..], dx, dy);
      TranslateCons(s[0], rest, dx, dy);
    }
  }

  /** Sorting commutes with moving. */
  lemma {:induction false} SortTranslate(s: seq<Pos>, dx: int, dy: int)
    ensures SortPositions(Translate(s, dx, dy)) == Translate(SortPositions(s), dx, dy)
    decreases |s|
  {
    if s != [] {
      var t := Translate(s, dx, dy);
      assert t[1..] == Translate(s[1..], dx, dy);
      SortTranslate(s[1..], dx, dy);
      InsertTranslate(s[0], SortPositions(s[1..]), dx, dy);
    }
  }

  /** Subtract the first position from every position. */
  function Normalize(s: seq<Pos>): (r: seq<Pos>)
    requires s != []
    ensures |r| == |s|
    ensures r[0] == Pos(0, 0)
  {
    Translate(s, -s[0].x, -s[0].y)
  }

  /** Normalising loses only the first position: moving back by it
      restores the list. */
  lemma NormalizeRoundTrip(s: seq<Pos>)
    requires s != []
    ensures Translate(Normalize(s), s[0].x, s[0].y) == s
  {
  }

  /** The translation-free shape of a non-empty list of positions: sorted,
      then moved so that its smallest position is the origin. */
  function Shape(s: seq<Pos>): (r: seq<Pos>)
    requires s != []
  {
    Normalize(SortPositions(s))
  }

  /** Where the pattern of a non-empty list starts: its smallest position. */
  function Anchor(s: seq<Pos>): Pos
    requires s != []
  {
    SortPositions(s)[0]
  }

  /** The head of a sorted rearrangement of `s` is a position of `s` at or
      below all others. */
  lemma SortedHeadIsLeast(sorted: seq<Pos>, s: seq<Pos>)
    requires Sorted(sorted) && multiset(sorted) == multiset(s) && s != []
    ensures sorted != [] && sorted[0] in s
    ensures forall i :: 0 <= i < |s| ==> PosLe(sorted[0], s[i])
  {
    assert |sorted| == |s| by { assert |multiset(sorted)| == |multiset(s)|; }
    assert sorted[0] in multiset(s);
    forall i | 0 <= i < |s| ensures PosLe(sorted[0], s[i]) {
      assert s[i] in multiset(sorted);
      var k :| 0 <= k < |sorted| && sorted[k] == s[i];
      if k > 0 { assert PosLe(sorted[0], sorted[k]); }
    }
  }

  /** Normalising a sorted list leaves every position in the half plane
      x >= 0. */
  lemma NormalizedNonNegative(sorted: seq<Pos>)
    requires Sorted(sorted) && sorted != []
    ensures forall i :: 0 <= i < |sorted| ==> Normalize(sorted)[i].x >= 0
  {
    var r := Normalize(sorted);
    TranslateMoves(sorted, -sorted[0].x, -sorted[0].y);
    forall i | 0 <= i < |sorted| ensures r[i].x >= 0 {
      if i > 0 { assert PosLe(sorted[0], sorted[i]); }
    }
  }

  /** The shape keeps the length, starts at the origin, is sorted, lies in
      the half plane x >= 0, and moved back by the anchor — a position of
      the list at or below all others — gives the sorted list. */
  lemma ShapeSpec(s: seq<Pos>)
    requires s != []
    ensures |Shape(s)| == |s| && Shape(s)[0] == Pos(0, 0) && Sorted(Shape(s))
    ensures forall i :: 0 <= i < |s| ==> Shape(s)[i].x >= 0
    ensures Anchor(s) in s && forall i :: 0 <= i < |s| ==> PosLe(Anchor(s), s[i])
    ensures Translate(Shape(s), Anchor(s).x, Anchor(s).y) == SortPositions(s)
  {
    var sorted := SortPositions(s);
    SortPositionsSorts(s);
    TranslateSorted(sorted, -sorted[0].x, -sorted[0].y);
    NormalizeRoundTrip(sorted);
    NormalizedNonNegative(sorted);
    SortedHeadIsLeast(sorted, s);
  }

  /** Comparison is translation-invariant within a face: moving a pattern
      does not change its shape. */
  lemma ShapeTranslationInvariant(s: seq<Pos>, dx: int, dy: int)
    requires s != []
    ensures Shape(Translate(s, dx, dy)) == Shape(s)
  {
    var sorted := SortPositions(s);
    SortTranslate(s, dx, dy);
    var moved := Translate(sorted, dx, dy);
    TranslateTwice(sorted, dx, dy, -moved[0].x, -moved[0].y);
  }

  /** Moving a list moves its anchor by the same amount. */
  lemma AnchorTranslate(s: seq<Pos>, dx: int, dy: int)
    requires s != []
    ensures Anchor(Translate(s, dx, dy)) == Pos(Anchor(s).x + dx, Anchor(s).y + dy)
  {
    SortTranslate(s, dx, dy);
  }

  /** Two lists have the same shape exactly when one, sorted, is the other
      sorted and moved; the move is the difference of their anchors. */
  lemma SameShapeTranslates(a: seq<Pos>, b: seq<Pos>)
    requires a != [] && b != []
    requires Shape(a) == Shape(b)
    ensures Translate(SortPositions(b), Anchor(a).x - Anchor(b).x, Anchor(a).y - Anchor(b).y) == SortPositions(a)
  {
    ShapeSpec(a);
    ShapeSpec(b);
    TranslateTwice(Shape(b), Anchor(b).x, Anchor(b).y, Anchor(a).x - Anchor(b).x, Anchor(a).y - Anchor(b).y);
  }

  lemma TranslatesSameShape(a: seq<Pos>, b: seq<Pos>, dx: int, dy: int)
    requires a != [] && b != []
    requires Translate(SortPositions(b), dx, dy) == SortPositions(a)
    ensures Shape(a) == Shape(b)
  {
    SortTranslate(b, dx, dy);
    ShapeTranslationInvariant(b, dx, dy);
    assert Shape(Translate(b, dx, dy)) == Normalize(SortPositions(a));
  }

  /** Reflect one coordinate inside a face of the given extent. */
  function MirrorCoord(extent: int, v: int): (m: int)
    ensures 0 <= v < extent <==> 0 <= m < extent
    ensures extent - m - 1 == v
  {
    extent - v - 1
  }

  /** Reflect every position of the other room's face: its rows when
      `vertical` (the top and floor pairings), its columns otherwise. */
  function Mirror(s: seq<Pos>, vertical: bool, extent: int): (r: seq<Pos>)
    ensures |r| == |s|
    ensures forall i :: 0 <= i < |s| ==>
      if vertical then r[i].x == s[i].x && r[i].y + s[i].y == extent - 1
      else r[i].y == s[i].y && r[i].x + s[i].x == extent - 1
  {
    seq(|s|, i requires 0 <= i < |s| =>
      if vertical then Pos(s[i].x, MirrorCoord(extent, s[i].y))
      else Pos(MirrorCoord(extent, s[i].x), s[i].y))
  }

  /** Mirroring twice with the same extent gives the list back. */
  lemma MirrorInvolution(s: seq<Pos>, vertical: bool, extent: int)
    ensures Mirror(Mirror(s, vertical, extent), vertical, extent) == s
  {
  }

  /** A position inside a face stays inside it when mirrored, and the other
      coordinate is kept. */
  lemma MirrorInRange(s: seq<Pos>, vertical: bool, extent: int, i: nat)
    requires i < |s|
    ensures vertical ==> (0 <= s[i].y < extent <==> 0 <= Mirror(s, vertical, extent)[i].y < extent)
    ensures !vertical ==> (0 <= s[i].x < extent <==> 0 <= Mirror(s, vertical, extent)[i].x < extent)
    ensures vertical ==> Mirror(s, vertical, extent)[i].x == s[i].x
    ensures !vertical ==> Mirror(s, vertical, extent)[i].y == s[i].y
  {
  }

  /** Mirroring with another extent only moves the result. */
  lemma MirrorExtentShift(s: seq<Pos>, vertical: bool, e1: int, e2: int)
    ensures Mirror(s, vertical, e2) ==
      Translate(Mirror(s, vertical, e1), if vertical then 0 else e2 - e1, if vertical then e2 - e1 else 0)
  {
  }

  /** So the shape of a mirrored face does not depend on the extent used:
      a different extent can only change the offsets, never whether two
      faces match. */
  lemma MirrorShapeIgnoresExtent(s: seq<Pos>, vertical: bool, e1: int, e2: int)
    requires s != []
    ensures Shape(Mirror(s, vertical, e1)) == Shape(Mirror(s, vertical, e2))
  {
    MirrorExtentShift(s, vertical, e1, e2);
    ShapeTranslationInvariant(Mirror(s, vertical, e1), if vertical then 0 else e2 - e1, if vertical then e2 - e1 else 0);
  }
}
