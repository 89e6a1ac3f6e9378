/** The layout solver: rooms are placed next to each other wherever a
    symbol's pattern on a face of one room, mirrored, has the same shape as
    that symbol's pattern on the opposite face of an earlier room. */
module Layout {
  import opened Wrappers
  import opened Net
  import opened Index
  import opened Shapes

  /** A face of the current room, the face of the other room it must touch,
      and the direction in which the current room then lies (exactly one
      multiplier is non-zero). */
  datatype Pairing = Pairing(mine: Face, theirs: Face, xMul: int, yMul: int, zMul: int)

  /** The pairings, in the order the solver tries them. */
  const Pairings: seq<Pairing> := [
    Pairing(Left, Right, 1, 0, 0),
    Pairing(Right, Left, -1, 0, 0),
    Pairing(Top, Floor, 0, -1, 0),
    Pairing(Floor, Top, 0, 1, 0),
    Pairing(Front, Back, 0, 0, -1),
    Pairing(Back, Front, 0, 0, 1)
  ]

  function Abs(n: int): nat {
    if n < 0 then -n else n
  }

  /** The extent the other room's face is mirrored in: its depth for the
      left/right pairings, its width for front/back, its height for
      top/floor (the mirror then reflects rows rather than columns). */
  function MirrorExtent(p: Pairing, other: Room): int {
    if p.yMul == 0 then other.depth * Abs(p.xMul) + other.width * Abs(p.zMul)
    else other.height * Abs(p.yMul)
  }

  /** The other room's positions, mirrored for comparison. */
  function Mirrored(p: Pairing, other: Room, theirs: seq<Pos>): seq<Pos> {
    Mirror(theirs, p.yMul != 0, MirrorExtent(p, other))
  }

  /** The two faces carry the same pattern once the other's is mirrored. */
  predicate Matches(mine: seq<Pos>, theirs: seq<Pos>, p: Pairing, other: Room)
    requires mine != [] && theirs != []
  {
    Shape(mine) == Shape(Mirrored(p, other, theirs))
  }

  /** How far the current pattern sits from the mirrored other pattern
      within the touching faces. */
  function Offset(mine: seq<Pos>, theirs: seq<Pos>, p: Pairing, other: Room): Pos
    requires mine != [] && theirs != []
  {
    var a := Anchor(mine);
    var b := Anchor(Mirrored(p, other, theirs));
    Pos(a.x - b.x, a.y - b.y)
  }

  /** The current room moved next to the other one: centred against it
      along the pairing's axis, then shifted in the plane of the touching
      faces by the pattern offset. */
  function Placed(cur: Room, oth: Room, p: Pairing, off: Pos): (r: Room)
    ensures r.SameShape(cur)
  {
    var xfo, yfo := off.x as real, off.y as real;
    var x0 := oth.x + (cur.width as real / 2.0 + oth.width as real / 2.0) * p.xMul as real;
    var y0 := oth.y + (cur.height as real / 2.0 + oth.height as real / 2.0) * p.yMul as real;
    var z0 := oth.z + (cur.depth as real / 2.0 + oth.depth as real / 2.0) * p.zMul as real;
    var (x1, y1, z1) := if p.xMul != 0 then (x0, y0 + yfo, z0 + xfo) else (x0, y0, z0);
    var (x2, y2, z2) := if p.yMul != 0 then (x1 - xfo, y1, z1 - yfo) else (x1, y1, z1);
    var (x3, y3, z3) := if p.zMul != 0 then (x2 + xfo, y2 + yfo, z2) else (x2, y2, z2);
    cur.(x := x3, y := y3, z := z3)
  }

  /** `a` touches `b` on the side the pairing names: along the pairing's
      axis their centres are half their summed extents apart. */
  predicate Flush(a: Room, b: Room, p: Pairing) {
    && (p.xMul != 0 ==> a.x - b.x == p.xMul as real * (a.width + b.width) as real / 2.0)
    && (p.yMul != 0 ==> a.y - b.y == p.yMul as real * (a.height + b.height) as real / 2.0)
    && (p.zMul != 0 ==> a.z - b.z == p.zMul as real * (a.depth + b.depth) as real / 2.0)
  }

  /** Across the touching faces, `a` is shifted from `b` by the pattern
      offset: (z, y) for left/right, (-x, -z) for top/floor, (x, y) for
      front/back. */
  predicate Aligned(a: Room, b: Room, p: Pairing, off: Pos) {
    && (p.xMul != 0 ==> a.z - b.z == off.x as real && a.y - b.y == off.y as real)
    && (p.yMul != 0 ==> a.x - b.x == -off.x as real && a.z - b.z == -off.y as real)
    && (p.zMul != 0 ==> a.x - b.x == off.x as real && a.y - b.y == off.y as real)
  }

  /** Placing keeps the room's size and faces, puts it flush against the
      other room and aligns the two patterns. */
  lemma PlacedSpec(cur: Room, oth: Room, p: Pairing, off: Pos)
    requires p in Pairings
    ensures Placed(cur, oth, p, off).SameShape(cur)
    ensures Flush(Placed(cur, oth, p, off), oth, p)
    ensures Aligned(Placed(cur, oth, p, off), oth, p, off)
  {
  }

  /** The mirror extents per pairing; for left/right and front/back it is
      the other face's width in the net, so mirrored columns stay on the
      face. For top/floor it is the other room's height, while the face has
      `depth` rows. */
  lemma MirrorExtentOfPairing(p: Pairing, other: Room)
    requires p in Pairings
    ensures p.mine in {Left, Right} ==> MirrorExtent(p, other) == other.depth == other.Window(p.theirs).wdt
    ensures p.mine in {Front, Back} ==> MirrorExtent(p, other) == other.width == other.Window(p.theirs).wdt
    ensures p.mine in {Top, Floor} ==> MirrorExtent(p, other) == other.height && other.Window(p.theirs).hgt == other.depth
  {
  }

  /** Whether two faces match does not depend on the mirror extent; a
      top/floor extent of `depth` instead of `height` would move the
      other pattern's anchor by exactly depth − height rows. */
  lemma MatchIgnoresExtent(mine: seq<Pos>, theirs: seq<Pos>, p: Pairing, other: Room, extent: int)
    requires mine != [] && theirs != []
    ensures Matches(mine, theirs, p, other) <==> Shape(mine) == Shape(Mirror(theirs, p.yMul != 0, extent))
    ensures p.yMul != 0 ==>
      Anchor(Mirror(theirs, true, extent)) ==
        Pos(Anchor(Mirrored(p, other, theirs)).x, Anchor(Mirrored(p, other, theirs)).y + extent - MirrorExtent(p, other))
  {
    var e := MirrorExtent(p, other);
    MirrorShapeIgnoresExtent(theirs, p.yMul != 0, e, extent);
    if p.yMul != 0 {
      MirrorExtentShift(theirs, true, e, extent);
      AnchorTranslate(Mirror(theirs, true, e), 0, extent - e);
    }
  }

  /** On a match the offset moves the mirrored other pattern exactly onto
      the current one. */
  lemma MatchOffsetMoves(mine: seq<Pos>, theirs: seq<Pos>, p: Pairing, other: Room)
    requires mine != [] && theirs != []
    requires Matches(mine, theirs, p, other)
    ensures var off := Offset(mine, theirs, p, other);
      Translate(SortPositions(Mirrored(p, other, theirs)), off.x, off.y) == SortPositions(mine)
  {
    var m := Mirrored(p, other, theirs);
    assert m != [];
    SameShapeTranslates(mine, m);
  }

  /** Conversely any move of the mirrored other pattern onto the current one
      means the faces match. */
  lemma MoveMeansMatch(mine: seq<Pos>, theirs: seq<Pos>, p: Pairing, other: Room, dx: int, dy: int)
    requires mine != [] && theirs != []
    requires Translate(SortPositions(Mirrored(p, other, theirs)), dx, dy) == SortPositions(mine)
    ensures Matches(mine, theirs, p, other)
  {
    var m := Mirrored(p, other, theirs);
    assert m != [];
    TranslatesSameShape(mine, m, dx, dy);
  }

  /** Try to place room `c` against room `o` with their lists for one symbol. */
  function TryMatch(rooms: seq<Room>, c: nat, o: nat, p: Pairing, mine: seq<Pos>, theirs: seq<Pos>): (r: seq<Room>)
    requires c < |rooms| && o < |rooms|
    requires mine != [] && theirs != []
    ensures |r| == |rooms|
    ensures forall i :: 0 <= i < |r| && i != c ==> r[i] == rooms[i]
    ensures r[c].SameShape(rooms[c])
    ensures !Matches(mine, theirs, p, rooms[o]) ==> r == rooms
    ensures Matches(mine, theirs, p, rooms[o]) && p in Pairings && o != c ==>
      Flush(r[c], r[o], p) && Aligned(r[c], r[o], p, Offset(mine, theirs, p, rooms[o]))
  {
    if Matches(mine, theirs, p, rooms[o]) then
      var off := Offset(mine, theirs, p, rooms[o]);
      PlacedSpecIf(rooms[c], rooms[o], p, off);
      rooms[c := Placed(rooms[c], rooms[o], p, off)]
    else rooms
  }

  /** A match of the current room's left face with the other room's right
      face puts the current room to the right: its x is the other's x plus
      half of both widths. */
  lemma LeftMatchPlacesRight(rooms: seq<Room>, c: nat, o: nat, mine: seq<Pos>, theirs: seq<Pos>)
    requires c < |rooms| && o < |rooms| && o != c && mine != [] && theirs != []
    requires Matches(mine, theirs, Pairings[0], rooms[o])
    ensures TryMatch(rooms, c, o, Pairings[0], mine, theirs)[c].x ==
      rooms[o].x + rooms[c].width as real / 2.0 + rooms[o].width as real / 2.0
  {
    var r := TryMatch(rooms, c, o, Pairings[0], mine, theirs);
    assert Flush(r[c], r[o], Pairings[0]);
  }

  /** `PlacedSpec` for any pairing, as a call usable in expressions. */
  lemma PlacedSpecIf(cur: Room, oth: Room, p: Pairing, off: Pos)
    ensures Placed(cur, oth, p, off).SameShape(cur)
    ensures p in Pairings ==> Flush(Placed(cur, oth, p, off), oth, p) && Aligned(Placed(cur, oth, p, off), oth, p, off)
  {
    if p in Pairings {
      PlacedSpec(cur, oth, p, off);
    }
  }

  /** Every list is non-empty and names one of `n` rooms. */
  predicate ListsFit(lists: RoomLists, n: nat) {
    forall q :: q in lists ==> q < n && lists[q] != []
  }

  /** Room `q` lists the symbol on the paired face and its pattern matches. */
  predicate MatchAt(rooms: seq<Room>, mine: seq<Pos>, others: RoomLists, p: Pairing, q: nat)
    requires q < |rooms| && mine != [] && ListsFit(others, |rooms|)
  {
    q in others && Matches(mine, others[q], p, rooms[q])
  }

  /** Try every other room `o`, `o + 1`, …, `c - 1` in turn. */
  function MatchOthers(rooms: seq<Room>, c: nat, mine: seq<Pos>, others: RoomLists, p: Pairing, o: nat): (r: seq<Room>)
    requires c < |rooms| && o <= c && mine != [] && ListsFit(others, |rooms|)
    ensures |r| == |rooms|
    ensures forall i :: 0 <= i < |r| && i != c ==> r[i] == rooms[i]
    ensures r[c].SameShape(rooms[c])
    decreases c - o
  {
    if o == c then rooms
    else
      var next := if o in others then TryMatch(rooms, c, o, p, mine, others[o]) else rooms;
      MatchOthers(next, c, mine, others, p, o + 1)
  }

  /** The rooms below `c` whose pattern matches. */
  function Hits(rooms: seq<Room>, c: nat, mine: seq<Pos>, others: RoomLists, p: Pairing): set<nat>
    requires c <= |rooms| && mine != [] && ListsFit(others, |rooms|)
  {
    set q: nat | q < c && MatchAt(rooms, mine, others, p, q)
  }

  /** Only the rooms below `c` decide which rooms match. */
  lemma HitsFrame(rooms: seq<Room>, rooms': seq<Room>, c: nat, mine: seq<Pos>, others: RoomLists, p: Pairing)
    requires c <= |rooms| == |rooms'| && mine != [] && ListsFit(others, |rooms|)
    requires forall i :: 0 <= i < c ==> rooms'[i] == rooms[i]
    ensures Hits(rooms', c, mine, others, p) == Hits(rooms, c, mine, others, p)
  {
    forall q: nat | q < c ensures MatchAt(rooms', mine, others, p, q) == MatchAt(rooms, mine, others, p, q) {
      assert rooms'[q] == rooms[q];
    }
  }

  /** The largest member of `hits` in `o .. hi - 1`, if any. */
  function LastIn(hits: set<nat>, o: nat, hi: nat): (r: Option<nat>)
    ensures r.Some? ==> o <= r.value < hi && r.value in hits
    ensures r.Some? ==> forall q :: r.value < q < hi ==> q !in hits
    ensures r.None? ==> forall q :: o <= q < hi ==> q !in hits
    decreases hi
  {
    if hi <= o then None
    else if hi - 1 in hits then Some(hi - 1)
    else LastIn(hits, o, hi - 1)
  }

  /** Widening the range by one at the bottom matters only when nothing
      above it is a member. */
  lemma {:induction false} LastInExtend(hits: set<nat>, o: nat, hi: nat)
    requires o < hi
    ensures LastIn(hits, o, hi) ==
      match LastIn(hits, o + 1, hi)
      case Some(q) => Some(q)
      case None => if o in hits then Some(o) else None
    decreases hi
  {
    if hi > o + 1 && hi - 1 !in hits {
      LastInExtend(hits, o, hi - 1);
    }
  }

  /** What trying rooms `o .. c - 1` leaves: unchanged with no match, else
      room `c` placed against the last match. */
  function MatchOutcome(rooms: seq<Room>, c: nat, mine: seq<Pos>, others: RoomLists, p: Pairing, last: Option<nat>): seq<Room>
    requires c < |rooms| && mine != [] && ListsFit(others, |rooms|)
    requires last.Some? ==> last.value < |rooms| && last.value in others
  {
    match last
    case None => rooms
    case Some(q) => rooms[c := Placed(rooms[c], rooms[q], p, Offset(mine, others[q], p, rooms[q]))]
  }

  /** Placing overwrites the position, so where the room was is irrelevant. */
  lemma PlacedIgnoresPosition(cur: Room, cur': Room, oth: Room, p: Pairing, off: Pos)
    requires cur'.SameShape(cur)
    ensures Placed(cur', oth, p, off) == Placed(cur, oth, p, off)
  {
  }

  /** One step of `MatchOthers`: room `o` is tried on its own. */
  lemma TryOneOutcome(rooms: seq<Room>, c: nat, mine: seq<Pos>, others: RoomLists, p: Pairing, o: nat)
    requires o < c < |rooms| && mine != [] && ListsFit(others, |rooms|)
    ensures (if o in others then TryMatch(rooms, c, o, p, mine, others[o]) else rooms) ==
      MatchOutcome(rooms, c, mine, others, p, if o in Hits(rooms, c, mine, others, p) then Some(o) else None)
  {
    if o in Hits(rooms, c, mine, others, p) {
      assert MatchAt(rooms, mine, others, p, o);
    } else {
      assert !MatchAt(rooms, mine, others, p, o);
    }
  }

  /** A later match replaces whatever an earlier step did to room `c`. */
  lemma OutcomeOverrides(rooms: seq<Room>, next: seq<Room>, c: nat, mine: seq<Pos>, others: RoomLists, p: Pairing, q: nat)
    requires q < c < |rooms| == |next| && q in others && mine != [] && ListsFit(others, |rooms|)
    requires next[q] == rooms[q] && next[c].SameShape(rooms[c])
    requires forall i :: 0 <= i < |next| && i != c ==> next[i] == rooms[i]
    ensures MatchOutcome(next, c, mine, others, p, Some(q)) == MatchOutcome(rooms, c, mine, others, p, Some(q))
  {
    var off := Offset(mine, others[q], p, rooms[q]);
    PlacedIgnoresPosition(rooms[c], next[c], rooms[q], p, off);
    assert next[c := Placed(rooms[c], rooms[q], p, off)] == rooms[c := Placed(rooms[c], rooms[q], p, off)];
  }

  /** The last matching room wins: with no match among `o .. c - 1` the rooms
      are unchanged, and otherwise room `c` is placed against the last room
      that matches, whatever earlier matches did. */
  lemma {:induction false} MatchOthersLastWins(rooms: seq<Room>, c: nat, mine: seq<Pos>, others: RoomLists, p: Pairing, o: nat)
    requires c < |rooms| && o <= c && mine != [] && ListsFit(others, |rooms|)
    ensures MatchOthers(rooms, c, mine, others, p, o) ==
      MatchOutcome(rooms, c, mine, others, p, LastIn(Hits(rooms, c, mine, others, p), o, c))
    decreases c - o
  {
    if o < c {
      var hits := Hits(rooms, c, mine, others, p);
      var next := if o in others then TryMatch(rooms, c, o, p, mine, others[o]) else rooms;
      assert MatchOthers(rooms, c, mine, others, p, o) == MatchOthers(next, c, mine, others, p, o + 1);
      MatchOthersLastWins(next, c, mine, others, p, o + 1);
      HitsFrame(rooms, next, c, mine, others, p);
      LastInExtend(hits, o, c);
      TryOneOutcome(rooms, c, mine, others, p, o);
      var above := LastIn(hits, o + 1, c);
      if above.Some? {
        OutcomeOverrides(rooms, next, c, mine, others, p, above.value);
      }
    }
  }

  /** Where rooms are does not decide which rooms match: only their sizes
      enter the mirror, so rooms of the same shape give the same hits. */
  lemma HitsShapeFrame(rooms: seq<Room>, rooms': seq<Room>, c: nat, mine: seq<Pos>, others: RoomLists, p: Pairing)
    requires c <= |rooms| == |rooms'| && mine != [] && ListsFit(others, |rooms|)
    requires forall i :: 0 <= i < c ==> rooms'[i].SameShape(rooms[i])
    ensures Hits(rooms', c, mine, others, p) == Hits(rooms, c, mine, others, p)
  {
    forall q: nat | q < c ensures MatchAt(rooms', mine, others, p, q) == MatchAt(rooms, mine, others, p, q) {
      assert MirrorExtent(p, rooms'[q]) == MirrorExtent(p, rooms[q]);
    }
  }

  /** Nor does it decide the offset. */
  lemma OffsetShapeFrame(mine: seq<Pos>, theirs: seq<Pos>, p: Pairing, other: Room, other': Room)
    requires mine != [] && theirs != [] && other'.SameShape(other)
    ensures Offset(mine, theirs, p, other') == Offset(mine, theirs, p, other)
  {
    assert MirrorExtent(p, other') == MirrorExtent(p, other);
  }

  /** Trying every room below `c`: with no match room `c` stays where it
      is, otherwise it ends flush against and aligned with the last room
      below it that matches. */
  lemma MatchOthersSpec(rooms: seq<Room>, c: nat, mine: seq<Pos>, others: RoomLists, p: Pairing)
    requires c < |rooms| && mine != [] && ListsFit(others, |rooms|) && p in Pairings
    ensures var last := LastIn(Hits(rooms, c, mine, others, p), 0, c);
      last.None? <==> Hits(rooms, c, mine, others, p) == {}
    ensures var r, last := MatchOthers(rooms, c, mine, others, p, 0), LastIn(Hits(rooms, c, mine, others, p), 0, c);
      && (last.None? ==> r == rooms)
      && (last.Some? ==>
            && last.value < c && last.value in others && r[last.value] == rooms[last.value]
            && Flush(r[c], rooms[last.value], p)
            && Aligned(r[c], rooms[last.value], p, Offset(mine, others[last.value], p, rooms[last.value])))
  {
    var hits := Hits(rooms, c, mine, others, p);
    var last := LastIn(hits, 0, c);
    MatchOthersLastWins(rooms, c, mine, others, p, 0);
    if last.None? {
      assert forall q :: q in hits ==> q < c;
    } else {
      var q := last.value;
      assert MatchAt(rooms, mine, others, p, q);
      PlacedSpec(rooms[c], rooms[q], p, Offset(mine, others[q], p, rooms[q]));
    }
  }

  /** Room `i` lists the symbol on the pairing's face and some room below
      it matches: the rooms the solver moves for this symbol and pairing. */
  predicate HitBelow(rooms: seq<Room>, mineLists: RoomLists, theirLists: RoomLists, p: Pairing, i: nat)
    requires ListsFit(mineLists, |rooms|) && ListsFit(theirLists, |rooms|)
  {
    i < |rooms| && i in mineLists && Hits(rooms, i, mineLists[i], theirLists, p) != {}
  }

  /** In `r`, room `i` is flush against and aligned with the last room below
      it whose pattern matches in `rooms`. */
  predicate PlacedAgainstLast(r: seq<Room>, rooms: seq<Room>, mineLists: RoomLists, theirLists: RoomLists, p: Pairing, i: nat)
    requires |r| == |rooms| && ListsFit(mineLists, |rooms|) && ListsFit(theirLists, |rooms|)
    requires i < |rooms| && i in mineLists
  {
    var last := LastIn(Hits(rooms, i, mineLists[i], theirLists, p), 0, i);
    && last.Some? && last.value in theirLists
    && Flush(r[i], r[last.value], p)
    && Aligned(r[i], r[last.value], p, Offset(mineLists[i], theirLists[last.value], p, rooms[last.value]))
  }

  /** Try every current room `c`, `c + 1`, … that lists the symbol on the
      pairing's face; room 0 is never moved. */
  function MatchCurrents(rooms: seq<Room>, mineLists: RoomLists, theirLists: RoomLists, p: Pairing, c: nat): (r: seq<Room>)
    requires ListsFit(mineLists, |rooms|) && ListsFit(theirLists, |rooms|)
    ensures |r| == |rooms|
    ensures forall i :: 0 <= i < |r| ==> r[i].SameShape(rooms[i])
    ensures forall i :: 0 <= i < |r| && (i == 0 || i < c || i !in mineLists) ==> r[i] == rooms[i]
    decreases |rooms| - c
  {
    if c >= |rooms| then rooms
    else MatchCurrents(TryCurrent(rooms, mineLists, theirLists, p, c), mineLists, theirLists, p, c + 1)
  }

  /** One step of `MatchCurrents`: room `c` tried against every room below
      it, unless it is room 0 or does not list the symbol. */
  function TryCurrent(rooms: seq<Room>, mineLists: RoomLists, theirLists: RoomLists, p: Pairing, c: nat): (r: seq<Room>)
    requires c < |rooms| && ListsFit(mineLists, |rooms|) && ListsFit(theirLists, |rooms|)
    ensures |r| == |rooms|
    ensures forall i :: 0 <= i < |r| && i != c ==> r[i] == rooms[i]
    ensures r[c].SameShape(rooms[c])
  {
    if c != 0 && c in mineLists then MatchOthers(rooms, c, mineLists[c], theirLists, p, 0) else rooms
  }

  /** Room `i` of `r` is where it was in `rooms` when it has no match
      below it for this symbol and pairing, and otherwise flush against and
      aligned with the last room below it that matches. */
  predicate RoomSpec(r: seq<Room>, rooms: seq<Room>, mineLists: RoomLists, theirLists: RoomLists, p: Pairing, i: nat)
    requires |r| == |rooms| && i < |rooms| && ListsFit(mineLists, |rooms|) && ListsFit(theirLists, |rooms|)
  {
    if HitBelow(rooms, mineLists, theirLists, p, i) then PlacedAgainstLast(r, rooms, mineLists, theirLists, p, i)
    else r[i] == rooms[i]
  }

  /** `RoomSpec` for every room from `c` on. */
  predicate CurrentsSpec(r: seq<Room>, rooms: seq<Room>, mineLists: RoomLists, theirLists: RoomLists, p: Pairing, c: nat)
    requires |r| == |rooms| && ListsFit(mineLists, |rooms|) && ListsFit(theirLists, |rooms|)
  {
    forall i :: c <= i < |rooms| ==> RoomSpec(r, rooms, mineLists, theirLists, p, i)
  }

  /** Rooms above `c` see the same hits and offsets whether or not room `c`
      moved, since moving keeps every shape. */
  lemma CurrentsSpecAbove(rooms: seq<Room>, next: seq<Room>, r: seq<Room>, mineLists: RoomLists, theirLists: RoomLists, p: Pairing, c: nat)
    requires |r| == |next| == |rooms| && c < |rooms|
    requires ListsFit(mineLists, |rooms|) && ListsFit(theirLists, |rooms|)
    requires forall i :: 0 <= i < |rooms| ==> next[i].SameShape(rooms[i])
    requires forall i :: 0 <= i < |rooms| && i != c ==> next[i] == rooms[i]
    requires CurrentsSpec(r, next, mineLists, theirLists, p, c + 1)
    ensures forall i :: c < i < |rooms| ==> RoomSpec(r, rooms, mineLists, theirLists, p, i)
  {
    forall i | c < i < |rooms| ensures RoomSpec(r, rooms, mineLists, theirLists, p, i) {
      assert RoomSpec(r, next, mineLists, theirLists, p, i);
      if i in mineLists {
        HitsShapeFrame(rooms, next, i, mineLists[i], theirLists, p);
      }
      if HitBelow(rooms, mineLists, theirLists, p, i) {
        var q := LastIn(Hits(rooms, i, mineLists[i], theirLists, p), 0, i).value;
        OffsetShapeFrame(mineLists[i], theirLists[q], p, rooms[q], next[q]);
      }
    }
  }

  /** Room `c` itself: it moves exactly when it has a match below it, and
      then against the last one; rooms above `c` move nothing below them. */
  lemma CurrentsSpecHere(rooms: seq<Room>, next: seq<Room>, r: seq<Room>, mineLists: RoomLists, theirLists: RoomLists, p: Pairing, c: nat)
    requires |r| == |next| == |rooms| && c < |rooms| && p in Pairings
    requires ListsFit(mineLists, |rooms|) && ListsFit(theirLists, |rooms|)
    requires next == TryCurrent(rooms, mineLists, theirLists, p, c)
    requires forall i :: 0 <= i <= c ==> r[i] == next[i]
    ensures RoomSpec(r, rooms, mineLists, theirLists, p, c)
  {
    if c != 0 && c in mineLists {
      MatchOthersSpec(rooms, c, mineLists[c], theirLists, p);
      if HitBelow(rooms, mineLists, theirLists, p, c) {
        var q := LastIn(Hits(rooms, c, mineLists[c], theirLists, p), 0, c).value;
        assert r[q] == next[q] && r[c] == next[c];
      }
    } else {
      assert !HitBelow(rooms, mineLists, theirLists, p, c);
    }
  }

  /** One step of the induction below: the later rooms meet their
      specification after room `c` is tried, so all rooms from `c` on do. */
  lemma CurrentsStep(rooms: seq<Room>, mineLists: RoomLists, theirLists: RoomLists, p: Pairing, c: nat)
    requires c < |rooms| && ListsFit(mineLists, |rooms|) && ListsFit(theirLists, |rooms|) && p in Pairings
    ensures CurrentsSpec(MatchCurrents(rooms, mineLists, theirLists, p, c), rooms, mineLists, theirLists, p, c)
    decreases |rooms| - c, 0
  {
    var next := TryCurrent(rooms, mineLists, theirLists, p, c);
    var r := MatchCurrents(next, mineLists, theirLists, p, c + 1);
    MatchCurrentsSpec(next, mineLists, theirLists, p, c + 1);
    CurrentsSpecAbove(rooms, next, r, mineLists, theirLists, p, c);
    CurrentsSpecHere(rooms, next, r, mineLists, theirLists, p, c);
  }

  /** Trying rooms `c`, `c + 1`, …: a room with no match below it for this
      symbol and pairing stays where it is, and every room with one ends
      flush against and aligned with the last room below it that matches.
      Later rooms never move an earlier one, so that placement survives. */
  lemma {:induction false} MatchCurrentsSpec(rooms: seq<Room>, mineLists: RoomLists, theirLists: RoomLists, p: Pairing, c: nat)
    requires ListsFit(mineLists, |rooms|) && ListsFit(theirLists, |rooms|) && p in Pairings
    ensures CurrentsSpec(MatchCurrents(rooms, mineLists, theirLists, p, c), rooms, mineLists, theirLists, p, c)
    decreases |rooms| - c, 1
  {
    if c < |rooms| {
      CurrentsStep(rooms, mineLists, theirLists, p, c);
    }
  }

  /** The per-room lists of a well-formed index fit the rooms. */
  lemma RoomsOnFit(idx: CharIndex, c: char, f: Face, n: nat)
    requires WellFormed(idx, n)
    ensures ListsFit(RoomsOn(idx, c, f, n), n)
  {
  }

  /** Apply the pairings `k`, `k + 1`, … for symbol `c`. */
  function MatchPairings(rooms: seq<Room>, idx: CharIndex, c: char, k: nat): (r: seq<Room>)
    requires WellFormed(idx, |rooms|) && k <= |Pairings|
    ensures |r| == |rooms|
    ensures forall i :: 0 <= i < |r| ==> r[i].SameShape(rooms[i])
    ensures |rooms| > 0 ==> r[0] == rooms[0]
    ensures forall i :: 0 <= i < |r| && (forall f :: Slot(c, f, i) !in idx.lists) ==> r[i] == rooms[i]
    decreases |Pairings| - k
  {
    if k == |Pairings| then rooms
    else
      var p := Pairings[k];
      RoomsOnFit(idx, c, p.mine, |rooms|);
      RoomsOnFit(idx, c, p.theirs, |rooms|);
      var next := MatchCurrents(rooms, RoomsOn(idx, c, p.mine, |rooms|), RoomsOn(idx, c, p.theirs, |rooms|), p, 0);
      MatchPairings(next, idx, c, k + 1)
  }

  /** Room `i` lists symbol `s` on the pairing's face and some room below
      it carries a matching pattern on the paired face. */
  predicate SymbolHit(rooms: seq<Room>, idx: CharIndex, s: char, p: Pairing, i: nat) {
    var mine, theirs := RoomsOn(idx, s, p.mine, |rooms|), RoomsOn(idx, s, p.theirs, |rooms|);
    && ListsFit(mine, |rooms|) && ListsFit(theirs, |rooms|)
    && HitBelow(rooms, mine, theirs, p, i)
  }

  /** Room `i` has no match for symbol `s` under any pairing. */
  predicate NoHitFor(rooms: seq<Room>, idx: CharIndex, s: char, i: nat) {
    forall j :: 0 <= j < |Pairings| ==> !SymbolHit(rooms, idx, s, Pairings[j], i)
  }

  /** Room `i` has no match for any symbol under any pairing. */
  predicate Unmatched(rooms: seq<Room>, idx: CharIndex, i: nat) {
    forall s :: NoHitFor(rooms, idx, s, i)
  }

  /** Matches depend on shapes only, so the solver's moves never change them. */
  lemma SymbolHitShapeFrame(rooms: seq<Room>, rooms': seq<Room>, idx: CharIndex, s: char, p: Pairing, i: nat)
    requires |rooms'| == |rooms| && WellFormed(idx, |rooms|)
    requires forall k :: 0 <= k < |rooms| ==> rooms'[k].SameShape(rooms[k])
    ensures SymbolHit(rooms', idx, s, p, i) == SymbolHit(rooms, idx, s, p, i)
  {
    var mine := RoomsOn(idx, s, p.mine, |rooms|);
    RoomsOnFit(idx, s, p.mine, |rooms|);
    RoomsOnFit(idx, s, p.theirs, |rooms|);
    if i < |rooms| && i in mine {
      HitsShapeFrame(rooms, rooms', i, mine[i], RoomsOn(idx, s, p.theirs, |rooms|), p);
    }
  }

  lemma NoHitForShapeFrame(rooms: seq<Room>, rooms': seq<Room>, idx: CharIndex, s: char, i: nat)
    requires |rooms'| == |rooms| && WellFormed(idx, |rooms|)
    requires forall k :: 0 <= k < |rooms| ==> rooms'[k].SameShape(rooms[k])
    ensures NoHitFor(rooms', idx, s, i) == NoHitFor(rooms, idx, s, i)
  {
    forall j | 0 <= j < |Pairings| ensures SymbolHit(rooms', idx, s, Pairings[j], i) == SymbolHit(rooms, idx, s, Pairings[j], i) {
      SymbolHitShapeFrame(rooms, rooms', idx, s, Pairings[j], i);
    }
  }

  /** One pairing leaves alone a room with no match below it. */
  lemma PairingKeeps(rooms: seq<Room>, mineLists: RoomLists, theirLists: RoomLists, p: Pairing, i: nat)
    requires ListsFit(mineLists, |rooms|) && ListsFit(theirLists, |rooms|) && p in Pairings && i < |rooms|
    requires !HitBelow(rooms, mineLists, theirLists, p, i)
    ensures MatchCurrents(rooms, mineLists, theirLists, p, 0)[i] == rooms[i]
  {
    MatchCurrentsSpec(rooms, mineLists, theirLists, p, 0);
    assert RoomSpec(MatchCurrents(rooms, mineLists, theirLists, p, 0), rooms, mineLists, theirLists, p, i);
  }

  /** One step of the induction below: pairing `k` leaves the room alone,
      keeps every shape, and so leaves the later pairings without a match. */
  lemma PairingsStepKeeps(rooms: seq<Room>, idx: CharIndex, c: char, k: nat, i: nat)
    requires WellFormed(idx, |rooms|) && k < |Pairings| && i < |rooms|
    requires forall j :: k <= j < |Pairings| ==> !SymbolHit(rooms, idx, c, Pairings[j], i)
    ensures MatchPairings(rooms, idx, c, k)[i] == rooms[i]
    decreases |Pairings| - k, 0
  {
    var p := Pairings[k];
    RoomsOnFit(idx, c, p.mine, |rooms|);
    RoomsOnFit(idx, c, p.theirs, |rooms|);
    var mine, theirs := RoomsOn(idx, c, p.mine, |rooms|), RoomsOn(idx, c, p.theirs, |rooms|);
    var next := MatchCurrents(rooms, mine, theirs, p, 0);
    assert MatchPairings(rooms, idx, c, k) == MatchPairings(next, idx, c, k + 1);
    assert !SymbolHit(rooms, idx, c, Pairings[k], i);
    PairingKeeps(rooms, mine, theirs, p, i);
    forall j | k + 1 <= j < |Pairings| ensures !SymbolHit(next, idx, c, Pairings[j], i) {
      SymbolHitShapeFrame(rooms, next, idx, c, Pairings[j], i);
    }
    MatchPairingsKeeps(next, idx, c, k + 1, i);
  }

  /** The pairings `k`, `k + 1`, … for symbol `c` leave alone a room that
      has no match for `c` under any of them. */
  lemma {:induction false} MatchPairingsKeeps(rooms: seq<Room>, idx: CharIndex, c: char, k: nat, i: nat)
    requires WellFormed(idx, |rooms|) && k <= |Pairings| && i < |rooms|
    requires forall j :: k <= j < |Pairings| ==> !SymbolHit(rooms, idx, c, Pairings[j], i)
    ensures MatchPairings(rooms, idx, c, k)[i] == rooms[i]
    decreases |Pairings| - k, 1
  {
    if k < |Pairings| {
      PairingsStepKeeps(rooms, idx, c, k, i);
    }
  }

  /** The symbols `order[k..]` leave alone a room that has no match for
      any of them. */
  lemma {:induction false} MatchSymbolsKeeps(rooms: seq<Room>, idx: CharIndex, order: seq<char>, k: nat, i: nat)
    requires WellFormed(idx, |rooms|) && k <= |order| && i < |rooms|
    requires forall m :: k <= m < |order| ==> NoHitFor(rooms, idx, order[m], i)
    ensures MatchSymbols(rooms, idx, order, k)[i] == rooms[i]
    decreases |order| - k
  {
    if k < |order| {
      var next := MatchPairings(rooms, idx, order[k], 0);
      MatchPairingsKeeps(rooms, idx, order[k], 0, i);
      forall m | k + 1 <= m < |order| ensures NoHitFor(next, idx, order[m], i) {
        NoHitForShapeFrame(rooms, next, idx, order[m], i);
      }
      MatchSymbolsKeeps(next, idx, order, k + 1, i);
    }
  }

  /** A room that no symbol lists on any face. */
  predicate Unlisted(idx: CharIndex, i: nat) {
    forall k :: k in idx.lists ==> k.room != i
  }

  /** Apply every pairing for the symbols `order[k..]`, in that order. */
  function MatchSymbols(rooms: seq<Room>, idx: CharIndex, order: seq<char>, k: nat): (r: seq<Room>)
    requires WellFormed(idx, |rooms|) && k <= |order|
    ensures |r| == |rooms|
    ensures forall i :: 0 <= i < |r| ==> r[i].SameShape(rooms[i])
    ensures |rooms| > 0 ==> r[0] == rooms[0]
    ensures forall i :: 0 <= i < |r| && Unlisted(idx, i) ==> r[i] == rooms[i]
    decreases |order| - k
  {
    if k == |order| then rooms
    else
      var next := MatchPairings(rooms, idx, order[k], 0);
      MatchSymbols(next, idx, order, k + 1)
  }

  /** The whole solver: two passes over the symbols in the index's order.
      Sizes and faces never change, room 0 stays where it is, and a room
      that carries no symbol stays where it was. */
  function Solve(rooms: seq<Room>, idx: CharIndex): (r: seq<Room>)
    requires WellFormed(idx, |rooms|)
    ensures |r| == |rooms|
    ensures forall i :: 0 <= i < |r| ==> r[i].SameShape(rooms[i])
    ensures |rooms| > 0 ==> r[0] == rooms[0]
    ensures forall i :: 0 <= i < |r| && Unlisted(idx, i) ==> r[i] == rooms[i]
    ensures forall i :: 0 <= i < |r| && Unmatched(rooms, idx, i) ==> r[i] == rooms[i]
  {
    var once := MatchSymbols(rooms, idx, idx.symbols, 0);
    TwoPassesKeep(rooms, idx);
    MatchSymbols(once, idx, idx.symbols, 0)
  }

  /** Both passes leave alone a room with no match for any symbol. */
  lemma TwoPassesKeep(rooms: seq<Room>, idx: CharIndex)
    requires WellFormed(idx, |rooms|)
    ensures var once := MatchSymbols(rooms, idx, idx.symbols, 0);
      forall i :: 0 <= i < |rooms| && Unmatched(rooms, idx, i) ==>
        once[i] == rooms[i] && MatchSymbols(once, idx, idx.symbols, 0)[i] == rooms[i]
  {
    var once := MatchSymbols(rooms, idx, idx.symbols, 0);
    forall i | 0 <= i < |rooms| && Unmatched(rooms, idx, i)
      ensures once[i] == rooms[i] && MatchSymbols(once, idx, idx.symbols, 0)[i] == rooms[i]
    {
      MatchSymbolsKeeps(rooms, idx, idx.symbols, 0, i);
      forall m | 0 <= m < |idx.symbols| ensures NoHitFor(once, idx, idx.symbols[m], i) {
        NoHitForShapeFrame(rooms, once, idx, idx.symbols[m], i);
      }
      MatchSymbolsKeeps(once, idx, idx.symbols, 0, i);
    }
  }

  /** A room no symbol lists has no match: `Unmatched` is the wider
      condition. */
  lemma UnlistedUnmatched(rooms: seq<Room>, idx: CharIndex, i: nat)
    requires WellFormed(idx, |rooms|) && Unlisted(idx, i)
    ensures Unmatched(rooms, idx, i)
  {
    forall s, j | 0 <= j < |Pairings| ensures !SymbolHit(rooms, idx, s, Pairings[j], i) {
      assert i !in RoomsOn(idx, s, Pairings[j].mine, |rooms|);
    }
  }
}
