/** The character index: for every symbol, every face and every room, the
    positions where that symbol occurs, in the order the faces were scanned. */
module Index {
  import opened Grid
  import opened Net

  /** A window-local position (column, row). */
  datatype Pos = Pos(x: int, y: int)

  /** Positions of one symbol on one face, keyed by room id. */
  type RoomLists = map<nat, seq<Pos>>

  /** Where one list lives: its symbol, face and room. */
  datatype Slot = Slot(symbol: char, face: Face, room: nat)

  /** The index. The program nests a per-symbol map of per-face maps of
      per-room lists; one map keyed by all three holds the same lists.
      `symbols` lists the symbols in the order they were first inserted
      (the order the layout solver visits them in). */
  datatype CharIndex = CharIndex(lists: map<Slot, seq<Pos>>, symbols: seq<char>)

  const EmptyIndex := CharIndex(map[], [])

  /** The list for (symbol, face, room); empty when there is none. */
  function Lookup(idx: CharIndex, c: char, f: Face, r: nat): seq<Pos> {
    if Slot(c, f, r) in idx.lists then idx.lists[Slot(c, f, r)] else []
  }

  /** The per-room lists of symbol `c` on face `f`, for rooms below `n`. */
  function RoomsOn(idx: CharIndex, c: char, f: Face, n: nat): (m: RoomLists)
    ensures forall q: nat :: q in m <==> q < n && Slot(c, f, q) in idx.lists
    ensures forall q :: q in m ==> m[q] == idx.lists[Slot(c, f, q)]
  {
    map q: nat | q < n && Slot(c, f, q) in idx.lists :: idx.lists[Slot(c, f, q)]
  }

  predicate NoDuplicates(s: seq<char>) {
    forall i, j :: 0 <= i < j < |s| ==> s[i] != s[j]
  }

  /** Every list in the index is non-empty, belongs to one of `n` rooms and
      has its symbol in the symbol order, which lists each symbol once. */
  predicate WellFormed(idx: CharIndex, n: nat) {
    && (forall k :: k in idx.lists ==> k.room < n && idx.lists[k] != [] && k.symbol in idx.symbols)
    && NoDuplicates(idx.symbols)
  }

  /** Append `p` to the list for (c, f, r), creating it and registering the
      symbol on first use. */
  function Append(idx: CharIndex, c: char, f: Face, r: nat, p: Pos): CharIndex
  {
    var symbols := if c in idx.symbols then idx.symbols else idx.symbols + [c];
    CharIndex(idx.lists[Slot(c, f, r) := Lookup(idx, c, f, r) + [p]], symbols)
  }

  /** Appending changes the one list it appends to and no other. */
  lemma AppendLookup(idx: CharIndex, c: char, f: Face, r: nat, p: Pos, d: char, g: Face, q: nat)
    ensures Lookup(Append(idx, c, f, r, p), d, g, q) ==
      Lookup(idx, d, g, q) + (if d == c && g == f && q == r then [p] else [])
  {
  }

  /** Appending to a room that exists keeps the index well formed. */
  lemma AppendWellFormed(idx: CharIndex, c: char, f: Face, r: nat, p: Pos, n: nat)
    requires WellFormed(idx, n) && r < n
    ensures WellFormed(Append(idx, c, f, r, p), n)
  {
  }

  /** The positions of symbol `c` among `cells`, in order. */
  function Occurrences(cells: seq<Cell>, c: char): (ps: seq<Pos>)
    ensures |ps| <= |cells|
  {
    if cells == [] then []
    else (if cells[0].ch == c then [Pos(cells[0].col, cells[0].row)] else []) + Occurrences(cells[1..], c)
  }

  /** The positions of `c` are those of the cells carrying `c`, and no others. */
  lemma {:induction false} OccurrencesMembers(cells: seq<Cell>, c: char)
    ensures forall p :: p in Occurrences(cells, c) <==>
      exists k :: 0 <= k < |cells| && cells[k].ch == c && p == Pos(cells[k].col, cells[k].row)
    decreases |cells|
  {
    if cells != [] {
      var rest := cells[1..];
      OccurrencesMembers(rest, c);
      forall p | p in Occurrences(cells, c)
        ensures exists k :: 0 <= k < |cells| && cells[k].ch == c && p == Pos(cells[k].col, cells[k].row)
      {
        if !(cells[0].ch == c && p == Pos(cells[0].col, cells[0].row)) {
          assert p in Occurrences(rest, c);
          var k :| 0 <= k < |rest| && rest[k].ch == c && p == Pos(rest[k].col, rest[k].row);
          assert cells[k + 1] == rest[k];
        }
      }
      forall k | 0 <= k < |cells| && cells[k].ch == c
        ensures Pos(cells[k].col, cells[k].row) in Occurrences(cells, c)
      {
        if k > 0 {
          assert rest[k - 1] == cells[k];
        }
      }
    }
  }

  /** Scanning two runs of cells lists the first run's positions, then the
      second's: the order of the cells is kept. */
  lemma {:induction false} OccurrencesAppend(a: seq<Cell>, b: seq<Cell>, c: char)
    ensures Occurrences(a + b, c) == Occurrences(a, c) + Occurrences(b, c)
    decreases |a|
  {
    if a == [] {
      assert a + b == b;
    } else {
      var head := if a[0].ch == c then [Pos(a[0].col, a[0].row)] else [];
      assert (a + b)[1..] == a[1..] + b;
      OccurrencesAppend(a[1..], b, c);
      assert Occurrences(a + b, c) == head + (Occurrences(a[1..], c) + Occurrences(b, c));
      assert Occurrences(a, c) == head + Occurrences(a[1..], c);
    }
  }

  /** Index the cells of face `f` of room `r`, in scan order. */
  function AddCells(idx: CharIndex, r: nat, f: Face, cells: seq<Cell>): CharIndex
    decreases |cells|
  {
    if cells == [] then idx
    else AddCells(Append(idx, cells[0].ch, f, r, Pos(cells[0].col, cells[0].row)), r, f, cells[1..])
  }

  /** Index the given faces of room `r`, in order. */
  function AddFaces(idx: CharIndex, r: nat, room: Room, faces: seq<Face>): CharIndex
    decreases |faces|
  {
    if faces == [] then idx
    else AddFaces(AddCells(idx, r, faces[0], room.Cells(faces[0])), r, room, faces[1..])
  }

  /** Index every room; a room's id is its position in `rooms`. The faces
      of a room are indexed top, back, right, front, left, floor. */
  function Build(rooms: seq<Room>): CharIndex
  {
    if rooms == [] then EmptyIndex
    else
      var n := |rooms| - 1;
      AddFaces(Build(rooms[..n]), n, rooms[n], SliceOrder)
  }

  /** One step of `AddCells`: append the first cell, index the rest. */
  lemma AddCellsStep(idx: CharIndex, r: nat, f: Face, cells: seq<Cell>)
    requires cells != []
    ensures AddCells(idx, r, f, cells) ==
      AddCells(Append(idx, cells[0].ch, f, r, Pos(cells[0].col, cells[0].row)), r, f, cells[1..])
  {
  }

  lemma OccurrencesStep(cells: seq<Cell>, c: char)
    requires cells != []
    ensures Occurrences(cells, c) ==
      (if cells[0].ch == c then [Pos(cells[0].col, cells[0].row)] else []) + Occurrences(cells[1..], c)
  {
  }

  lemma {:induction false} AddCellsLookup(idx: CharIndex, r: nat, f: Face, cells: seq<Cell>, c: char, g: Face, q: nat)
    ensures Lookup(AddCells(idx, r, f, cells), c, g, q) ==
      Lookup(idx, c, g, q) + (if g == f && q == r then Occurrences(cells, c) else [])
    decreases |cells|
  {
    if cells != [] {
      var p := Pos(cells[0].col, cells[0].row);
      var next := Append(idx, cells[0].ch, f, r, p);
      var rest := cells[1..];
      AddCellsStep(idx, r, f, cells);
      AppendLookup(idx, cells[0].ch, f, r, p, c, g, q);
      AddCellsLookup(next, r, f, rest, c, g, q);
      OccurrencesStep(cells, c);
      var l0, l1 := Lookup(idx, c, g, q), Lookup(next, c, g, q);
      var l2 := Lookup(AddCells(idx, r, f, cells), c, g, q);
      var occRest := Occurrences(rest, c);
      assert l2 == Lookup(AddCells(next, r, f, rest), c, g, q);
      if g == f && q == r {
        assert l2 == l1 + occRest;
        if cells[0].ch == c {
          assert l1 == l0 + [p];
          assert Occurrences(cells, c) == [p] + occRest;
          assert l2 == l0 + ([p] + occRest);
        } else {
          assert l1 == l0 + [];
          assert Occurrences(cells, c) == [] + occRest;
        }
      } else {
        assert l1 == l0 + [];
        assert l2 == l1 + [];
      }
    }
  }

  lemma {:induction false} AddCellsWellFormed(idx: CharIndex, r: nat, f: Face, cells: seq<Cell>, n: nat)
    requires WellFormed(idx, n) && r < n
    ensures WellFormed(AddCells(idx, r, f, cells), n)
    decreases |cells|
  {
    if cells != [] {
      AppendWellFormed(idx, cells[0].ch, f, r, Pos(cells[0].col, cells[0].row), n);
      AddCellsWellFormed(Append(idx, cells[0].ch, f, r, Pos(cells[0].col, cells[0].row)), r, f, cells[1..], n);
    }
  }

  predicate DistinctFaces(faces: seq<Face>) {
    forall i, j :: 0 <= i < j < |faces| ==> faces[i] != faces[j]
  }

  /** The slicing order names every face exactly once. */
  lemma SliceOrderDistinct()
    ensures DistinctFaces(SliceOrder)
    ensures forall g :: g in SliceOrder
  {
    forall g ensures g in SliceOrder {
      assert SliceOrder[FaceSlot(g)] == g;
    }
  }

  lemma {:induction false} AddFacesLookup(idx: CharIndex, r: nat, room: Room, faces: seq<Face>, c: char, g: Face, q: nat)
    requires DistinctFaces(faces)
    ensures Lookup(AddFaces(idx, r, room, faces), c, g, q) ==
      Lookup(idx, c, g, q) + (if g in faces && q == r then Occurrences(room.Cells(g), c) else [])
    decreases |faces|
  {
    if faces != [] {
      var f0, rest := faces[0], faces[1..];
      assert DistinctFaces(rest) by {
        forall i, j | 0 <= i < j < |rest| ensures rest[i] != rest[j] {
          assert rest[i] == faces[i + 1] && rest[j] == faces[j + 1];
        }
      }
      var next := AddCells(idx, r, f0, room.Cells(f0));
      assert AddFaces(idx, r, room, faces) == AddFaces(next, r, room, rest);
      AddCellsLookup(idx, r, f0, room.Cells(f0), c, g, q);
      AddFacesLookup(next, r, room, rest, c, g, q);
      var l0, l1 := Lookup(idx, c, g, q), Lookup(next, c, g, q);
      var l2 := Lookup(AddFaces(next, r, room, rest), c, g, q);
      var occ := Occurrences(room.Cells(g), c);
      if q == r && g == f0 {
        assert g !in rest by {
          forall i | 0 <= i < |rest| ensures rest[i] != g {
            assert rest[i] == faces[i + 1];
          }
        }
        assert l1 == l0 + occ && l2 == l1;
      } else if q == r {
        assert g in faces <==> g in rest;
        assert l1 == l0;
      } else {
        assert l1 == l0 && l2 == l1;
      }
    }
  }

  lemma {:induction false} AddFacesWellFormed(idx: CharIndex, r: nat, room: Room, faces: seq<Face>, n: nat)
    requires WellFormed(idx, n) && r < n
    ensures WellFormed(AddFaces(idx, r, room, faces), n)
    decreases |faces|
  {
    if faces != [] {
      AddCellsWellFormed(idx, r, faces[0], room.Cells(faces[0]), n);
      AddFacesWellFormed(AddCells(idx, r, faces[0], room.Cells(faces[0])), r, room, faces[1..], n);
    }
  }

  /** Building keeps the index well formed. */
  lemma {:induction false} BuildWellFormed(rooms: seq<Room>)
    ensures WellFormed(Build(rooms), |rooms|)
    decreases |rooms|
  {
    if rooms != [] {
      var n := |rooms| - 1;
      BuildWellFormed(rooms[..n]);
      assert WellFormed(Build(rooms[..n]), |rooms|);
      AddFacesWellFormed(Build(rooms[..n]), n, rooms[n], SliceOrder, |rooms|);
    }
  }

  /** One list of the built index. */
  lemma {:induction false} BuildLookup(rooms: seq<Room>, c: char, g: Face, q: nat)
    ensures Lookup(Build(rooms), c, g, q) == (if q < |rooms| then Occurrences(rooms[q].Cells(g), c) else [])
    decreases |rooms|
  {
    if rooms != [] {
      var n := |rooms| - 1;
      var prefix := rooms[..n];
      var before := Build(prefix);
      assert Build(rooms) == AddFaces(before, n, rooms[n], SliceOrder);
      BuildLookup(prefix, c, g, q);
      SliceOrderDistinct();
      AddFacesLookup(before, n, rooms[n], SliceOrder, c, g, q);
      var l0 := Lookup(before, c, g, q);
      if q < n {
        assert prefix[q] == rooms[q];
        assert l0 == Occurrences(rooms[q].Cells(g), c);
        assert Lookup(Build(rooms), c, g, q) == l0 + [];
      } else if q == n {
        assert l0 == [];
        assert Lookup(Build(rooms), c, g, q) == [] + Occurrences(rooms[n].Cells(g), c);
      } else {
        assert l0 == [];
        assert Lookup(Build(rooms), c, g, q) == [] + [];
      }
    }
  }

  /** The index lists, for every symbol, face and room, exactly the
      positions of that symbol on that face of that room in scan order
      (nothing for a room id past the end), and it is well formed: every
      list present is non-empty and names an existing room. */
  lemma BuildSpec(rooms: seq<Room>)
    ensures WellFormed(Build(rooms), |rooms|)
    ensures forall c, g, q: nat ::
      Lookup(Build(rooms), c, g, q) == (if q < |rooms| then Occurrences(rooms[q].Cells(g), c) else [])
  {
    BuildWellFormed(rooms);
    forall c, g, q: nat ensures Lookup(Build(rooms), c, g, q) ==
      (if q < |rooms| then Occurrences(rooms[q].Cells(g), c) else [])
    {
      BuildLookup(rooms, c, g, q);
    }
  }

  /** Every list the index holds is non-empty, so the solver may always
      take its first element. */
  lemma IndexedListsNonEmpty(rooms: seq<Room>, c: char, f: Face, r: nat)
    requires Slot(c, f, r) in Build(rooms).lists
    ensures r < |rooms|
    ensures Build(rooms).lists[Slot(c, f, r)] == Occurrences(rooms[r].Cells(f), c) != []
  {
    BuildSpec(rooms);
    assert Lookup(Build(rooms), c, f, r) == Build(rooms).lists[Slot(c, f, r)];
  }
}
