/** Rooms and the decoding of one room's unfolded net into six faces. */
module Net {
  import opened Wrappers
  import opened Text
  import opened Grid

  /** The six interior surfaces of a room. */
  datatype Face = Top | Back | Right | Front | Left | Floor

  /** A window of the net: offset (x, y) and size wdt × hgt. */
  datatype Rect = Rect(x: nat, y: nat, wdt: nat, hgt: nat)

  /** Where each face sits in the horizontal unfolded cross of a
      width × depth × height room:

          top
          back  right  front  left
          floor                                                   */
  function Placement(f: Face, width: nat, depth: nat, height: nat): (r: Rect)
    ensures r.x + r.wdt <= 2 * width + 2 * depth && r.y + r.hgt <= 2 * depth + height
  {
    match f
    case Top => Rect(0, 0, width, depth)
    case Back => Rect(0, depth, width, height)
    case Right => Rect(width, depth, depth, height)
    case Front => Rect(width + depth, depth, width, height)
    case Left => Rect(2 * width + depth, depth, depth, height)
    case Floor => Rect(0, depth + height, width, depth)
  }

  /** Two windows share at least one character cell. */
  predicate Overlap(a: Rect, b: Rect) {
    a.x < b.x + b.wdt && b.x < a.x + a.wdt && a.y < b.y + b.hgt && b.y < a.y + a.hgt
  }

  /** The net is a cross: back, right, front and left side by side in one
      band of height `height`, top above the back and floor below it, and
      no two faces share a cell. */
  lemma CrossLayout(width: nat, depth: nat, height: nat)
    ensures var back, right := Placement(Back, width, depth, height), Placement(Right, width, depth, height);
            var front, left := Placement(Front, width, depth, height), Placement(Left, width, depth, height);
            && back.x == 0 && right.x == back.x + back.wdt
            && front.x == right.x + right.wdt && left.x == front.x + front.wdt
            && left.x + left.wdt == 2 * width + 2 * depth
    ensures forall f :: f != Top && f != Floor ==>
      Placement(f, width, depth, height).y == depth && Placement(f, width, depth, height).hgt == height
    ensures var top, back := Placement(Top, width, depth, height), Placement(Back, width, depth, height);
            top.x == back.x && top.wdt == back.wdt && top.y + top.hgt == back.y
    ensures var floor, back := Placement(Floor, width, depth, height), Placement(Back, width, depth, height);
            floor.x == back.x && floor.wdt == back.wdt && floor.y == back.y + back.hgt
    ensures forall f, g :: f != g ==> !Overlap(Placement(f, width, depth, height), Placement(g, width, depth, height))
  {
  }

  /** A room: its centre (x, y, z), its size and the symbols on its faces. */
  datatype Room = Room(
    x: real, y: real, z: real,
    width: nat, height: nat, depth: nat,
    top: seq<Cell>, floor: seq<Cell>, left: seq<Cell>,
    right: seq<Cell>, front: seq<Cell>, back: seq<Cell>)
  {
    function Cells(f: Face): seq<Cell> {
      match f
      case Top => top
      case Floor => floor
      case Left => left
      case Right => right
      case Front => front
      case Back => back
    }

    function Window(f: Face): Rect {
      Placement(f, width, depth, height)
    }

    predicate AtOrigin() {
      x == 0.0 && y == 0.0 && z == 0.0
    }

    /** Same size and same faces; only the position may differ. */
    predicate SameShape(other: Room) {
      && width == other.width && height == other.height && depth == other.depth
      && top == other.top && floor == other.floor && left == other.left
      && right == other.right && front == other.front && back == other.back
    }
  }

  /** Why a net cannot be decoded. Each one aborts the whole run. */
  datatype NetError =
    | EmptyNet                                  // no line at all after the heading
    | NoDepthMarker                             // no line after the first starts with '+'
    | HeightUnderflow                           // fewer lines than twice the depth
    | AreaMismatch(expected: int, actual: nat)  // character count disagrees with the size
    | FaceOutOfBounds(face: Face)               // a face window leaves the lines

  /** The lines of a net body. */
  function NetLines(content: string): seq<string> {
    Lines(Trim(content))
  }

  /** The first line at index `from` or later that starts with '+'. */
  function FirstMarkerFrom(lines: seq<string>, from: nat): (r: Option<nat>)
    ensures r.Some? ==> from <= r.value < |lines| && StartsWith(lines[r.value], '+')
    ensures r.Some? ==> forall j :: from <= j < r.value ==> !StartsWith(lines[j], '+')
    ensures r.None? <==> forall j :: from <= j < |lines| ==> !StartsWith(lines[j], '+')
    decreases |lines| - from
  {
    if from >= |lines| then None
    else if StartsWith(lines[from], '+') then Some(from)
    else FirstMarkerFrom(lines, from + 1)
  }

  /** Some line after the first starts with '+'. */
  predicate HasDepthMarker(lines: seq<string>) {
    exists j :: 1 <= j < |lines| && StartsWith(lines[j], '+')
  }

  /** The area a width × depth × height room's six faces cover. */
  function SurfaceArea(width: nat, depth: nat, height: nat): int {
    2 * (width * depth + width * height + depth * height)
  }

  /** Slice one face out of the net lines; `None` when it leaves them. */
  function FaceWindow(lines: seq<string>, d: Dims, f: Face): Option<seq<Cell>> {
    var w := Placement(f, d.width, d.depth, d.height);
    Window(lines, w.x, w.y, w.wdt, w.hgt)
  }

  /** The measured size of a net. */
  datatype Dims = Dims(width: nat, depth: nat, height: nat)

  /** `d` is the size of the net with these lines and this character count
      (line breaks excluded): the width is the trimmed length of the first
      line, line `depth - 1` is the first line after the first that starts
      with '+', the height is what is left of the lines once the depth is
      taken twice, and the character count is the surface area. */
  predicate Measured(lines: seq<string>, charCount: nat, d: Dims) {
    && |lines| > 0
    && d.width == |Trim(lines[0])|
    && 2 <= d.depth < |lines|
    && StartsWith(lines[d.depth - 1], '+')
    && (forall j :: 1 <= j < d.depth - 1 ==> !StartsWith(lines[j], '+'))
    && d.height + 2 * d.depth == |lines|
    && SurfaceArea(d.width, d.depth, d.height) == charCount
  }

  /** A net has at most one size. */
  lemma MeasuredUnique(lines: seq<string>, charCount: nat, d: Dims, e: Dims)
    requires Measured(lines, charCount, d) && Measured(lines, charCount, e)
    ensures d == e
  {
  }

  /** Measure a net from its lines and its character count without line
      breaks. It succeeds exactly when the net has a size, and then returns
      it; otherwise the error is the first check that fails, in the order
      empty net, missing depth marker, height underflow, area mismatch. */
  function Measure(lines: seq<string>, charCount: nat): (r: Result<Dims, NetError>)
    ensures r.Ok? ==> Measured(lines, charCount, r.value)
    ensures (exists d :: Measured(lines, charCount, d)) ==> r.Ok?
    ensures r == Err(EmptyNet) <==> lines == []
    ensures r == Err(NoDepthMarker) <==> lines != [] && !HasDepthMarker(lines)
    ensures r == Err(HeightUnderflow) <==>
      lines != [] && FirstMarkerFrom(lines, 1).Some? && |lines| < 2 * (FirstMarkerFrom(lines, 1).value + 1)
    ensures r.Err? && r.error.AreaMismatch? ==>
      && lines != [] && FirstMarkerFrom(lines, 1).Some?
      && var depth := FirstMarkerFrom(lines, 1).value + 1;
      && 2 * depth <= |lines|
      && r.error == AreaMismatch(SurfaceArea(|Trim(lines[0])|, depth, |lines| - 2 * depth), charCount)
      && r.error.expected != charCount
    ensures r.Err? ==> !r.error.FaceOutOfBounds?
  {
    if |lines| == 0 then Err(EmptyNet)
    else
      var width := |Trim(lines[0])|;
      match FirstMarkerFrom(lines, 1)
      case None =>
        assert !HasDepthMarker(lines);
        Err(NoDepthMarker)
      case Some(i) =>
        var depth := 1 + i;
        if |lines| < 2 * depth then Err(HeightUnderflow)
        else
          var height := |lines| - 2 * depth;
          var expected := SurfaceArea(width, depth, height);
          if expected != charCount then Err(AreaMismatch(expected, charCount))
          else Ok(Dims(width, depth, height))
  }

  /** The order in which a net's faces are sliced. */
  const SliceOrder: seq<Face> := [Top, Back, Right, Front, Left, Floor]

  /** Slice the given faces in order; the first one that leaves the lines aborts. */
  function SliceEach(lines: seq<string>, d: Dims, faces: seq<Face>): (r: Result<seq<seq<Cell>>, NetError>)
    ensures r.Ok? ==> |r.value| == |faces|
    ensures r.Ok? ==> forall i :: 0 <= i < |faces| ==> FaceWindow(lines, d, faces[i]) == Some(r.value[i])
    ensures r.Err? ==> r.error.FaceOutOfBounds? && exists k ::
      (&& 0 <= k < |faces| && faces[k] == r.error.face && FaceWindow(lines, d, faces[k]).None?
       && forall j :: 0 <= j < k ==> FaceWindow(lines, d, faces[j]).Some?)
  {
    if faces == [] then Ok([])
    else match FaceWindow(lines, d, faces[0])
      case None => Err(FaceOutOfBounds(faces[0]))
      case Some(cells) =>
        match SliceEach(lines, d, faces[1..])
        case Err(e) =>
          assert forall j :: 0 <= j < |faces| - 1 ==> faces[1..][j] == faces[j + 1];
          Err(e)
        case Ok(rest) => Ok([cells] + rest)
  }

  /** The six faces of a measured net as a room at the origin. Slicing
      succeeds exactly when every face's window lies inside the lines;
      otherwise it reports the first face, in slicing order, that does not. */
  function SliceFaces(lines: seq<string>, d: Dims): (r: Result<Room, NetError>)
    ensures r.Ok? ==> r.value.AtOrigin()
    ensures r.Ok? ==> r.value.width == d.width && r.value.depth == d.depth && r.value.height == d.height
    ensures r.Ok? ==> forall f :: FaceWindow(lines, d, f) == Some(r.value.Cells(f))
    ensures r.Ok? <==> forall f :: FaceWindow(lines, d, f).Some?
    ensures r.Err? ==> r.error.FaceOutOfBounds? && FaceWindow(lines, d, r.error.face).None?
    ensures r.Err? ==> forall j :: 0 <= j < FaceSlot(r.error.face) ==> FaceWindow(lines, d, SliceOrder[j]).Some?
  {
    var cs :- SliceEach(lines, d, SliceOrder);
    RoomFromFacesCells(d, cs);
    Ok(RoomFromFaces(d, cs))
  }

  /** A room at the origin whose faces are given in `SliceOrder`. */
  function RoomFromFaces(d: Dims, cs: seq<seq<Cell>>): Room
    requires |cs| == |SliceOrder|
  {
    Room(0.0, 0.0, 0.0, d.width, d.height, d.depth, cs[0], cs[5], cs[4], cs[2], cs[3], cs[1])
  }

  lemma RoomFromFacesCells(d: Dims, cs: seq<seq<Cell>>)
    requires |cs| == |SliceOrder|
    ensures forall f :: RoomFromFaces(d, cs).Cells(f) == cs[FaceSlot(f)]
  {
  }

  /** Where a face sits in `SliceOrder`. */
  function FaceSlot(f: Face): (i: nat)
    ensures i < |SliceOrder| && SliceOrder[i] == f
  {
    match f
    case Top => 0
    case Back => 1
    case Right => 2
    case Front => 3
    case Left => 4
    case Floor => 5
  }

  /** Decode a room net: measure it, then slice its six faces. The room
      starts at the origin. A net that measures decodes exactly when every
      face's window lies inside its lines. */
  function DecodeNet(content: string): (r: Result<Room, NetError>)
    ensures r.Ok? ==> r.value.AtOrigin()
    ensures r.Ok? ==> Measure(NetLines(content), |RemoveLineBreaks(content)|) == Ok(Dims(r.value.width, r.value.depth, r.value.height))
    ensures r.Ok? ==> forall f :: Window(NetLines(content), r.value.Window(f).x, r.value.Window(f).y,
                                         r.value.Window(f).wdt, r.value.Window(f).hgt) == Some(r.value.Cells(f))
    ensures Measure(NetLines(content), |RemoveLineBreaks(content)|).Err? ==>
      r == Err(Measure(NetLines(content), |RemoveLineBreaks(content)|).error)
    ensures Measure(NetLines(content), |RemoveLineBreaks(content)|).Ok? ==>
      r == SliceFaces(NetLines(content), Measure(NetLines(content), |RemoveLineBreaks(content)|).value)
  {
    var d :- Measure(NetLines(content), |RemoveLineBreaks(content)|);
    SliceFaces(NetLines(content), d)
  }

  /** Every face's window at size `d` lies inside the lines. */
  predicate AllFit(lines: seq<string>, d: Dims) {
    forall f :: FaceWindow(lines, d, f).Some?
  }

  /** A net decodes exactly when it has a size and every face's window at
      that size lies inside its lines. */
  lemma DecodeAccepts(content: string)
    ensures DecodeNet(content).Ok? <==>
      exists d :: Measured(NetLines(content), |RemoveLineBreaks(content)|, d) && AllFit(NetLines(content), d)
  {
    var lines, count := NetLines(content), |RemoveLineBreaks(content)|;
    var m := Measure(lines, count);
    if DecodeNet(content).Ok? {
      assert m.Ok? && AllFit(lines, m.value);
      assert Measured(lines, count, m.value);
    }
    if exists d :: Measured(lines, count, d) && AllFit(lines, d) {
      var d :| Measured(lines, count, d) && AllFit(lines, d);
      assert m.Ok?;
      MeasuredUnique(lines, count, d, m.value);
      assert SliceFaces(lines, d).Ok?;
    }
  }

  /** Every symbol of a decoded room lies inside its face and is never a
      border or filler character. */
  lemma DecodedCellsInsideFaces(content: string, f: Face)
    requires DecodeNet(content).Ok?
    ensures var room := DecodeNet(content).value;
      forall i :: 0 <= i < |room.Cells(f)| ==>
        && room.Cells(f)[i].col < room.Window(f).wdt
        && room.Cells(f)[i].row < room.Window(f).hgt
        && !Ignored(room.Cells(f)[i].ch)
  {
    var room := DecodeNet(content).value;
    var w := room.Window(f);
    assert Some(room.Cells(f)) == Window(NetLines(content), w.x, w.y, w.wdt, w.hgt);
  }
}
