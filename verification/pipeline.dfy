/** The whole core: parse the document, index its symbols, lay the rooms out. */
module Pipeline {
  import opened Wrappers
  import opened Net
  import opened Document
  import opened Index
  import opened Layout

  /** The document a text describes, with its rooms laid out. Parsing fails
      exactly when the text's parse fails; otherwise the descriptions, the
      number of rooms and every room's size and faces are those parsed, the
      first room stays at the origin, and so does every room that, for no
      symbol and no pairing, has a room below it with a matching pattern. */
  function Run(text: string): (r: Result<Document, ParseError>)
    ensures r.Ok? <==> Parse(text).Ok?
    ensures r.Err? ==> r.error == Parse(text).error
    ensures r.Ok? ==> r.value.descriptions == Parse(text).value.descriptions
    ensures r.Ok? ==> |r.value.rooms| == |Parse(text).value.rooms|
    ensures r.Ok? ==> forall i :: 0 <= i < |r.value.rooms| ==> r.value.rooms[i].SameShape(Parse(text).value.rooms[i])
    ensures r.Ok? && |r.value.rooms| > 0 ==> r.value.rooms[0].AtOrigin()
    ensures r.Ok? ==> forall i :: 0 <= i < |r.value.rooms| && Unlisted(Build(Parse(text).value.rooms), i) ==>
      r.value.rooms[i].AtOrigin()
    ensures r.Ok? ==> forall i :: 0 <= i < |r.value.rooms| && Unmatched(Parse(text).value.rooms, Build(Parse(text).value.rooms), i) ==>
      r.value.rooms[i].AtOrigin()
  {
    var doc :- Parse(text);
    ParsedRoomsAtOrigin(text);
    BuildSpec(doc.rooms);
    Ok(Document(doc.descriptions, Solve(doc.rooms, Build(doc.rooms))))
  }
}
