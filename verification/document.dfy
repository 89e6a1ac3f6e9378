/** The document parser: sections, descriptions and room nets. */
module Document {
  import opened Wrappers
  import opened Text
  import opened Net

  /** A section is a description when its heading is one character long,
      and a room net otherwise; a room net carries the outcome of decoding
      its body. */
  datatype Section =
    | Description(symbol: char, body: string)
    | RoomNet(heading: string, content: string, decoded: Result<Room, NetError>)

  /** The descriptions by symbol and the rooms in parse order; a room's
      index in `rooms` is its id. */
  datatype Document = Document(descriptions: map<char, string>, rooms: seq<Room>)

  /** A room net that could not be decoded; it aborts the whole parse. */
  datatype ParseError = BadNet(heading: string, reason: NetError)

  /** The non-blank pieces, in order. */
  function NonBlank(pieces: seq<string>): (r: seq<string>)
    ensures forall i :: 0 <= i < |r| ==> !AllWhitespace(r[i])
    ensures forall i :: 0 <= i < |r| ==> r[i] in pieces
    ensures forall i :: 0 <= i < |pieces| && !AllWhitespace(pieces[i]) ==> pieces[i] in r
  {
    if pieces == [] then []
    else
      var rest := NonBlank(pieces[1..]);
      assert forall i :: 1 <= i < |pieces| ==> pieces[i] == pieces[1..][i - 1];
      if AllWhitespace(pieces[0]) then rest else [pieces[0]] + rest
  }

  /** One filtering step: the head piece is kept unless it is blank. */
  lemma NonBlankCons(piece: string, rest: seq<string>)
    ensures NonBlank([piece] + rest) == (if AllWhitespace(piece) then [] else [piece]) + NonBlank(rest)
  {
    assert ([piece] + rest)[1..] == rest;
  }

  /** Filtering two runs of pieces filters each and keeps them in order;
      with the one-piece case below this pins `NonBlank` down completely. */
  lemma {:induction false} NonBlankAppend(a: seq<string>, b: seq<string>)
    ensures NonBlank(a + b) == NonBlank(a) + NonBlank(b)
    decreases |a|
  {
    if a == [] {
      assert a + b == b;
    } else {
      var head := if AllWhitespace(a[0]) then [] else [a[0]];
      assert a + b == [a[0]] + (a[1..] + b);
      assert a == [a[0]] + a[1..];
      NonBlankCons(a[0], a[1..] + b);
      NonBlankCons(a[0], a[1..]);
      NonBlankAppend(a[1..], b);
      AppendAssoc(head, NonBlank(a[1..]), NonBlank(b));
    }
  }

  /** One piece is kept exactly when it is not blank. */
  lemma NonBlankOne(piece: string)
    ensures NonBlank([piece]) == if AllWhitespace(piece) then [] else [piece]
  {
    assert [piece][1..] == [];
  }

  /** The text cut at every '#' (not only one that starts a line), blank
      pieces dropped. */
  function Sections(text: string): seq<string> {
    NonBlank(SplitOn(text, '#'))
  }

  /** The lines of a trimmed section. */
  function SectionLines(section: string): seq<string> {
    Lines(Trim(section))
  }

  /** The first line of a section, trimmed; empty when there is none. */
  function Heading(section: string): (r: string)
    ensures '\n' !in r
    ensures r == [] || (!IsWhitespace(r[0]) && !IsWhitespace(r[|r| - 1]))
    ensures AllWhitespace(section) ==> r == []
  {
    var ls := SectionLines(section);
    if |ls| == 0 then [] else Trim(ls[0])
  }

  /** The remaining lines joined by '\n', trimmed. */
  function Body(section: string): (r: string)
    ensures r == [] || (!IsWhitespace(r[0]) && !IsWhitespace(r[|r| - 1]))
    ensures '\n' !in section ==> r == []
  {
    var ls := SectionLines(section);
    assert '\n' !in section ==> '\n' !in Trim(section) && |ls| <= 1;
    Trim(JoinWith(if |ls| == 0 then [] else ls[1..], '\n'))
  }

  /** A section with heading `name` and body `body`: a description when the
      heading is a single character, otherwise a room net to decode. */
  function ClassifyParts(name: string, body: string): (s: Section)
    ensures s.Description? <==> |name| == 1
    ensures s.Description? ==> [s.symbol] == name && s.body == body
    ensures s.RoomNet? ==> s.heading == name && s.content == body && s.decoded == DecodeNet(body)
  {
    if |name| == 1 then
      assert name == [name[0]];
      Description(name[0], body)
    else RoomNet(name, body, DecodeNet(body))
  }

  function Classify(section: string): Section {
    ClassifyParts(Heading(section), Body(section))
  }

  /** The sections of a text, classified. */
  function Classified(text: string): (secs: seq<Section>)
    ensures |secs| == |Sections(text)|
    ensures forall i :: 0 <= i < |secs| ==> secs[i] == Classify(Sections(text)[i])
  {
    var raw := Sections(text);
    seq(|raw|, i requires 0 <= i < |raw| => Classify(raw[i]))
  }

  /** Section `s` describes symbol `c`. */
  predicate Describes(s: Section, c: char) {
    s.Description? && s.symbol == c
  }

  /** The decoding outcomes of the room-net sections, in order. */
  function NetOutcomes(secs: seq<Section>): (nets: seq<Result<Room, NetError>>)
    ensures |nets| <= |secs|
  {
    if secs == [] then []
    else
      var prefix := NetOutcomes(secs[..|secs| - 1]);
      match secs[|secs| - 1]
      case Description(_, _) => prefix
      case RoomNet(_, _, decoded) => prefix + [decoded]
  }

  /** The outcomes of two runs of sections are those of each, in order. */
  lemma {:induction false} NetOutcomesAppend(a: seq<Section>, b: seq<Section>)
    ensures NetOutcomes(a + b) == NetOutcomes(a) + NetOutcomes(b)
    decreases |b|
  {
    if b == [] {
      assert a + b == a;
    } else {
      var n := |b| - 1;
      assert (a + b)[..|a + b| - 1] == a + b[..n];
      assert (a + b)[|a + b| - 1] == b[n];
      NetOutcomesAppend(a, b[..n]);
    }
  }

  /** A description contributes no outcome; a room net contributes its own. */
  lemma NetOutcomesOne(s: Section)
    ensures NetOutcomes([s]) == if s.RoomNet? then [s.decoded] else []
  {
    assert [s][..0] == [];
  }

  /** Fold the sections in order into a document: a description section
      (over)writes its symbol's text, a room-net section appends its decoded
      room, and the first net that failed to decode aborts. */
  function ParseSections(secs: seq<Section>): (r: Result<Document, ParseError>)
    ensures r.Ok? <==> forall k :: 0 <= k < |NetOutcomes(secs)| ==> NetOutcomes(secs)[k].Ok?
    ensures r.Ok? ==> |r.value.rooms| == |NetOutcomes(secs)|
    ensures r.Ok? ==> forall k :: 0 <= k < |r.value.rooms| ==> NetOutcomes(secs)[k] == Ok(r.value.rooms[k])
    ensures r.Err? ==>
      exists k :: (0 <= k < |NetOutcomes(secs)| && NetOutcomes(secs)[k] == Err(r.error.reason) &&
                   forall j :: 0 <= j < k ==> NetOutcomes(secs)[j].Ok?)
  {
    if secs == [] then Ok(Document(map[], []))
    else
      var prefix := secs[..|secs| - 1];
      match ParseSections(prefix)
      case Err(e) =>
        assert forall k :: 0 <= k < |NetOutcomes(prefix)| ==> NetOutcomes(secs)[k] == NetOutcomes(prefix)[k];
        Err(e)
      case Ok(doc) =>
        match secs[|secs| - 1]
        case Description(c, body) => Ok(doc.(descriptions := doc.descriptions[c := body]))
        case RoomNet(name, _, decoded) =>
          match decoded
          case Err(reason) =>
            var k := |NetOutcomes(secs)| - 1;
            assert NetOutcomes(secs)[k] == decoded;
            assert forall j :: 0 <= j < k ==> NetOutcomes(secs)[j] == NetOutcomes(prefix)[j];
            Err(BadNet(name, reason))
          case Ok(room) => Ok(doc.(rooms := doc.rooms + [room]))
  }

  /** The document a text describes. */
  function Parse(text: string): Result<Document, ParseError> {
    ParseSections(Classified(text))
  }

  /** A symbol has a description exactly when some section describes it,
      and then it is the body of the LAST such section. */
  lemma {:induction false} LastDescriptionWins(secs: seq<Section>, c: char)
    requires ParseSections(secs).Ok?
    ensures c in ParseSections(secs).value.descriptions <==>
      exists i :: 0 <= i < |secs| && Describes(secs[i], c)
    ensures c in ParseSections(secs).value.descriptions ==>
      exists i :: 0 <= i < |secs| && Describes(secs[i], c)
        && ParseSections(secs).value.descriptions[c] == secs[i].body
        && forall j :: i < j < |secs| ==> !Describes(secs[j], c)
    decreases |secs|
  {
    if secs != [] {
      var n := |secs| - 1;
      var prefix := secs[..n];
      assert forall i :: 0 <= i < n ==> secs[i] == prefix[i];
      LastDescriptionWins(prefix, c);
      var descs := ParseSections(secs).value.descriptions;
      if Describes(secs[n], c) {
        assert descs[c] == secs[n].body;
      } else {
        assert descs == ParseSections(prefix).value.descriptions || secs[n].Description?;
      }
    }
  }

  /** Every section's decoding outcome is that of its body. */
  predicate DecodedFromContent(secs: seq<Section>) {
    forall i :: 0 <= i < |secs| && secs[i].RoomNet? ==> secs[i].decoded == DecodeNet(secs[i].content)
  }

  /** Every room a net decodes to starts at the origin. */
  lemma {:induction false} OutcomesAtOrigin(secs: seq<Section>)
    requires DecodedFromContent(secs)
    ensures forall k :: 0 <= k < |NetOutcomes(secs)| && NetOutcomes(secs)[k].Ok? ==> NetOutcomes(secs)[k].value.AtOrigin()
    decreases |secs|
  {
    if secs != [] {
      var n := |secs| - 1;
      assert forall i :: 0 <= i < n ==> secs[..n][i] == secs[i];
      OutcomesAtOrigin(secs[..n]);
    }
  }

  /** Every parsed room is at the origin: parsing places nothing. */
  lemma ParsedRoomsAtOrigin(text: string)
    requires Parse(text).Ok?
    ensures forall k :: 0 <= k < |Parse(text).value.rooms| ==> Parse(text).value.rooms[k].AtOrigin()
  {
    var secs := Classified(text);
    forall i | 0 <= i < |secs| && secs[i].RoomNet? ensures secs[i].decoded == DecodeNet(secs[i].content) {
      assert secs[i] == ClassifyParts(Heading(Sections(text)[i]), Body(Sections(text)[i]));
    }
    OutcomesAtOrigin(secs);
  }
}
