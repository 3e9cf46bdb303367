/** Properties of the envelope parser and serialiser: how segments are cut,
    what the serialised text looks like, and when serialising then parsing
    gives the documents back. */
module TbdFileProperties {
  import opened Wrappers
  import opened Text
  import opened Tbd
  import opened TbdFile

  /** No line of an encoded document starts with a sentinel. */
  predicate NoSentinelLines(text: string)
  {
    forall i :: 0 <= i < |Lines(text)| ==> IsContent(Lines(text)[i])
  }

  /** One segment per document: its encoding followed by a newline. */
  function EncodedSegments(docs: seq<Document>, encode: Encoder): seq<string>
  {
    seq(|docs|, i requires 0 <= i < |docs| => encode(docs[i]) + "\n")
  }

  /** The header test and the terminator test never both hold, so the order
      in which the parser applies them cannot be observed. */
  lemma SentinelsAreExclusive(line: string)
    ensures !(IsBoundary(line) && IsTerminator(line))
  {
    assert IsBoundary(line) ==> line[0] == Header[0];
    assert IsTerminator(line) ==> line[0] == Terminator[0];
  }

  /** Content lines are buffered, each followed by a newline. */
  lemma {:induction false} ContentAccumulates(plain: seq<string>, rest: seq<string>, pending: string)
    requires forall i :: 0 <= i < |plain| ==> IsContent(plain[i])
    ensures SegmentsFrom(plain + rest, pending) == SegmentsFrom(rest, pending + Terminated(plain))
    decreases |plain|
  {
    if plain == [] {
      assert plain + rest == rest;
      assert pending + "" == pending;
    } else {
      assert (plain + rest)[0] == plain[0];
      assert (plain + rest)[1..] == plain[1..] + rest;
      ContentAccumulates(plain[1..], rest, pending + plain[0] + "\n");
      assert pending + plain[0] + "\n" + Terminated(plain[1..]) == pending + Terminated(plain);
    }
  }

  /** A boundary line commits the buffer only when it is non-empty, and is
      itself not buffered. */
  lemma BoundaryCommitsNonEmptyBuffer(line: string, rest: seq<string>, pending: string)
    requires IsBoundary(line)
    ensures SegmentsFrom([line] + rest, pending) ==
      (if pending == "" then [] else [pending]) + SegmentsFrom(rest, "")
  {
    assert ([line] + rest)[1..] == rest;
  }

  /** The first terminator line commits the buffered content lines, even
      when there are none, and everything after it is ignored. */
  lemma TerminatorCommitsAndStops(plain: seq<string>, line: string, rest: seq<string>, pending: string)
    requires forall i :: 0 <= i < |plain| ==> IsContent(plain[i])
    requires IsTerminator(line)
    ensures SegmentsFrom(plain + [line] + rest, pending) == [pending + Terminated(plain)]
  {
    SentinelsAreExclusive(line);
    assert plain + [line] + rest == plain + ([line] + rest);
    ContentAccumulates(plain, [line] + rest, pending);
  }

  /** Content still buffered when the input ends is dropped. */
  lemma UnterminatedBufferDropped(plain: seq<string>, pending: string)
    requires forall i :: 0 <= i < |plain| ==> IsContent(plain[i])
    ensures SegmentsFrom(plain, pending) == []
  {
    assert plain + [] == plain;
    ContentAccumulates(plain, [], pending);
  }

  /** An envelope with a header but neither a further header nor a terminator
      holds no documents: such a text is accepted and yields an empty file. */
  lemma UnterminatedEnvelopeIsEmpty(text: string, decode: Decoder)
    requires StartsWith(text, Header)
    requires forall i :: 1 <= i < |Lines(text)| ==> IsContent(Lines(text)[i])
    ensures Parse(text, decode) == Ok([])
  {
    var lines := Lines(text);
    FirstLineStartsWith(text, Header);
    assert lines == [lines[0]] + lines[1..];
    BoundaryCommitsNonEmptyBuffer(lines[0], lines[1..], "");
    UnterminatedBufferDropped(lines[1..], "");
  }

  /** The text that is only the header line is an empty envelope. */
  lemma HeaderOnlyEnvelopeIsEmpty(decode: Decoder)
    ensures Parse(Header, decode) == Ok([])
  {
    LinesOfSingleLine(Header);
    UnterminatedEnvelopeIsEmpty(Header, decode);
  }

  /** The terminator line followed by a newline splits into that line and
      an empty piece. */
  lemma LinesOfTerminatorLine()
    ensures Lines(Terminator + "\n") == [Terminator, ""]
  {
    assert Terminator + "\n" == Terminator + "\n" + "";
    LinesOfConcat(Terminator, "");
    LinesOfSingleLine(Terminator);
  }

  /** The lines of a header line followed at once by the terminator line. */
  lemma LinesOfEarlyTerminator()
    ensures Lines(Header + "\n" + Terminator + "\n") == [Header, Terminator, ""]
  {
    var t := Terminator + "\n";
    assert Header + "\n" + Terminator + "\n" == Header + "\n" + t;
    LinesAfterHeader(t);
    LinesOfTerminatorLine();
  }

  /** A header line followed at once by the terminator line commits the
      empty segment. */
  lemma SegmentsOfEarlyTerminator()
    ensures Segments(Header + "\n" + Terminator + "\n") == [""]
  {
    LinesOfEarlyTerminator();
    var lines: seq<string> := [Header, Terminator, ""];
    assert IsBoundary(Header);
    assert IsTerminator(Terminator) && !IsBoundary(Terminator);
    assert lines[1..] == [Terminator, ""];
    assert SegmentsFrom([Terminator, ""], "") == [""];
    assert SegmentsFrom(lines, "") == [] + SegmentsFrom(lines[1..], "");
  }

  /** So the file made from that text holds whatever the decoder makes of
      the empty segment, or fails with its error. */
  lemma EarlyTerminatorCommitsEmptySegment(decode: Decoder)
    ensures decode("").Ok? ==>
      Parse(Header + "\n" + Terminator + "\n", decode) == Ok([decode("").value])
    ensures decode("").Err? ==>
      Parse(Header + "\n" + Terminator + "\n", decode) == Err(DecodeFailed(decode("").error))
  {
    var text := Header + "\n" + Terminator + "\n";
    SegmentsOfEarlyTerminator();
    assert text[..|Header|] == Header;
    assert [""][1..] == [];
    match decode("") {
      case Err(_) =>
      case Ok(d) =>
        assert DecodeAll([""], decode) == Ok([d] + []);
        assert [d] + [] == [d];
        assert StartsWith(text, Header);
        assert Parse(text, decode) == Ok([d]);
    }
  }

  /** The serialised envelope ends with the terminator line. */
  lemma SerializedEndsWithTerminator(docs: seq<Document>, encode: Encoder)
    ensures var s := Serialized(docs, encode); |s| >= 4 && s[|s| - 4..] == "...\n"
  {
    var s := Serialized(docs, encode);
    assert s[|s| - 4..] == (Terminator + "\n");
  }

  /** Without documents the serialised envelope is the terminator line alone. */
  lemma SerializeNoDocuments(encode: Encoder)
    ensures Serialized([], encode) == "...\n"
  {
  }

  /** The serialised text of a first document and the rest. */
  lemma SerializedCons(d: Document, rest: seq<Document>, encode: Encoder)
    ensures Serialized([d] + rest, encode) ==
      Header + "\n" + (encode(d) + "\n" + Serialized(rest, encode))
  {
    assert ([d] + rest)[1..] == rest;
  }

  /** A text that starts with the header line splits into that line and
      the lines of the remainder. */
  lemma LinesAfterHeader(t: string)
    ensures Lines(Header + "\n" + t) == [Header] + Lines(t)
  {
    HeaderIsOneLine();
    LinesAfterLine(Header, t);
  }

  /** The header holds no newline. */
  lemma HeaderIsOneLine()
    ensures '\n' !in Header
  {
  }

  /** A newline-free line followed by a newline splits off as one piece. */
  lemma LinesAfterLine(h: string, t: string)
    requires '\n' !in h
    ensures Lines(h + "\n" + t) == [h] + Lines(t)
  {
    LinesOfConcat(h, t);
    LinesOfSingleLine(h);
  }

  /** How the serialised text of a first document and the rest splits into
      lines: the header, the lines of the encoding, the lines of the rest. */
  lemma LinesOfSerialized(d: Document, rest: seq<Document>, encode: Encoder)
    ensures Lines(Serialized([d] + rest, encode)) ==
      [Header] + Lines(encode(d)) + Lines(Serialized(rest, encode))
  {
    var tail := Serialized(rest, encode);
    var body := encode(d) + "\n" + tail;
    SerializedCons(d, rest, encode);
    LinesAfterHeader(body);
    LinesOfConcat(encode(d), tail);
  }

  /** Scanning a serialised envelope up to the second header or the
      terminator buffers exactly the first document's encoding and a newline. */
  lemma SegmentsAfterFirst(d: Document, rest: seq<Document>, encode: Encoder)
    requires NoSentinelLines(encode(d))
    ensures Segments(Serialized([d] + rest, encode)) ==
      SegmentsFrom(Lines(Serialized(rest, encode)), encode(d) + "\n")
  {
    var le := Lines(encode(d));
    var lr := Lines(Serialized(rest, encode));
    LinesOfSerialized(d, rest, encode);
    assert [Header] + le + lr == [Header] + (le + lr);
    BoundaryCommitsNonEmptyBuffer(Header, le + lr, "");
    ContentAccumulates(le, lr, "");
    TerminatedLines(encode(d));
    assert "" + Terminated(le) == encode(d) + "\n";
  }

  /** The lines of the envelope without documents. */
  lemma LinesOfEmptySerialized(encode: Encoder)
    ensures Lines(Serialized([], encode)) == [Terminator, ""]
  {
    assert Serialized([], encode) == Terminator + "\n" + "";
    LinesOfConcat(Terminator, "");
    LinesOfSingleLine(Terminator);
  }

  /** The envelope of one document has that document's segment only. */
  lemma SegmentsOfSingleSerialized(d: Document, encode: Encoder)
    requires NoSentinelLines(encode(d))
    ensures Segments(Serialized([d], encode)) == [encode(d) + "\n"]
  {
    assert [d] == [d] + [];
    SegmentsAfterFirst(d, [], encode);
    LinesOfEmptySerialized(encode);
  }

  /** With more documents following, the first segment is committed by the
      next header, and scanning goes on as for the rest alone. */
  lemma SegmentsOfLongerSerialized(d: Document, rest: seq<Document>, encode: Encoder)
    requires rest != []
    requires NoSentinelLines(encode(d))
    ensures Segments(Serialized([d] + rest, encode)) ==
      [encode(d) + "\n"] + Segments(Serialized(rest, encode))
  {
    SegmentsAfterFirst(d, rest, encode);
    FirstLineOfSerialized(rest, encode);
    CommitAtBoundary(Lines(Serialized(rest, encode)), encode(d) + "\n");
  }

  /** The first line of the envelope of one or more documents is the header. */
  lemma FirstLineOfSerialized(docs: seq<Document>, encode: Encoder)
    requires docs != []
    ensures Lines(Serialized(docs, encode))[0] == Header
  {
    assert docs == [docs[0]] + docs[1..];
    LinesOfSerialized(docs[0], docs[1..], encode);
  }

  /** At a boundary line a non-empty buffer is committed ahead of what
      scanning from an empty buffer gives. */
  lemma CommitAtBoundary(lines: seq<string>, pending: string)
    requires |lines| >= 1 && IsBoundary(lines[0])
    requires pending != ""
    ensures SegmentsFrom(lines, pending) == [pending] + SegmentsFrom(lines, "")
  {
    assert IsBoundary(Header);
  }

  /** Re-splitting a serialised envelope gives back one segment per
      document, its encoding followed by a newline, as long as no line of any
      encoding starts with a sentinel. */
  lemma {:induction false} SegmentsOfSerialized(docs: seq<Document>, encode: Encoder)
    requires |docs| >= 1
    requires forall i :: 0 <= i < |docs| ==> NoSentinelLines(encode(docs[i]))
    ensures Segments(Serialized(docs, encode)) == EncodedSegments(docs, encode)
    decreases |docs|
  {
    var d := docs[0];
    var rest := docs[1..];
    if rest == [] {
      assert docs == [d];
      SegmentsOfSingleSerialized(d, encode);
    } else {
      assert docs == [d] + rest;
      SegmentsOfSerialized(rest, encode);
      SegmentsOfLongerSerialized(d, rest, encode);
      assert EncodedSegments(docs, encode) == [encode(d) + "\n"] + EncodedSegments(rest, encode);
    }
  }

  /** Round trip: when every encoding is free of sentinel lines and decodes
      (with the blank separator line) back to its document, parsing the
      serialised envelope of one or more documents yields those documents. */
  lemma SerializeThenParse(docs: seq<Document>, encode: Encoder, decode: Decoder)
    requires |docs| >= 1
    requires forall i :: 0 <= i < |docs| ==>
      NoSentinelLines(encode(docs[i])) && decode(encode(docs[i]) + "\n") == Ok(docs[i])
    ensures Parse(Serialized(docs, encode), decode) == Ok(docs)
  {
    var s := Serialized(docs, encode);
    assert docs == [docs[0]] + docs[1..];
    assert s == Header + ("\n" + encode(docs[0]) + "\n" + Blocks(docs[1..], encode) + Terminator + "\n");
    assert StartsWith(s, Header);
    SegmentsOfSerialized(docs, encode);
    var segments := EncodedSegments(docs, encode);
    DecodeAllMeaning(segments, decode);
    var r := DecodeAll(segments, decode);
    assert r.value == docs;
  }

  /** The round trip fails for an envelope without documents: the header-only
      text parses to no documents, but the serialised empty envelope lacks
      the header and is rejected. */
  lemma EmptyEnvelopeDoesNotRoundTrip(encode: Encoder, decode: Decoder)
    ensures Parse(Header, decode) == Ok([])
    ensures Parse(Serialized([], encode), decode) == Err(InvalidHeader)
  {
    HeaderOnlyEnvelopeIsEmpty(decode);
    assert Serialized([], encode)[0] == '.';
  }

  /** The bulk append keeps the number and order of documents, and doing it
      twice with the same architecture is doing it once. */
  lemma AppendArchToAllIdempotent(docs: seq<Document>, arch: string)
    ensures AppendArchToAll(AppendArchToAll(docs, arch), arch) == AppendArchToAll(docs, arch)
  {
    var once := AppendArchToAll(docs, arch);
    forall i | 0 <= i < |docs| ensures AppendArchToAll(once, arch)[i] == once[i] {
      AppendArchIdempotent(docs[i], arch);
    }
  }

  /** After a bulk append every document lists `arch`, consistently in all
      its groups unless it was already listed. */
  lemma AppendArchToAllEffect(docs: seq<Document>, arch: string)
    ensures forall i :: 0 <= i < |docs| ==> arch in ArchsOf(AppendArchToAll(docs, arch)[i])
    ensures forall i :: 0 <= i < |docs| && arch !in ArchsOf(docs[i]) ==>
      Consistent(AppendArchToAll(docs, arch)[i])
  {
    forall i | 0 <= i < |docs|
      ensures arch in ArchsOf(AppendArchToAll(docs, arch)[i])
      ensures arch !in ArchsOf(docs[i]) ==> Consistent(AppendArchToAll(docs, arch)[i])
    {
      AppendArchEffect(docs[i], arch);
    }
  }
}
