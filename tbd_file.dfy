/** The multi-document envelope of a .tbd file: splitting raw text into
    segments at the sentinel lines, decoding each segment into a document,
    appending an architecture to every document, and serialising the
    documents back into the envelope. */
module TbdFile {
  import opened Wrappers
  import opened Text
  import opened Tbd

  /** The line that opens each document. */
  const Header: string := "--- !tapi-tbd-v3"
  /** The line that ends the envelope. */
  const Terminator: string := "..."

  /** Why a text is not an envelope: it lacks the leading header, or the
      structured-data decoder refused one segment (its message is kept). */
  datatype ParseError = InvalidHeader | DecodeFailed(reason: string)

  /** The structured-data decoder (`yaml.safe_load`), passed in: it either
      yields a document or fails with a message. */
  type Decoder = string -> Result<Document, string>
  /** The structured-data encoder (`yaml.dump`), passed in; it is total. */
  type Encoder = Document -> string

  /** A line that starts with the header is a segment boundary. */
  predicate IsBoundary(line: string)
  {
    StartsWith(line, Header)
  }

  /** A line that starts with `...` ends the envelope. */
  predicate IsTerminator(line: string)
  {
    StartsWith(line, Terminator)
  }

  /** Any other line belongs to the current segment. */
  predicate IsContent(line: string)
  {
    !IsBoundary(line) && !IsTerminator(line)
  }

  /** The segments the parser commits while scanning `lines` with `pending`
      already buffered: a boundary commits a non-empty buffer, the first
      terminator commits the buffer (even an empty one) and stops, any other
      line is buffered followed by a newline, and a buffer still pending at
      the end of the input is dropped. */
  function SegmentsFrom(lines: seq<string>, pending: string): seq<string>
    decreases |lines|
  {
    if lines == [] then []
    else if IsBoundary(lines[0]) then
      (if pending != "" then [pending] else []) + SegmentsFrom(lines[1..], "")
    else if IsTerminator(lines[0]) then [pending]
    else SegmentsFrom(lines[1..], pending + lines[0] + "\n")
  }

  /** The segments of a whole text, split into lines at each newline. */
  function Segments(text: string): seq<string>
  {
    SegmentsFrom(Lines(text), "")
  }

  /** Decoding the segments in order; the first failure is the result. */
  function DecodeAll(segments: seq<string>, decode: Decoder): Result<seq<Document>, string>
    decreases |segments|
  {
    if segments == [] then Ok([])
    else
      match decode(segments[0])
      case Err(e) => Err(e)
      case Ok(d) =>
        match DecodeAll(segments[1..], decode)
        case Err(e) => Err(e)
        case Ok(ds) => Ok([d] + ds)
  }

  /** Decoding succeeds with one document per segment, in order, exactly
      when every segment decodes; otherwise the result is the failure of the
      first segment that does not. */
  lemma {:induction false} DecodeAllMeaning(segments: seq<string>, decode: Decoder)
    ensures var r := DecodeAll(segments, decode);
      && (r.Ok? ==>
        && |r.value| == |segments|
        && forall i :: 0 <= i < |segments| ==> decode(segments[i]) == Ok(r.value[i]))
      && (r.Err? ==>
        exists i :: 0 <= i < |segments| && decode(segments[i]) == Err(r.error)
          && forall j :: 0 <= j < i ==> decode(segments[j]).Ok?)
    decreases |segments|
  {
    if segments != [] {
      DecodeAllMeaning(segments[1..], decode);
      var r := DecodeAll(segments, decode);
      var rest := DecodeAll(segments[1..], decode);
      if decode(segments[0]).Ok? && rest.Err? {
        var i :| 0 <= i < |segments[1..]| && decode(segments[1..][i]) == Err(rest.error)
          && forall j :: 0 <= j < i ==> decode(segments[1..][j]).Ok?;
        assert decode(segments[i + 1]) == Err(r.error);
        forall j | 0 <= j < i + 1 ensures decode(segments[j]).Ok? {
          if j > 0 { assert segments[j] == segments[1..][j - 1]; }
        }
      }
      if r.Ok? {
        forall i | 0 <= i < |segments| ensures decode(segments[i]) == Ok(r.value[i]) {
          if i > 0 { assert segments[i] == segments[1..][i - 1]; }
        }
      }
    }
  }

  /** What constructing a TBD file from `text` yields: the header check
      first, then the decoded segments in input order. */
  function Parse(text: string, decode: Decoder): (r: Result<seq<Document>, ParseError>)
    ensures r == Err(InvalidHeader) <==> !StartsWith(text, Header)
  {
    if !StartsWith(text, Header) then Err(InvalidHeader)
    else
      match DecodeAll(Segments(text), decode)
      case Ok(ds) => Ok(ds)
      case Err(e) => Err(DecodeFailed(e))
  }

  /** `docs` followed by the documents of `r`, or the failure of `r`. */
  function Preceded(docs: seq<Document>, r: Result<seq<Document>, string>): Result<seq<Document>, string>
  {
    match r
    case Ok(ds) => Ok(docs + ds)
    case Err(e) => Err(e)
  }

  /** The text the serialiser emits for one document: the header line, the
      encoded document, and a newline. */
  function Block(d: Document, encode: Encoder): string
  {
    Header + "\n" + encode(d) + "\n"
  }

  /** The blocks of all documents, in order. */
  function Blocks(docs: seq<Document>, encode: Encoder): string
    decreases |docs|
  {
    if docs == [] then "" else Block(docs[0], encode) + Blocks(docs[1..], encode)
  }

  /** The serialised envelope: the blocks, then the terminator line. */
  function Serialized(docs: seq<Document>, encode: Encoder): string
  {
    Blocks(docs, encode) + Terminator + "\n"
  }

  /** Every document after a bulk `append_arch`. */
  function AppendArchToAll(docs: seq<Document>, arch: string): (r: seq<Document>)
    ensures |r| == |docs|
    ensures forall i :: 0 <= i < |docs| ==> r[i] == WithArchAppended(docs[i], arch)
  {
    seq(|docs|, i requires 0 <= i < |docs| => WithArchAppended(docs[i], arch))
  }

  /** A TBD file: the ordered document objects of one envelope. */
  class TBDFile {
    var tbds: seq<TBD>

    /** An envelope with no documents yet. */
    constructor ()
      ensures tbds == []
    {
      tbds := [];
    }

    /** The document objects are distinct: the file owns each of them. */
    ghost predicate Valid()
      reads this
    {
      forall i, j :: 0 <= i < j < |tbds| ==> tbds[i] != tbds[j]
    }

    /** The documents held, in order. */
    function Documents(): seq<Document>
      reads this, tbds
    {
      seq(|tbds|, i reads this, tbds requires 0 <= i < |tbds| => tbds[i].data)
    }

    /** Appends a new document object holding `d` (`self.tbds.append(TBD(d))`). */
    method AddDocument(d: Document)
      requires Valid()
      modifies this
      ensures Valid()
      ensures |tbds| == |old(tbds)| + 1 && tbds == old(tbds) + [tbds[|old(tbds)|]]
      ensures fresh(tbds[|old(tbds)|])
      ensures Documents() == old(Documents()) + [d]
    {
      var t := new TBD(d);
      tbds := tbds + [t];
    }

    /** `append_arch` on the file: `append_arch` on each document in turn. */
    method AppendArch(arch: string)
      requires Valid()
      modifies set t | t in tbds
      ensures tbds == old(tbds)
      ensures Documents() == AppendArchToAll(old(Documents()), arch)
    {
      var i := 0;
      while i < |tbds|
        invariant 0 <= i <= |tbds|
        invariant forall j :: 0 <= j < i ==> tbds[j].data == WithArchAppended(old(tbds[j].data), arch)
        invariant forall j :: i <= j < |tbds| ==> tbds[j].data == old(tbds[j].data)
      {
        tbds[i].AppendArch(arch);
        i := i + 1;
      }
    }

    /** `serialize`: builds the envelope text block by block. */
    method Serialize(encode: Encoder) returns (s: string)
      ensures s == Serialized(Documents(), encode)
    {
      ghost var docs := Documents();
      s := "";
      var i := 0;
      while i < |tbds|
        invariant 0 <= i <= |tbds|
        invariant s + Blocks(docs[i..], encode) == Blocks(docs, encode)
      {
        ghost var before := s;
        BlocksFrom(docs, i, encode);
        s := s + Header + "\n";
        s := s + encode(tbds[i].data) + "\n";
        assert s == before + Block(docs[i], encode);
        i := i + 1;
      }
      assert docs[i..] == [];
      s := s + Terminator + "\n";
    }
  }

  /** The blocks from document `i` on: its block, then those after it. */
  lemma BlocksFrom(docs: seq<Document>, i: nat, encode: Encoder)
    requires i < |docs|
    ensures Blocks(docs[i..], encode) == Block(docs[i], encode) + Blocks(docs[i + 1..], encode)
  {
    assert docs[i..][1..] == docs[i + 1..];
  }

  /** One scanning step of SegmentsFrom at line `i`. */
  lemma SegmentsFromAt(lines: seq<string>, i: nat, pending: string)
    requires i < |lines|
    ensures SegmentsFrom(lines[i..], pending) ==
      if IsBoundary(lines[i]) then
        (if pending != "" then [pending] else []) + SegmentsFrom(lines[i + 1..], "")
      else if IsTerminator(lines[i]) then [pending]
      else SegmentsFrom(lines[i + 1..], pending + lines[i] + "\n")
  {
    assert lines[i..][1..] == lines[i + 1..];
  }

  /** Committing one segment in front of the rest: its document joins the
      ones already decoded, or its failure is the result. */
  lemma PrecededCommit(docs: seq<Document>, segment: string, rest: seq<string>, decode: Decoder)
    ensures decode(segment).Err? ==>
      Preceded(docs, DecodeAll([segment] + rest, decode)) == Err(decode(segment).error)
    ensures decode(segment).Ok? ==>
      Preceded(docs, DecodeAll([segment] + rest, decode)) ==
      Preceded(docs + [decode(segment).value], DecodeAll(rest, decode))
  {
    assert ([segment] + rest)[1..] == rest;
    match decode(segment) {
      case Err(_) =>
      case Ok(d) =>
        match DecodeAll(rest, decode) {
          case Err(_) =>
          case Ok(ds) => assert docs + ([d] + ds) == docs + [d] + ds;
        }
    }
  }

  /** Constructing a TBD file from text (the Python constructor): rejects a
      text without the leading header, then scans the lines, buffering
      content lines, committing a decoded document at each boundary with a
      non-empty buffer and at the first terminator, where it stops. */
  method Load(buf: string, decode: Decoder) returns (r: Result<TBDFile, ParseError>)
    ensures Parse(buf, decode).Err? ==> r == Err(Parse(buf, decode).error)
    ensures Parse(buf, decode).Ok? ==>
      && r.Ok? && fresh(r.value) && r.value.Valid()
      && r.value.Documents() == Parse(buf, decode).value
      && forall t :: t in r.value.tbds ==> fresh(t)
  {
    if !StartsWith(buf, Header) {
      return Err(InvalidHeader);
    }
    var file := new TBDFile();
    var lines := Lines(buf);
    var pending := "";
    ghost var docs: seq<Document> := [];
    var i := 0;
    ghost var goal := DecodeAll(SegmentsFrom(lines, ""), decode);
    assert lines[i..] == lines;
    match goal {
      case Ok(ds) => assert [] + ds == ds;
      case Err(_) =>
    }
    while i < |lines|
      invariant 0 <= i <= |lines|
      invariant fresh(file) && file.Valid() && forall t :: t in file.tbds ==> fresh(t)
      invariant file.Documents() == docs
      invariant goal == Preceded(docs, DecodeAll(SegmentsFrom(lines[i..], pending), decode))
    {
      var line := lines[i];
      SegmentsFromAt(lines, i, pending);
      if StartsWith(line, Header) {
        if pending != "" {
          PrecededCommit(docs, pending, SegmentsFrom(lines[i + 1..], ""), decode);
          match decode(pending) {
            case Err(e) =>
              return Err(DecodeFailed(e));
            case Ok(d) =>
              file.AddDocument(d);
              docs := docs + [d];
          }
          pending := "";
        } else {
          assert [] + SegmentsFrom(lines[i + 1..], "") == SegmentsFrom(lines[i + 1..], "");
        }
      } else if StartsWith(line, Terminator) {
        PrecededCommit(docs, pending, [], decode);
        match decode(pending) {
          case Err(e) =>
            return Err(DecodeFailed(e));
          case Ok(d) =>
            file.AddDocument(d);
            docs := docs + [d];
        }
        assert docs + [] == docs;
        break;
      } else {
        pending := pending + line + "\n";
      }
      i := i + 1;
    }
    assert i == |lines| ==> lines[i..] == [] && docs + [] == docs;
    return Ok(file);
  }
}
