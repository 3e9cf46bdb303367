# pytbd core in Dafny

This project models the core of `pytbd`, a tool for TBD ("text-based dylib") stub files. The core has two parts.

- **The document model** (class `TBD`). One decoded document holds an architecture list (`archs`) and a list of export groups (`exports`). Setting the architecture list also overwrites the `archs` entry of every export group. `append_arch` adds an architecture unless it is already listed. `contains_symbol` asks whether some export group has a given name.
- **The multi-document envelope** (class `TBDFile`). Its constructor splits the text of a `.tbd` file into segments at lines that start with `--- !tapi-tbd-v3`, and stops at the first line that starts with `...`. It decodes each segment into a document. The file can append an architecture to every document, and it can serialise the documents back into the envelope.

Modules:

- `Wrappers` (`wrappers.dfy`): `Option` and `Result`.
- `Text` (`text.dfy`): Python's `str.startswith` is `StartsWith`, and `str.split('\n')` is `Lines`. The file also holds the inverse of `Lines` (`JoinLines`) and the lemmas that connect the two.
- `Tbd` (`tbd.dfy`): a document is a record. It has an optional `archs` list, an optional list of export groups (each group is a string-keyed mapping), and the other top-level entries, which are opaque. Pure functions give what each operation does to a document. The class `TBD` holds a `data: Document` field. Its methods update that field in place, as the Python methods do, and each method is proved against its pure function.
- `TbdFile` (`tbd_file.dfy`): the segmentation (`SegmentsFrom`), decoding (`DecodeAll`), the whole parse as a function (`Parse`), the serialised form (`Serialized`), and the class `TBDFile`, which holds its `TBD` objects in a sequence. `Load` is the parsing constructor.
- `TbdFileProperties` (`tbd_file_properties.dfy`): how segments are cut, the serialised form, and the round trip.

A document record stands for one mapping only when `others` repeats neither `archs` nor `exports` (`WellFormed`); the operations keep that property, and a record breaking it stands for no mapping.

The YAML library is not modelled. `yaml.safe_load` is a parameter `decode: string -> Result<Document, string>`, because it can fail. `yaml.dump` is a parameter `encode: Document -> string`. Every result that involves them is stated for any such functions. The round trip also assumes that each encoding decodes back, with the blank separator line appended.

The model follows the code as written, including these behaviours a reader might not expect:

- `contains_symbol` (pytbd/__main__.py:46-51) tests `symbol in exports`, where `exports` is a single group mapping. So it tests the group's keys, not its list of symbols, although the `find-symbol` command that calls it is described as locating the files "where the given symbol is exported from" (pytbd/__main__.py:118). In a document whose one group lists `archs` and the symbol `_foo`, the lookup of `_foo` is false and the lookup of `symbols` is true (`ExampleContainsSymbolTestsKeys`). After any architecture assignment, every group has the key `archs`, so `contains_symbol("archs")` is true for any document with a group (`ContainsSymbolAfterSetArchs`).
- Sentinel lines are recognised by prefix (`startswith`), not by exact match.
- An envelope can hold zero documents. For example, the header line alone parses to an empty file. Serialising an empty file gives `...\n`, which has no header and is rejected. So serialising then parsing gives the documents back only for one or more documents (`SerializeThenParse`, `EmptyEnvelopeDoesNotRoundTrip`).
- A header line followed at once by a `...` line commits the empty segment `""` (`SegmentsOfEarlyTerminator`), so the file holds what the decoder makes of the empty text (`EarlyTerminatorCommitsEmptySegment`).
- A decoding failure is propagated unchanged, with the decoder's message. It does not say which segment failed.
- A segment is the concatenation of `line + '\n'` over its lines. So a segment ends with a newline, and the serialised blank separator line becomes part of the segment: `encode(d) + "\n"`.
- The header test comes before the `...` test. No line passes both tests, because the header starts with `-` (`SentinelsAreExclusive`), so the order cannot be seen.

## Model

| member | source | states |
|---|---|---|
| `Text.StartsWith` | pytbd/__main__.py:59 | `str.startswith`, used by the header check on the whole text and by the sentinel tests at lines 66 and 70; pinned down by `FirstLineStartsWith` and `SentinelsAreExclusive` |
| `Text.Lines` | pytbd/__main__.py:65 | splitting on `'\n'` always yields at least one piece |
| `Text.LinesHaveNoNewline` | pytbd/__main__.py:65 | no piece of a split contains a newline |
| `Text.JoinLinesOfLines` | pytbd/__main__.py:65 | joining the pieces of a split with `'\n'` gives back the text |
| `Text.LinesOfJoinLines` | pytbd/__main__.py:65 | splitting a join of newline-free pieces gives back the pieces |
| `Text.LinesOfConcat` | pytbd/__main__.py:65 | the split of `a + "\n" + b` is the split of `a` followed by the split of `b` |
| `Text.TerminatedLines` | pytbd/__main__.py:74 | appending `'\n'` to every piece of a split and concatenating gives the text plus one newline |
| `Text.FirstLineStartsWith` | pytbd/__main__.py:59-66 | a text that starts with a newline-free prefix has a first line that starts with it |
| `Tbd.ArchsOf` | pytbd/__main__.py:31-33 | the getter returns the stored `archs` list, or the empty list exactly when the key is absent |
| `Tbd.WithArchs` | pytbd/__main__.py:35-40 | after the setter, top-level `archs` is the new list. Every group gains or overwrites `archs` with that list and keeps its other keys and values. The number and order of groups are unchanged, and so are the other top-level entries. A document without `exports` gets only the top-level write |
| `Tbd.WithArchAppended` | pytbd/__main__.py:42-44 | `append_arch` on a document; specified by `AppendPresentArchIsNoOp`, `AppendArchEffect`, `AppendArchIdempotent`, `AppendArchKeepsNoDuplicates`, `AppendArchKeepsConsistent` and `AppendArchKeepsWellFormed` |
| `Tbd.GroupsHaveKey` | pytbd/__main__.py:46-51 | `contains_symbol` on a document: some export group has the name as a key; specified by `NoExportsContainNothing`, `ContainsSymbolAfterSetArchs`, `ExampleContainsSymbolTestsKeys`, and computed by `Tbd.TBD.ContainsSymbol` |
| `Tbd.ConsistentGroupDeterminesArchs` | pytbd/__main__.py:37-40 | in consistent documents with groups, the list stored in the first group determines the top-level list |
| `Tbd.AppendArchKeepsWellFormed` | pytbd/__main__.py:42-44 | the append writes only the `archs` and `exports` entries, so the record still stands for one mapping |
| `Tbd.ExportsSymbol` | pytbd/__main__.py:118 | the lookup the `find-symbol` command is described as doing: some group's `symbols` list holds the name; specified by `ExampleKeyTestMissesExportedSymbol` and `ExportsSymbolAfterSetArchs` |
| `Tbd.ExampleKeyTestMissesExportedSymbol` | pytbd/__main__.py:46-51 | on the example, `_foo` is exported but the key test does not find it, and the key test finds `symbols`, which is not exported |
| `Tbd.ExportsSymbolAfterSetArchs` | pytbd/__main__.py:35-40 | the symbol lookup gives the same answer before and after the setter, for every name |
| `Tbd.ArchValueInjective` | pytbd/__main__.py:40 | the list written into a group determines the list that was assigned |
| `Tbd.SetArchsMakesConsistent` | pytbd/__main__.py:35-40 | after the setter, every group's `archs` equals the top-level list |
| `Tbd.SetArchsLastWins` | pytbd/__main__.py:35-40 | assigning two lists in turn equals assigning the second |
| `Tbd.SetArchsToCurrentIsIdentity` | pytbd/__main__.py:35-40 | on a consistent document with an `archs` entry, assigning its own list changes nothing |
| `Tbd.AppendPresentArchIsNoOp` | pytbd/__main__.py:42-44 | appending an architecture already in the top-level list leaves the document unchanged, even when the groups differ |
| `Tbd.AppendArchEffect` | pytbd/__main__.py:42-44 | after the append, `arch` is listed. The list is the old list, or the old list plus `arch` when `arch` was new, and then every group carries it |
| `Tbd.AppendArchIdempotent` | pytbd/__main__.py:42-44 | appending the same architecture twice equals appending it once |
| `Tbd.AppendArchKeepsNoDuplicates` | pytbd/__main__.py:42-44 | appending never introduces a duplicate into the top-level list |
| `Tbd.AppendArchKeepsConsistent` | pytbd/__main__.py:42-44 | appending keeps a consistent document consistent |
| `Tbd.NoExportsContainNothing` | pytbd/__main__.py:46-51 | without `exports` the lookup is false for every name |
| `Tbd.ContainsSymbolAfterSetArchs` | pytbd/__main__.py:35-51 | after the setter, the lookup finds a name exactly when it found it before, or when the name is `archs` and there is at least one group |
| `Tbd.ExampleAppendArm64` | pytbd/__main__.py:42-44 | in the libFoo example, appending arm64 gives `[x86_64, arm64]` both at the top level and in the group. The group's symbols and the install name are unchanged |
| `Tbd.ExampleContainsSymbolTestsKeys` | pytbd/__main__.py:46-51 | in the libFoo example, `_foo` and `_bar` are not found and `symbols` is found |
| `Tbd.TBD.constructor` | pytbd/__main__.py:27-28 | the object wraps the given mapping |
| `Tbd.TBD.SetArchs` | pytbd/__main__.py:35-40 | the in-place setter loop leaves `data` equal to `WithArchs` of the old data |
| `Tbd.TBD.AppendArch` | pytbd/__main__.py:42-44 | the in-place append leaves `data` equal to `WithArchAppended` of the old data |
| `Tbd.TBD.ContainsSymbol` | pytbd/__main__.py:46-51 | the early-return scan answers true exactly when some group has the name as a key. It changes nothing |
| `TbdFile.IsBoundary` | pytbd/__main__.py:66 | a line that starts with the header; `SentinelsAreExclusive`, `BoundaryCommitsNonEmptyBuffer` and `CommitAtBoundary` state how the scan treats it |
| `TbdFile.IsTerminator` | pytbd/__main__.py:70 | a line that starts with `...`; `SentinelsAreExclusive` and `TerminatorCommitsAndStops` state how the scan treats it |
| `TbdFile.IsContent` | pytbd/__main__.py:73-74 | any other line; `ContentAccumulates` states that it is buffered with `'\n'` |
| `TbdFile.Block` | pytbd/__main__.py:83-84 | the header line, the encoding and a newline for one document; pinned down by `BlocksFrom`, `LinesOfSerialized` and `TbdFile.TBDFile.Serialize` |
| `TbdFile.SegmentsFrom` | pytbd/__main__.py:64-74 | the scan over the lines; specified by `ContentAccumulates`, `BoundaryCommitsNonEmptyBuffer`, `CommitAtBoundary`, `TerminatorCommitsAndStops`, `UnterminatedBufferDropped` and `SegmentsOfSerialized`, and computed by `TbdFile.Load` |
| `TbdFile.Segments` | pytbd/__main__.py:64-74 | the scan over the split text; specified by `SegmentsOfSerialized`, `SegmentsOfEarlyTerminator` and `UnterminatedEnvelopeIsEmpty` |
| `TbdFile.DecodeAll` | pytbd/__main__.py:68-71 | the `safe_load` calls in segment order; specified by `DecodeAllMeaning` and `PrecededCommit` |
| `TbdFile.Blocks` | pytbd/__main__.py:82-84 | the per-document header line and encoding; specified by `LinesOfSerialized` and computed by `TbdFile.TBDFile.Serialize` |
| `TbdFile.Serialized` | pytbd/__main__.py:80-86 | the whole serialised text; specified by `SerializedEndsWithTerminator`, `SerializeNoDocuments`, `SegmentsOfSerialized`, `SerializeThenParse` and `EmptyEnvelopeDoesNotRoundTrip` |
| `TbdFile.DecodeAllMeaning` | pytbd/__main__.py:67-71 | decoding yields one document per segment, in order, exactly when every segment decodes. Otherwise it yields the failure of the first segment that does not |
| `TbdFile.Parse` | pytbd/__main__.py:58-74 | construction fails with the header error exactly when the text does not start with `--- !tapi-tbd-v3` |
| `TbdFile.PrecededCommit` | pytbd/__main__.py:67-72 | committing a segment adds its document after the earlier ones, or aborts with its decoding failure |
| `TbdFile.AppendArchToAll` | pytbd/__main__.py:76-78 | the bulk append keeps the number and order of documents and applies `append_arch` to each |
| `TbdFile.TBDFile.constructor` | pytbd/__main__.py:62 | a new file holds no documents |
| `TbdFile.TBDFile.AddDocument` | pytbd/__main__.py:68 | appending a fresh document object adds its document at the end and keeps the objects distinct |
| `TbdFile.TBDFile.AppendArch` | pytbd/__main__.py:76-78 | the loop over the document objects leaves the file's documents equal to `AppendArchToAll` of the old ones, with the same objects in the same order |
| `TbdFile.TBDFile.Serialize` | pytbd/__main__.py:80-86 | the concatenating loop returns `Serialized` of the file's documents: for each document its header line, `encode(d)` and a newline, then `...\n` |
| `TbdFile.Load` | pytbd/__main__.py:58-74 | the line-scanning constructor fails exactly as `Parse` does and produces no file. Otherwise it returns a fresh file of fresh, distinct objects whose documents are those of `Parse` |
| `TbdFileProperties.SentinelsAreExclusive` | pytbd/__main__.py:66-70 | no line starts with both the header and `...`, so the order of the two tests cannot be observed |
| `TbdFileProperties.ContentAccumulates` | pytbd/__main__.py:73-74 | lines other than sentinels are buffered as `line + '\n'` in order |
| `TbdFileProperties.BoundaryCommitsNonEmptyBuffer` | pytbd/__main__.py:66-69 | a header line commits the buffer only when it is non-empty, and the header line itself is not buffered |
| `TbdFileProperties.CommitAtBoundary` | pytbd/__main__.py:66-69 | at any line that starts with the header, a non-empty buffer becomes a segment ahead of the rest of the scan |
| `TbdFileProperties.TerminatorCommitsAndStops` | pytbd/__main__.py:70-72 | the first `...` line commits the buffered lines, even when there are none, and later text is ignored |
| `TbdFileProperties.UnterminatedBufferDropped` | pytbd/__main__.py:64-74 | a buffer still pending at the end of the input yields no segment |
| `TbdFileProperties.UnterminatedEnvelopeIsEmpty` | pytbd/__main__.py:58-74 | a text with the header but no further header and no `...` line parses to zero documents |
| `TbdFileProperties.HeaderOnlyEnvelopeIsEmpty` | pytbd/__main__.py:58-74 | the header line alone parses to zero documents |
| `TbdFileProperties.SegmentsOfEarlyTerminator` | pytbd/__main__.py:64-74 | a header line followed at once by `...` yields the single empty segment |
| `TbdFileProperties.EarlyTerminatorCommitsEmptySegment` | pytbd/__main__.py:58-74 | that text gives one document, the decoding of the empty text, or that decoding's failure |
| `TbdFileProperties.SerializedEndsWithTerminator` | pytbd/__main__.py:85 | the serialised text ends with `...\n` |
| `TbdFileProperties.SerializeNoDocuments` | pytbd/__main__.py:80-86 | with zero documents the serialised text is exactly `...\n` |
| `TbdFileProperties.LinesOfSerialized` | pytbd/__main__.py:80-86 | the serialised text splits into the header, the lines of the first encoding, and the lines of the rest |
| `TbdFileProperties.SegmentsOfSerialized` | pytbd/__main__.py:80-86 | re-splitting the serialised text of one or more documents yields one segment per document, `encode(d) + "\n"`, when no encoded line starts with a sentinel |
| `TbdFileProperties.SerializeThenParse` | pytbd/__main__.py:58-86 | under that condition, and when each encoding decodes back to its document, parsing the serialised text gives back the documents |
| `TbdFileProperties.EmptyEnvelopeDoesNotRoundTrip` | pytbd/__main__.py:58-86 | the header-only text parses to zero documents, but their serialised text `...\n` is rejected for lacking the header |
| `TbdFileProperties.AppendArchToAllIdempotent` | pytbd/__main__.py:76-78 | the bulk append twice with the same architecture equals the bulk append once |
| `TbdFileProperties.AppendArchToAllEffect` | pytbd/__main__.py:76-78 | after the bulk append, every document lists the architecture, and every document that lacked it is consistent across its groups |

## Findings

| source | as written | input that shows it | evidently intended | confidence | as-written member | corrected member |
|---|---|---|---|---|---|---|
| pytbd/__main__.py:49 | `symbol in exports` tests the export group's keys | a group `{archs: [x86_64], symbols: [_foo]}`: `_foo` is not found and `symbols` is found | find the files that export the symbol (the docstring at pytbd/__main__.py:118): the symbol is in the group's `symbols` list | medium, not executed | `Tbd.ExampleKeyTestMissesExportedSymbol` | `Tbd.ExportsSymbolAfterSetArchs` |

The class method `Tbd.TBD.ContainsSymbol` still models the code as written. `Tbd.ExportsSymbol` is the intended lookup. `Tbd.ExportsSymbolAfterSetArchs` proves that the setter never changes its answer, whereas it does change the key test's answer for `archs` (`ContainsSymbolAfterSetArchs`).

## Left out

- `yaml.safe_load` and `yaml.dump` (pytbd/__main__.py:68, 71, 84): a foreign library. The decoder and the encoder are parameters. The round trip assumes, per document, that the encoding decodes back.
- Python's dynamic typing of the decoded value. `archs` is modelled as a list of strings, `exports` as a list of string-keyed mappings, and the document as a mapping; the decoder must return an error or such a document. In Python, a segment may decode to something else, and `TBD` wraps it without error. The usual case is the empty segment that a header line followed at once by a `...` line commits (`SegmentsOfEarlyTerminator`): it decodes to `None`. For such a value the `archs` getter, the setter and `append_arch` raise (`AttributeError` or `TypeError`), and so does `contains_symbol` on `None` or a number. On a string or a list, `contains_symbol` returns False unless the text, or the list, holds `exports`. `serialize` writes `yaml.dump(None)` without failing, and the `json` command prints `null` (pytbd/__main__.py:111). None of this is modelled: a decoder that models the empty segment must either return an error or invent a document.
- Key order within mappings: the model's maps are unordered, while `yaml.dump` sorts keys when it writes them.
- Tbd.WithArchs and Tbd.TBD.SetArchs: decoded values are trees here. `yaml.safe_load` turns an alias (`*g`) into the same mapping object as its anchor (`&g`). So in Python an export group that is shared through an anchor with another top-level entry or another group also takes the setter's write of line 40 in those places, and `yaml.dump` writes it out in full (lines 13, 84). For such input the clauses `r.others == d.others` and "the group's other keys are unchanged" do not describe the program.
- The process-wide `ignore_aliases` setting (pytbd/__main__.py:13), and the sharing of one list object between the top level and the groups after the setter: under value semantics each group holds its own copy of the list.
- `print_json` and its colouring (pytbd/__main__.py:16-23): console output.
- The module-level `append_arch` directory walk with file reads and writes (pytbd/__main__.py:89-96): filesystem I/O.
- The command-line group and its commands (pytbd/__main__.py:99-136), and the logging setup (pytbd/__main__.py:10).
- The commented-out install-name rewrite (pytbd/__main__.py:29): dead code.
- The text of the `ValueError` message: the error is the constructor `InvalidHeader`.
- TbdFile.TBDFile.AppendArch: requires the file's document objects to be distinct. `Load` and `AddDocument` always produce such a file. A Python list that holds the same `TBD` object twice is not covered.
