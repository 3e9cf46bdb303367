/** The TBD ("text-based dylib") document model: one decoded document of a
    .tbd file, its architecture list, its export groups, and the operations
    that keep the per-group architecture lists in step with the top-level one. */
module Tbd {
  import opened Wrappers

  /** A decoded structured-data value, as the YAML loader produces it. */
  datatype Value =
    | Null
    | Bool(b: bool)
    | Int(n: int)
    | Str(s: string)
    | List(items: seq<Value>)
    | Mapping(entries: map<string, Value>)

  /** One export group: a mapping whose `archs` entry the document keeps in
      step with the top-level list; every other entry is opaque here. */
  type Group = map<string, Value>

  /** One document. `archs` and `exports` are the two entries the core
      interprets (None when the key is absent); `others` holds every other
      top-level entry (install name, platform, ...) unchanged. */
  datatype Document = Document(
    archs: Option<seq<string>>,
    exports: Option<seq<Group>>,
    others: map<string, Value>)

  /** The key under which an export group keeps its architecture list. */
  const ArchsKey: string := "archs"
  /** The top-level key of the list of export groups. */
  const ExportsKey: string := "exports"

  /** The record stands for one mapping: `others` does not repeat the two
      keys held in their own fields, as a mapping holds each key once. */
  predicate WellFormed(d: Document)
  {
    ArchsKey !in d.others && ExportsKey !in d.others
  }

  /** An architecture list as the value stored in an export group. */
  function ArchValue(archs: seq<string>): Value
  {
    List(seq(|archs|, i requires 0 <= i < |archs| => Str(archs[i])))
  }

  /** The group value determines the list it was made from. */
  lemma ArchValueInjective(a: seq<string>, b: seq<string>)
    requires ArchValue(a) == ArchValue(b)
    ensures a == b
  {
    assert |a| == |ArchValue(a).items| == |b|;
    forall i | 0 <= i < |a| ensures a[i] == b[i] {
      assert ArchValue(a).items[i] == Str(a[i]);
      assert ArchValue(b).items[i] == Str(b[i]);
    }
  }

  /** The `archs` property getter: the stored list, or the empty list when
      the document has no `archs` entry. */
  function ArchsOf(d: Document): (r: seq<string>)
    ensures d.archs == Some(r) || (d.archs == None && r == [])
  {
    match d.archs
    case Some(archs) => archs
    case None => []
  }

  /** The document after the `archs` property setter: the top-level list is
      `archs`, and so is the `archs` entry of every export group. */
  function WithArchs(d: Document, archs: seq<string>): (r: Document)
    ensures ArchsOf(r) == archs && r.archs.Some?
    ensures r.others == d.others
    ensures r.exports.Some? <==> d.exports.Some?
    ensures d.exports.Some? ==>
      && |r.exports.value| == |d.exports.value|
      && forall i :: 0 <= i < |d.exports.value| ==>
        && r.exports.value[i].Keys == d.exports.value[i].Keys + {ArchsKey}
        && r.exports.value[i][ArchsKey] == ArchValue(archs)
        && forall k :: k in d.exports.value[i] && k != ArchsKey ==>
             r.exports.value[i][k] == d.exports.value[i][k]
  {
    var exports := match d.exports
      case None => None
      case Some(groups) =>
        Some(seq(|groups|, i requires 0 <= i < |groups| => groups[i][ArchsKey := ArchValue(archs)]));
    Document(Some(archs), exports, d.others)
  }

  /** Every export group carries the top-level architecture list. */
  predicate Consistent(d: Document)
  {
    d.exports.Some? ==>
      forall i :: 0 <= i < |d.exports.value| ==>
        ArchsKey in d.exports.value[i] && d.exports.value[i][ArchsKey] == ArchValue(ArchsOf(d))
  }

  /** In consistent documents with export groups, the architecture list one
      group stores determines the top-level list. */
  lemma ConsistentGroupDeterminesArchs(d: Document, e: Document)
    requires Consistent(d) && d.exports.Some? && |d.exports.value| > 0
    requires Consistent(e) && e.exports.Some? && |e.exports.value| > 0
    requires d.exports.value[0][ArchsKey] == e.exports.value[0][ArchsKey]
    ensures ArchsOf(d) == ArchsOf(e)
  {
    ArchValueInjective(ArchsOf(d), ArchsOf(e));
  }

  /** The document after `append_arch`: unchanged when `arch` is already in
      the top-level list, otherwise the list extended by `arch` and set
      through the setter. */
  function WithArchAppended(d: Document, arch: string): Document
  {
    if arch in ArchsOf(d) then d else WithArchs(d, ArchsOf(d) + [arch])
  }

  /** `contains_symbol` as the code has it: some export group has `symbol`
      among its KEYS (the group mapping itself is tested with `in`, not its
      list of symbols). */
  predicate GroupsHaveKey(d: Document, symbol: string)
  {
    d.exports.Some? && exists i :: 0 <= i < |d.exports.value| && symbol in d.exports.value[i]
  }

  predicate NoDuplicates(s: seq<string>)
  {
    forall i, j :: 0 <= i < j < |s| ==> s[i] != s[j]
  }

  /** After setting the list, the document is consistent: every group's list
      is the new one. */
  lemma SetArchsMakesConsistent(d: Document, archs: seq<string>)
    ensures Consistent(WithArchs(d, archs))
  {
  }

  /** Setting twice is setting once, with the second list. */
  lemma {:induction false} SetArchsLastWins(d: Document, first: seq<string>, second: seq<string>)
    ensures WithArchs(WithArchs(d, first), second) == WithArchs(d, second)
  {
    var once := WithArchs(d, second);
    var twice := WithArchs(WithArchs(d, first), second);
    if d.exports.Some? {
      var gs := d.exports.value;
      assert |twice.exports.value| == |gs| == |once.exports.value|;
      forall i | 0 <= i < |gs| ensures twice.exports.value[i] == once.exports.value[i] {
        assert twice.exports.value[i] == gs[i][ArchsKey := ArchValue(first)][ArchsKey := ArchValue(second)];
        assert once.exports.value[i] == gs[i][ArchsKey := ArchValue(second)];
      }
      assert twice.exports.value == once.exports.value;
    }
  }

  /** Setting a consistent document's own list back changes nothing. */
  lemma {:induction false} SetArchsToCurrentIsIdentity(d: Document)
    requires Consistent(d) && d.archs.Some?
    ensures WithArchs(d, ArchsOf(d)) == d
  {
    var r := WithArchs(d, ArchsOf(d));
    if d.exports.Some? {
      var gs := d.exports.value;
      forall i | 0 <= i < |gs| ensures r.exports.value[i] == gs[i] {
        assert r.exports.value[i] == gs[i][ArchsKey := ArchValue(ArchsOf(d))];
      }
      assert r.exports.value == gs;
    }
  }

  /** Appending an architecture that is already listed changes nothing, even
      when the groups' lists differ from the top-level one. */
  lemma AppendPresentArchIsNoOp(d: Document, arch: string)
    requires arch in ArchsOf(d)
    ensures WithArchAppended(d, arch) == d
  {
  }

  /** Appending puts `arch` at the end of the list when it is new, keeps the
      list otherwise, and propagates the list to every group when it changes. */
  lemma AppendArchEffect(d: Document, arch: string)
    ensures arch in ArchsOf(WithArchAppended(d, arch))
    ensures ArchsOf(WithArchAppended(d, arch)) ==
      if arch in ArchsOf(d) then ArchsOf(d) else ArchsOf(d) + [arch]
    ensures arch !in ArchsOf(d) ==> Consistent(WithArchAppended(d, arch))
  {
  }

  /** Appending twice with the same architecture is appending once. */
  lemma AppendArchIdempotent(d: Document, arch: string)
    ensures WithArchAppended(WithArchAppended(d, arch), arch) == WithArchAppended(d, arch)
  {
    AppendArchEffect(d, arch);
  }

  /** Appending never introduces a duplicate into the top-level list. */
  lemma AppendArchKeepsNoDuplicates(d: Document, arch: string)
    requires NoDuplicates(ArchsOf(d))
    ensures NoDuplicates(ArchsOf(WithArchAppended(d, arch)))
  {
    var before := ArchsOf(d);
    if arch !in before {
      var s := before + [arch];
      forall i, j | 0 <= i < j < |s| ensures s[i] != s[j] {
        if j == |before| {
          assert s[i] == before[i];
        }
      }
    }
  }

  /** Appending keeps a consistent document consistent. */
  lemma AppendArchKeepsConsistent(d: Document, arch: string)
    requires Consistent(d)
    ensures Consistent(WithArchAppended(d, arch))
  {
  }

  /** `append_arch` keeps a well-formed record well-formed. */
  lemma AppendArchKeepsWellFormed(d: Document, arch: string)
    requires WellFormed(d)
    ensures WellFormed(WithArchAppended(d, arch))
  {
  }

  /** `contains_symbol` is false for a document without export groups. */
  lemma NoExportsContainNothing(d: Document, symbol: string)
    requires d.exports.None?
    ensures !GroupsHaveKey(d, symbol)
  {
  }

  /** Because the lookup tests keys, setting the architectures makes every
      document with at least one group "contain" the symbol `archs`, and
      changes nothing for any other name. */
  lemma {:induction false} ContainsSymbolAfterSetArchs(d: Document, archs: seq<string>, symbol: string)
    ensures GroupsHaveKey(WithArchs(d, archs), symbol) <==>
      GroupsHaveKey(d, symbol) || (symbol == ArchsKey && d.exports.Some? && |d.exports.value| > 0)
  {
    var r := WithArchs(d, archs);
    if d.exports.Some? {
      var gs := d.exports.value;
      if GroupsHaveKey(d, symbol) {
        var i :| 0 <= i < |gs| && symbol in gs[i];
        assert symbol in r.exports.value[i];
      }
      if symbol == ArchsKey && |gs| > 0 {
        assert symbol in r.exports.value[0];
      }
      if GroupsHaveKey(r, symbol) {
        var i :| 0 <= i < |r.exports.value| && symbol in r.exports.value[i];
        assert symbol in gs[i] || symbol == ArchsKey;
      }
    }
  }

  /** A document for libFoo.dylib listing x86_64, with one export group
      that lists x86_64 and the symbol _foo. */
  function ExampleDocument(): Document
  {
    Document(
      Some(["x86_64"]),
      Some([map[ArchsKey := ArchValue(["x86_64"]), "symbols" := List([Str("_foo")])]]),
      map["install-name" := Str("libFoo.dylib")])
  }

  /** Appending arm64 to the example extends the top-level list and the
      group's list, and leaves the symbols and the install name alone. */
  lemma ExampleAppendArm64()
    ensures var r := WithArchAppended(ExampleDocument(), "arm64");
      && ArchsOf(r) == ["x86_64", "arm64"]
      && r.exports == Some([map[ArchsKey := ArchValue(["x86_64", "arm64"]), "symbols" := List([Str("_foo")])]])
      && r.others == map["install-name" := Str("libFoo.dylib")]
  {
    var d := ExampleDocument();
    assert "arm64" !in ArchsOf(d) by {
      assert ArchsOf(d) == ["x86_64"];
      assert "arm64" != "x86_64" by { assert "arm64"[0] != "x86_64"[0]; }
    }
    assert ["x86_64"] + ["arm64"] == ["x86_64", "arm64"];
    var r := WithArchAppended(d, "arm64");
    var g := d.exports.value[0];
    var wanted: Group := map[ArchsKey := ArchValue(["x86_64", "arm64"]), "symbols" := List([Str("_foo")])];
    assert "symbols" != ArchsKey by { assert "symbols"[0] != ArchsKey[0]; }
    assert r.exports.value[0] == g[ArchsKey := ArchValue(["x86_64", "arm64"])];
    assert r.exports.value[0].Keys == wanted.Keys;
    assert r.exports.value[0] == wanted;
    assert r.exports.value == [wanted];
  }

  /** In the example the lookup finds neither _foo nor _bar, because it tests
      the group's keys (`archs`, `symbols`), not the listed symbols. */
  lemma ExampleContainsSymbolTestsKeys()
    ensures !GroupsHaveKey(ExampleDocument(), "_foo")
    ensures !GroupsHaveKey(ExampleDocument(), "_bar")
    ensures GroupsHaveKey(ExampleDocument(), "symbols")
  {
    var g := ExampleDocument().exports.value[0];
    assert g.Keys == {ArchsKey, "symbols"};
    assert "_foo" != ArchsKey && "_foo" != "symbols" by { assert "_foo"[0] == '_'; }
    assert "_bar" != ArchsKey && "_bar" != "symbols" by { assert "_bar"[0] == '_'; }
    assert "symbols" in g;
  }

  /** The key under which an export group lists its symbols. */
  const SymbolsKey: string := "symbols"

  /** What the `find-symbol` command is described as looking for: some export
      group lists `symbol` among its symbols. */
  predicate ExportsSymbol(d: Document, symbol: string)
  {
    d.exports.Some? && exists i :: 0 <= i < |d.exports.value| && ListsSymbol(d.exports.value[i], symbol)
  }

  /** The group's `symbols` entry is a list holding `symbol`. */
  predicate ListsSymbol(g: Group, symbol: string)
  {
    SymbolsKey in g && g[SymbolsKey].List? && Str(symbol) in g[SymbolsKey].items
  }

  /** The key test and the symbol test disagree on the example: `_foo` is
      exported, yet `contains_symbol` does not find it, while it does find
      the name `symbols`, which is not exported. */
  lemma ExampleKeyTestMissesExportedSymbol()
    ensures ExportsSymbol(ExampleDocument(), "_foo") && !GroupsHaveKey(ExampleDocument(), "_foo")
    ensures GroupsHaveKey(ExampleDocument(), SymbolsKey) && !ExportsSymbol(ExampleDocument(), SymbolsKey)
  {
    ExampleContainsSymbolTestsKeys();
    var g := ExampleDocument().exports.value[0];
    assert g[SymbolsKey] == List([Str("_foo")]);
    assert Str(SymbolsKey) != Str("_foo") by { assert SymbolsKey[0] != "_foo"[0]; }
  }

  /** Unlike the key test, the symbol lookup answers the same after the
      setter: writing the architecture list never touches a group's symbols. */
  lemma {:induction false} ExportsSymbolAfterSetArchs(d: Document, archs: seq<string>, symbol: string)
    ensures ExportsSymbol(WithArchs(d, archs), symbol) <==> ExportsSymbol(d, symbol)
  {
    assert SymbolsKey != ArchsKey by { assert SymbolsKey[0] != ArchsKey[0]; }
    var r := WithArchs(d, archs);
    if ExportsSymbol(d, symbol) {
      var gs := d.exports.value;
      var i :| 0 <= i < |gs| && ListsSymbol(gs[i], symbol);
      assert ListsSymbol(r.exports.value[i], symbol);
    }
    if ExportsSymbol(r, symbol) {
      var rs: seq<Group> := r.exports.value;
      var i :| 0 <= i < |rs| && ListsSymbol(rs[i], symbol);
      assert SymbolsKey in d.exports.value[i];
      assert ListsSymbol(d.exports.value[i], symbol);
    }
  }

  /** A TBD document object: the Python class wrapping one decoded mapping,
      which its methods update in place. */
  class TBD {
    var data: Document

    constructor (data: Document)
      ensures this.data == data
    {
      this.data := data;
    }

    /** The `archs` property setter: writes the top-level list, then
        overwrites the `archs` entry of each export group in turn. */
    method SetArchs(value: seq<string>)
      modifies this
      ensures data == WithArchs(old(data), value)
    {
      data := data.(archs := Some(value));
      if data.exports.Some? {
        ghost var groups0 := data.exports.value;
        var i := 0;
        while i < |data.exports.value|
          invariant data.exports.Some? && |data.exports.value| == |groups0|
          invariant 0 <= i <= |groups0|
          invariant data.archs == Some(value) && data.others == old(data).others
          invariant forall j :: 0 <= j < i ==> data.exports.value[j] == groups0[j][ArchsKey := ArchValue(value)]
          invariant forall j :: i <= j < |groups0| ==> data.exports.value[j] == groups0[j]
        {
          var groups := data.exports.value;
          data := data.(exports := Some(groups[i := groups[i][ArchsKey := ArchValue(value)]]));
          i := i + 1;
        }
        assert data.exports.value == WithArchs(old(data), value).exports.value;
      }
    }

    /** `append_arch`: a no-op when `arch` is already listed, otherwise the
        setter with the list extended by `arch`. */
    method AppendArch(arch: string)
      modifies this
      ensures data == WithArchAppended(old(data), arch)
    {
      if arch !in ArchsOf(data) {
        SetArchs(ArchsOf(data) + [arch]);
      }
    }

    /** `contains_symbol`: scans the export groups and stops at the first one
        that has `symbol` among its keys. */
    method ContainsSymbol(symbol: string) returns (found: bool)
      ensures found <==> GroupsHaveKey(data, symbol)
    {
      if data.exports.Some? {
        var groups := data.exports.value;
        for i := 0 to |groups|
          invariant forall j :: 0 <= j < i ==> symbol !in groups[j]
        {
          if symbol in groups[i] {
            return true;
          }
        }
      }
      return false;
    }
  }
}
