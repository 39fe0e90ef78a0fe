/** FindSymbolAddress with its lazily built, revalidated name indexes (symindex.go, file.go)
    against the plain scans that define its result (symindex_ref.go). */
module SymbolIndex {
  import opened Basics
  import opened CaseFold

  type Name = seq<byte>

  datatype Symbol = Symbol(name: Name, value: u64)
  datatype Export = Export(name: Name, address: u64)

  const NAME_INDEX_AFTER_LOOKUPS: nat := 8
  const MAX_INT32: int := 0x7fff_ffff

  // ---- What a lookup must return ----

  datatype ExportResult = Exported(items: seq<Export>) | NoDyldInfo | ReadFailed

  datatype Answer = Address(address: u64) | NotFound | MissingSymtab | ExportsFailed

  /** The first position whose name satisfies p. */
  ghost function First(names: seq<Name>, p: Name -> bool): (r: Option<nat>)
    ensures r.Some? ==> r.value < |names| && p(names[r.value]) && forall j :: 0 <= j < r.value ==> !p(names[j])
    ensures r.None? ==> forall j :: 0 <= j < |names| ==> !p(names[j])
  {
    if names == [] then None
    else
      match First(names[..|names| - 1], p)
      case Some(i) => Some(i)
      case None => if p(names[|names| - 1]) then Some(|names| - 1) else None
  }

  function SymbolNames(syms: seq<Symbol>): (names: seq<Name>)
    ensures |names| == |syms| && forall i :: 0 <= i < |syms| ==> names[i] == syms[i].name
  {
    seq(|syms|, i requires 0 <= i < |syms| => syms[i].name)
  }

  function ExportNames(items: seq<Export>): (names: seq<Name>)
    ensures |names| == |items| && forall i :: 0 <= i < |items| ==> names[i] == items[i].name
  {
    seq(|items|, i requires 0 <= i < |items| => items[i].name)
  }

  ghost function FirstExact(names: seq<Name>, symbol: Name): (r: Option<nat>)
    ensures r.Some? ==> r.value < |names|
  {
    First(names, n => n == symbol)
  }

  ghost function FirstFold(fold: rune -> rune, names: seq<Name>, symbol: Name): (r: Option<nat>)
    ensures r.Some? ==> r.value < |names|
  {
    First(names, n => EqualFold(fold, n, symbol))
  }

  /** The precedence the source documents: first exact symbol, first exact export, first
      case-insensitive symbol, first case-insensitive export. */
  ghost function Expected(fold: rune -> rune, table: Option<seq<Symbol>>, exports: ExportResult, symbol: Name): Answer {
    if table.None? then MissingSymtab
    else
      var names := SymbolNames(table.value);
      match FirstExact(names, symbol)
      case Some(i) => Address(table.value[i].value)
      case None => AfterSymbols(fold, SymbolFold(fold, table.value, symbol), exports, symbol)
  }

  /** The address of the first case-insensitive symbol match. */
  ghost function SymbolFold(fold: rune -> rune, syms: seq<Symbol>, symbol: Name): Option<u64> {
    match FirstFold(fold, SymbolNames(syms), symbol)
    case Some(i) => Some(syms[i].value)
    case None => None
  }

  ghost function AfterSymbols(fold: rune -> rune, folded: Option<u64>, exports: ExportResult, symbol: Name): Answer {
    if exports.ReadFailed? then if folded.Some? then Address(folded.value) else ExportsFailed
    else
      var items := Items(exports);
      match FirstExact(ExportNames(items), symbol)
      case Some(i) => Address(items[i].address)
      case None =>
        if folded.Some? then Address(folded.value)
        else
          match FirstFold(fold, ExportNames(items), symbol)
          case Some(i) => Address(items[i].address)
          case None => NotFound
  }

  lemma AfterSymbolsCases(fold: rune -> rune, folded: Option<u64>, exports: ExportResult, symbol: Name)
    ensures exports.ReadFailed? ==>
              AfterSymbols(fold, folded, exports, symbol) == if folded.Some? then Address(folded.value) else ExportsFailed
    ensures !exports.ReadFailed? ==>
              && AfterSymbols(fold, folded, exports, symbol) == AfterSymbols(fold, folded, Exported(Items(exports)), symbol)
              && var at := FirstExact(ExportNames(Items(exports)), symbol);
                 at.Some? ==> AfterSymbols(fold, folded, exports, symbol) == Address(Items(exports)[at.value].address)
  {
    hide First;
  }

  function Items(exports: ExportResult): seq<Export> {
    if exports.Exported? then exports.items else []
  }

  /** strings.EqualFold. */
  method EqualFoldStrings(fold: rune -> rune, a: Name, b: Name) returns (equal: bool)
    requires Lawful(fold)
    ensures equal == EqualFold(fold, a, b)
  {
    hide Lawful, IsFoldKey, EqualFold;
    var ka := FoldKey(fold, a);
    var kb := FoldKey(fold, b);
    KeysDecideEqualFold(fold, a, b, ka, kb);
    equal := ka == kb;
  }

  // ---- Slices and their identity ----

  /** A Go slice of symbols: part of an array that callers may edit at any time. */
  datatype Slice = Slice(backing: array<Symbol>, start: nat, len: nat) {
    predicate InBounds() { start + len <= backing.Length }

    function Contents(): (s: seq<Symbol>)
      requires InBounds()
      reads backing
      ensures |s| == len
    {
      backing[start..start + len]
    }
  }

  /** An export list that is never handed out, so nothing changes it. */
  class ExportList {
    const items: seq<Export>

    constructor (items: seq<Export>)
      ensures this.items == items
    {
      this.items := items;
    }
  }

  /** A null list is Go's nil slice. */
  function ListItems(list: ExportList?): seq<Export> {
    if list == null then [] else list.items
  }

  /** The slice a name index reads names from. */
  datatype NameSource = Symbols(slice: Slice) | Exports(list: ExportList?) {
    predicate InBounds() { Symbols? ==> slice.InBounds() }

    function Names(): (names: seq<Name>)
      requires InBounds()
      reads if Symbols? then {slice.backing} else {}
    {
      match this
      case Symbols(s) => SymbolNames(s.Contents())
      case Exports(l) => ExportNames(ListItems(l))
    }

    function Len(): nat {
      match this
      case Symbols(s) => s.len
      case Exports(l) => if l == null then 0 else |l.items|
    }
  }

  datatype SliceId = Empty | SymbolsAt(slice: Slice) | ExportsAt(list: ExportList)

  /** Position and length; every empty slice has the same identity. */
  function IdOf(s: NameSource): SliceId {
    if s.Len() == 0 then Empty
    else
      match s
      case Symbols(slice) => SymbolsAt(slice)
      case Exports(list) => ExportsAt(list)
  }

  lemma SameIdSameNames(a: NameSource, b: NameSource)
    requires a.InBounds() && b.InBounds() && IdOf(a) == IdOf(b)
    ensures a.Names() == b.Names()
  {
  }

  // ---- The index ----

  /** m maps every key to the first position that carries it. */
  ghost predicate FirstPositions(m: map<Name, nat>, keys: seq<Name>) {
    && (forall i :: 0 <= i < |keys| ==> keys[i] in m)
    && (forall k :: k in m ==> m[k] < |keys| && keys[m[k]] == k && forall j :: 0 <= j < m[k] ==> keys[j] != k)
  }

  lemma FirstPositionsSnoc(m: map<Name, nat>, keys: seq<Name>, k: Name)
    requires FirstPositions(m, keys)
    ensures FirstPositions(if k in m then m else m[k := |keys|], keys + [k])
  {
    var longer := keys + [k];
    assert forall i :: 0 <= i < |keys| ==> longer[i] == keys[i];
  }

  ghost predicate FoldKeys(fold: rune -> rune, names: seq<Name>, keys: seq<Name>) {
    |keys| == |names| && forall i :: 0 <= i < |names| ==> IsFoldKey(fold, names[i], keys[i])
  }

  /** Looking up symbol's key finds the first name equal to symbol up to case. */
  lemma FoldHit(fold: rune -> rune, names: seq<Name>, keys: seq<Name>, m: map<Name, nat>, symbol: Name, key: Name)
    requires Lawful(fold) && FoldKeys(fold, names, keys) && FirstPositions(m, keys) && IsFoldKey(fold, symbol, key)
    ensures FirstFold(fold, names, symbol) == if key in m then Some(m[key]) else None
  {
    hide Lawful, IsFoldKey, EqualFold, First;
    forall i | 0 <= i < |names|
      ensures keys[i] == key <==> EqualFold(fold, names[i], symbol)
    {
      assert IsFoldKey(fold, names[i], keys[i]);
      KeysDecideEqualFold(fold, names[i], symbol, keys[i], key);
    }
  }

  lemma ExactHit(m: map<Name, nat>, names: seq<Name>, symbol: Name)
    requires FirstPositions(m, names)
    ensures FirstExact(names, symbol) == if symbol in m then Some(m[symbol]) else None
  {
    hide First;
  }

  class NameIndex {
    const source: NameSource
    const names: seq<Name>  // snapshot: callers may edit the symbols in place
    const exact: map<Name, nat>
    var foldDone: bool
    var folded: map<Name, nat>
    ghost var keys: seq<Name>

    ghost predicate Valid(fold: rune -> rune)
      reads this
    {
      && source.InBounds()
      && FirstPositions(exact, names)
      && (foldDone ==> FoldKeys(fold, names, keys) && FirstPositions(folded, keys))
    }

    constructor (source: NameSource, names: seq<Name>, exact: map<Name, nat>)
      ensures this.source == source && this.names == names && this.exact == exact && !foldDone
    {
      this.source, this.names, this.exact := source, names, exact;
      foldDone, folded, keys := false, map[], [];
    }

    /** Compares the snapshot with every live name. */
    method MatchesNames() returns (same: bool)
      requires source.InBounds() && |names| == source.Len()
      ensures same <==> names == source.Names()
    {
      for i := 0 to |names|
        invariant names[..i] == source.Names()[..i]
      {
        if source.Names()[i] != names[i] {
          return false;
        }
      }
      same := true;
    }

    /** The first position whose name is EqualFold to symbol. */
    method FoldFirst(fold: rune -> rune, symbol: Name) returns (r: Option<nat>)
      requires Lawful(fold) && Valid(fold)
      modifies this
      ensures Valid(fold)
      ensures r == FirstFold(fold, names, symbol)
    {
      hide Lawful, IsFoldKey, EqualFold;
      if !foldDone {
        BuildFold(fold);
      }
      var key := FoldKey(fold, symbol);
      FoldHit(fold, names, keys, folded, symbol, key);
      r := if key in folded then Some(folded[key]) else None;
    }

    /** The body of foldOnce. */
    method BuildFold(fold: rune -> rune)
      requires Lawful(fold) && Valid(fold) && !foldDone
      modifies this
      ensures Valid(fold) && foldDone
    {
      hide Lawful, IsFoldKey;
      var m: map<Name, nat> := map[];
      ghost var ks: seq<Name> := [];
      for i := 0 to |names|
        invariant FoldKeys(fold, names[..i], ks) && FirstPositions(m, ks)
        invariant Valid(fold)
      {
        var k := FoldKey(fold, names[i]);
        FirstPositionsSnoc(m, ks, k);
        if k !in m {
          m := m[k := i];
        }
        ks := ks + [k];
      }
      assert names[..|names|] == names;
      folded, keys, foldDone := m, ks, true;
    }
  }

  lemma NamesCounted(source: NameSource)
    requires source.InBounds()
    ensures |source.Names()| == source.Len()
  {
  }

  lemma NothingIndexed()
    ensures FirstPositions(map[], [])
  {
  }

  method BuildNameIndex(source: NameSource, ghost fold: rune -> rune) returns (ix: NameIndex)
    requires source.InBounds() && source.Len() <= MAX_INT32
    ensures fresh(ix) && ix.Valid(fold)
    ensures ix.source == source && ix.names == source.Names()
  {
    hide FirstPositions, SymbolNames, ExportNames, ListItems;
    NamesCounted(source);
    var names: seq<Name>, exact: map<Name, nat> := [], map[];
    assert FirstPositions(exact, names) by { NothingIndexed(); }
    for i := 0 to source.Len()
      invariant names == source.Names()[..i] && FirstPositions(exact, names)
    {
      var s := source.Names()[i];
      FirstPositionsSnoc(exact, names, s);
      names := names + [s];
      if s !in exact {
        exact := exact[s := i];
      }
    }
    ix := new NameIndex(source, names, exact);
  }

  /** Counts lookups against one slice identity and builds the index after enough of them. */
  class LazyIndex {
    var id: SliceId
    var lookups: nat
    var built: bool
    var index: NameIndex?

    ghost predicate Valid(fold: rune -> rune)
      reads this, index
    {
      && (built <==> index != null)
      && (index != null ==> index.Valid(fold) && IdOf(index.source) == id && |index.names| == index.source.Len())
    }

    constructor ()
      ensures !built && index == null
    {
      id, lookups, built, index := Empty, 0, false, null;
    }

    method Reset()
      modifies this
      ensures !built && index == null
    {
      id, lookups, built, index := Empty, 0, false, null;
    }

    /** The index to use for s, or null while scanning is still preferred. */
    method Get(s: NameSource, after: nat, ghost fold: rune -> rune) returns (ix: NameIndex?)
      requires Valid(fold) && s.InBounds()
      modifies this
      ensures Valid(fold)
      ensures index == old(index) || index == null || fresh(index)
      ensures ix != null ==> built && ix == index && id == IdOf(s)
    {
      if s.Len() > MAX_INT32 {
        return null;
      }
      if id != IdOf(s) {
        id, lookups, built, index := IdOf(s), 0, false, null;
      }
      if !built {
        if lookups < after {
          lookups := lookups + 1;
          return null;
        }
        var ready := BuildNameIndex(s, fold);
        index, built := ready, true;
      }
      ix := index;
    }

    /** The index is there and indexes exactly names. */
    ghost predicate Indexes(names: seq<Name>)
      reads this
    {
      index != null && index.names == names
    }

    /** Get, then drop the index unless every live name still equals the snapshot. */
    method GetMatching(s: NameSource, after: nat, ghost fold: rune -> rune) returns (ok: bool)
      requires Valid(fold) && s.InBounds()
      modifies this
      ensures Valid(fold)
      ensures index == old(index) || index == null || fresh(index)
      ensures ok ==> Indexes(s.Names())
    {
      var ix := Get(s, after, fold);
      if ix == null {
        return false;
      }
      var same := ix.MatchesNames();
      if !same {
        Reset();
        return false;
      }
      SameIdSameNames(ix.source, s);
      ok := true;
    }

    /** The exact lookup in the index. */
    method ExactFirst(symbol: Name, ghost fold: rune -> rune, ghost names: seq<Name>) returns (r: Option<nat>)
      requires Valid(fold) && Indexes(names)
      ensures r == FirstExact(names, symbol)
    {
      ExactHit(index.exact, index.names, symbol);
      r := if symbol in index.exact then Some(index.exact[symbol]) else None;
    }

    /** The case-insensitive lookup in the index. */
    method FoldFirst(fold: rune -> rune, symbol: Name, ghost names: seq<Name>) returns (r: Option<nat>)
      requires Lawful(fold) && Valid(fold) && Indexes(names)
      modifies index
      ensures Valid(fold)
      ensures r == FirstFold(fold, names, symbol)
    {
      r := index.FoldFirst(fold, symbol);
    }
  }

  // ---- The plain scans ----

  ghost function ValueAt(syms: seq<Symbol>, at: Option<nat>): Option<u64>
    requires at.Some? ==> at.value < |syms|
  {
    if at.Some? then Some(syms[at.value].value) else None
  }

  ghost function AddressAt(items: seq<Export>, at: Option<nat>): Option<u64>
    requires at.Some? ==> at.value < |items|
  {
    if at.Some? then Some(items[at.value].address) else None
  }

  /** Looking at one more name. */
  lemma FirstSnoc(names: seq<Name>, i: nat, p: Name -> bool)
    requires i < |names|
    ensures First(names[..i + 1], p) ==
            if First(names[..i], p).Some? then First(names[..i], p) else if p(names[i]) then Some(i) else None
  {
    assert names[..i + 1][..i] == names[..i];
  }

  /** The loop over the symbol table: the first exact match, or else the first match up to case. */
  method ScanSymbols(fold: rune -> rune, syms: Slice, symbol: Name) returns (hit: Option<u64>, folded: Option<u64>)
    requires Lawful(fold) && syms.InBounds()
    ensures hit == ValueAt(syms.Contents(), FirstExact(SymbolNames(syms.Contents()), symbol))
    ensures hit.None? ==> folded == SymbolFold(fold, syms.Contents(), symbol)
  {
    hide First, EqualFold, Lawful;
    ghost var names := SymbolNames(syms.Contents());
    ghost var same, alike := n => n == symbol, n => EqualFold(fold, n, symbol);
    folded := None;
    for i := 0 to syms.len
      invariant First(names[..i], same).None?
      invariant folded == ValueAt(syms.Contents(), First(names[..i], alike))
    {
      var sym := syms.Contents()[i];
      FirstSnoc(names, i, alike);
      if sym.name == symbol {
        return Some(sym.value), folded;
      }
      if folded.None? {
        var equal := EqualFoldStrings(fold, sym.name, symbol);
        if equal {
          folded := Some(sym.value);
        }
      }
    }
    assert names[..syms.len] == names;
    hit := None;
  }

  /** The loop over the exports; a symbol-table match up to case keeps its precedence. */
  method ScanExports(fold: rune -> rune, items: seq<Export>, symbol: Name, before: Option<u64>)
    returns (hit: Option<u64>, folded: Option<u64>)
    requires Lawful(fold)
    ensures hit == AddressAt(items, FirstExact(ExportNames(items), symbol))
    ensures hit.None? ==> folded == if before.Some? then before else AddressAt(items, FirstFold(fold, ExportNames(items), symbol))
  {
    hide First, EqualFold, Lawful;
    ghost var names := ExportNames(items);
    ghost var same, alike := n => n == symbol, n => EqualFold(fold, n, symbol);
    folded := before;
    for i := 0 to |items|
      invariant First(names[..i], same).None?
      invariant folded == if before.Some? then before else AddressAt(items, First(names[..i], alike))
    {
      FirstSnoc(names, i, alike);
      if items[i].name == symbol {
        return Some(items[i].address), folded;
      }
      if folded.None? {
        var equal := EqualFoldStrings(fold, items[i].name, symbol);
        if equal {
          folded := Some(items[i].address);
        }
      }
    }
    assert names[..|items|] == names;
    hit := None;
  }

  // ---- The file ----

  /** The parts of a File that symbol lookup reads. Source stands for everything GetExports
      derives its result from; reading the exports may publish a parsed trie, which changes
      the source but not the result. */
  class File<Source(==,!new)> {
    const fold: rune -> rune
    const exportsOf: Source -> ExportResult
    const publish: Source -> Source
    const symNames: LazyIndex
    const exportNames: LazyIndex
    var symtab: Option<Slice>
    var source: Source
    var exportsSrc: Option<Source>
    var exports: ExportList?

    /** The footprint callers never touch. */
    ghost function Private(): set<object?>
      reads this, symNames, exportNames
    {
      {this, symNames, exportNames, symNames.index, exportNames.index}
    }

    /** The export list is fixed for a given source. */
    ghost predicate ExportsFixed() {
      forall s :: exportsOf(publish(s)) == exportsOf(s)
    }

    ghost predicate Valid()
      reads this, symNames, exportNames, symNames.index, exportNames.index
    {
      && Lawful(fold) && ExportsFixed()
      && symNames != exportNames
      && (symNames.index != null ==> symNames.index != exportNames.index)
      && symNames.Valid(fold) && exportNames.Valid(fold)
      && (symtab.Some? ==> symtab.value.InBounds())
      && (exportsSrc.Some? ==> exports != null && exportsOf(exportsSrc.value) == Exported(exports.items))
    }

    function Table(): Option<seq<Symbol>>
      requires symtab.Some? ==> symtab.value.InBounds()
      reads this, if symtab.Some? then {symtab.value.backing} else {}
    {
      if symtab.Some? then Some(symtab.value.Contents()) else None
    }

    /** What a lookup must answer in the current state. */
    ghost function Linear(symbol: Name): Answer
      requires symtab.Some? ==> symtab.value.InBounds()
      reads this, if symtab.Some? then {symtab.value.backing} else {}
    {
      Expected(fold, Table(), exportsOf(source), symbol)
    }

    constructor (fold: rune -> rune, exportsOf: Source -> ExportResult, publish: Source -> Source,
                 symtab: Option<Slice>, source: Source)
      requires Lawful(fold) && (forall s :: exportsOf(publish(s)) == exportsOf(s))
      requires symtab.Some? ==> symtab.value.InBounds()
      ensures Valid() && fresh(Private() - {null})
      ensures this.symtab == symtab && this.source == source && this.fold == fold && this.exportsOf == exportsOf
    {
      this.fold, this.exportsOf, this.publish := fold, exportsOf, publish;
      this.symtab, this.source := symtab, source;
      exportsSrc, exports := None, null;
      symNames := new LazyIndex();
      exportNames := new LazyIndex();
    }

    /** resetSymbolIndexes. */
    method ResetSymbolIndexes()
      requires Valid()
      modifies this, symNames, exportNames
      ensures Valid() && symNames.index == null && exportNames.index == null
      ensures symtab == old(symtab) && source == old(source)
    {
      symNames.Reset();
      exportNames.Reset();
      exportsSrc, exports := None, null;
    }

    method GetExports() returns (result: ExportResult)
      requires Valid()
      modifies this`source
      ensures result == exportsOf(old(source)) == exportsOf(source)
    {
      result := exportsOf(source);
      source := publish(source);
    }

    /** GetExports remembered per source; only successes are kept. A null list is the nil
        slice that accompanies an error. */
    method CachedExports() returns (list: ExportList?, result: ExportResult)
      requires Valid()
      modifies this, exportNames
      ensures Valid()
      ensures symtab == old(symtab) && exportsOf(source) == exportsOf(old(source))
      ensures exportNames.index == old(exportNames.index) || exportNames.index == null
      ensures result == exportsOf(old(source))
      ensures ListItems(list) == Items(result)
    {
      if exportsSrc == Some(source) {
        return exports, Exported(exports.items);
      }
      result := GetExports();
      if !result.Exported? {
        return null, result;
      }
      list := new ExportList(result.items);
      exportsSrc, exports := Some(source), list;
      exportNames.Reset();
    }

    /** findSymbolAddressLinear. */
    method FindSymbolAddressLinear(symbol: Name) returns (a: Answer)
      requires Valid()
      modifies this`source
      ensures Valid() && exportsOf(source) == exportsOf(old(source))
      ensures a == old(Linear(symbol))
    {
      hide First, SymbolFold, AfterSymbols, LazyIndex.Valid;
      if symtab.None? {
        return MissingSymtab;
      }
      var hit, folded := ScanSymbols(fold, symtab.value, symbol);
      if hit.Some? {
        return Address(hit.value);
      }
      a := ScanForExport(symbol, folded);
    }

    /** The export side of the scan. */
    method ScanForExport(symbol: Name, folded: Option<u64>) returns (a: Answer)
      requires Valid()
      modifies this`source
      ensures Valid() && exportsOf(source) == exportsOf(old(source))
      ensures a == AfterSymbols(fold, folded, exportsOf(old(source)), symbol)
    {
      hide First, LazyIndex.Valid;
      var result := GetExports();
      if result.ReadFailed? {
        return if folded.Some? then Address(folded.value) else ExportsFailed;
      }
      var hit, either := ScanExports(fold, Items(result), symbol, folded);
      if hit.Some? {
        return Address(hit.value);
      }
      a := if either.Some? then Address(either.value) else NotFound;
    }

    /** The case-insensitive symbol match, looked up only once it is needed. */
    method SymtabFold(indexed: bool, syms: Slice, symbol: Name, scanned: Option<u64>) returns (folded: Option<u64>)
      requires Lawful(fold) && symNames.Valid(fold) && syms.InBounds()
      requires if indexed then symNames.Indexes(SymbolNames(syms.Contents())) else scanned == SymbolFold(fold, syms.Contents(), symbol)
      modifies symNames.index
      ensures symNames.Valid(fold)
      ensures folded == SymbolFold(fold, syms.Contents(), symbol)
    {
      if !indexed {
        return scanned;
      }
      var i := symNames.FoldFirst(fold, symbol, SymbolNames(syms.Contents()));
      if i.None? {
        return None;
      }
      var live := syms.Contents()[i.value].name;
      var still := EqualFoldStrings(fold, live, symbol);
      if !still {
        assert false;  // stale index: the snapshot has just been compared with the live names
      }
      folded := Some(syms.Contents()[i.value].value);
    }

    /** findSymbolAddressStale: drop every index and scan. */
    method FindSymbolAddressStale(symbol: Name) returns (a: Answer)
      requires Valid()
      modifies this, symNames, exportNames
      ensures Valid() && symtab == old(symtab) && exportsOf(source) == exportsOf(old(source))
      ensures a == old(Linear(symbol))
    {
      ResetSymbolIndexes();
      a := FindSymbolAddressLinear(symbol);
    }

    /** FindSymbolAddress: indexed or scanning, before and after the index is built, it
        answers exactly what the linear scan answers in the current state. */
    method FindSymbolAddress(symbol: Name) returns (a: Answer)
      requires Valid()
      modifies Private()
      ensures Valid() && symtab == old(symtab) && exportsOf(source) == exportsOf(old(source))
      ensures fresh(Private() - old(Private()) - {null})
      ensures a == old(Linear(symbol))
    {
      hide First, Lawful, SymbolFold, AfterSymbols, LazyIndex.Valid;
      if symtab.None? {
        return MissingSymtab;
      }
      var syms := symtab.value;
      var folded: Option<u64> := None;
      var indexed := symNames.GetMatching(Symbols(syms), NAME_INDEX_AFTER_LOOKUPS, fold);
      if indexed {
        var i := symNames.ExactFirst(symbol, fold, SymbolNames(syms.Contents()));
        if i.Some? {
          if syms.Contents()[i.value].name != symbol {
            assert false;  // stale index: the snapshot has just been compared with the live names
          }
          return Address(syms.Contents()[i.value].value);
        }
      } else {
        var hit;
        hit, folded := ScanSymbols(fold, syms, symbol);
        if hit.Some? {
          return Address(hit.value);
        }
      }
      a := FindInExports(indexed, syms, symbol, folded);
    }

    /** The part of FindSymbolAddress after the symbol table had no exact match. */
    method FindInExports(symIndexed: bool, syms: Slice, symbol: Name, scanned: Option<u64>) returns (a: Answer)
      requires Valid() && syms.InBounds()
      requires if symIndexed then symNames.Indexes(SymbolNames(syms.Contents())) else scanned == SymbolFold(fold, syms.Contents(), symbol)
      modifies Private()
      ensures Valid() && symtab == old(symtab) && exportsOf(source) == exportsOf(old(source))
      ensures fresh(Private() - old(Private()) - {null})
      ensures a == AfterSymbols(fold, SymbolFold(fold, syms.Contents(), symbol), exportsOf(old(source)), symbol)
    {
      hide First, FirstExact, Lawful, SymbolFold, AfterSymbols, ExportNames, SymbolNames, Items, ListItems, LazyIndex.Valid;
      AfterSymbolsCases(fold, SymbolFold(fold, syms.Contents(), symbol), exportsOf(source), symbol);
      var list, result := CachedExports();
      if result.ReadFailed? {
        var folded := SymtabFold(symIndexed, syms, symbol, scanned);
        return if folded.Some? then Address(folded.value) else ExportsFailed;
      }
      a := SearchExports(list, symIndexed, syms, symbol, scanned);
    }

    /** The rest of a lookup over an export list that could be read. */
    method SearchExports(list: ExportList?, symIndexed: bool, syms: Slice, symbol: Name, scanned: Option<u64>) returns (a: Answer)
      requires Valid() && syms.InBounds()
      requires if symIndexed then symNames.Indexes(SymbolNames(syms.Contents())) else scanned == SymbolFold(fold, syms.Contents(), symbol)
      modifies exportNames, exportNames.index, symNames.index
      ensures Valid() && fresh(Private() - old(Private()) - {null})
      ensures a == AfterSymbols(fold, SymbolFold(fold, syms.Contents(), symbol), Exported(ListItems(list)), symbol)
    {
      hide First, FirstExact, Lawful, SymbolFold, ExportNames, SymbolNames, ListItems, LazyIndex.Valid;
      var expIndexed, hit := ExactExport(list, symbol);
      if hit.Some? {
        return Address(hit.value);
      }
      var folded := SymtabFold(symIndexed, syms, symbol, scanned);
      a := MatchExports(expIndexed, ListItems(list), symbol, folded);
    }

    /** exportsNameIndex and the exact lookup in it. */
    method ExactExport(list: ExportList?, symbol: Name) returns (indexed: bool, hit: Option<u64>)
      requires exportNames.Valid(fold)
      modifies exportNames
      ensures exportNames.Valid(fold)
      ensures exportNames.index == old(exportNames.index) || exportNames.index == null || fresh(exportNames.index)
      ensures indexed ==>
          && exportNames.Indexes(ExportNames(ListItems(list)))
          && hit == AddressAt(ListItems(list), FirstExact(ExportNames(ListItems(list)), symbol))
      ensures !indexed ==> hit == None
    {
      hide FirstExact;
      hit := None;
      indexed := exportNames.GetMatching(Exports(list), NAME_INDEX_AFTER_LOOKUPS, fold);
      if indexed {
        var i := exportNames.ExactFirst(symbol, fold, ExportNames(ListItems(list)));
        if i.Some? {
          hit := Some(ListItems(list)[i.value].address);
        }
      }
    }

    /** The export side once an exact index hit is ruled out: the fold index, or the scan. */
    method MatchExports(indexed: bool, items: seq<Export>, symbol: Name, before: Option<u64>) returns (a: Answer)
      requires Lawful(fold) && exportNames.Valid(fold)
      requires indexed ==> exportNames.Indexes(ExportNames(items)) && FirstExact(ExportNames(items), symbol).None?
      modifies exportNames.index
      ensures exportNames.Valid(fold)
      ensures a == AfterSymbols(fold, before, Exported(items), symbol)
    {
      hide First, Lawful;
      var folded := before;
      if indexed {
        if folded.None? {
          var i := exportNames.FoldFirst(fold, symbol, ExportNames(items));
          if i.Some? {
            folded := Some(items[i.value].address);
          }
        }
      } else {
        var hit;
        hit, folded := ScanExports(fold, items, symbol, folded);
        if hit.Some? {
          return Address(hit.value);
        }
      }
      a := if folded.Some? then Address(folded.value) else NotFound;
    }
  }

  // ---- Whole runs ----

  /** Part of one of the client's symbol arrays. */
  datatype View = View(which: nat, start: nat, len: nat)

  /** What a client can do between lookups. Install sets the symbol table to any part of any
      array, so it shrinks or shifts a table in place, and returns to an earlier one. */
  datatype Op<Source> =
    | Lookup(symbol: Name)
    | Allocate(entries: seq<Symbol>)
    | Edit(which: nat, index: nat, entry: Symbol)    // in place, whether or not it is in the table
    | Install(view: View)
    | RemoveTable
    | ResetIndexes
    | ChangeSource(source: Source)

  datatype State = State(arrays: seq<seq<Symbol>>, view: Option<View>, exports: ExportResult)

  predicate Fits(v: View, arrays: seq<seq<Symbol>>) {
    v.which < |arrays| && v.start + v.len <= |arrays[v.which]|
  }

  /** The symbol table a state has. */
  function TableOf(st: State): Option<seq<Symbol>>
    requires st.view.Some? ==> Fits(st.view.value, st.arrays)
  {
    match st.view
    case None => None
    case Some(v) => Some(st.arrays[v.which][v.start..v.start + v.len])
  }

  predicate Sensible(st: State) { st.view.Some? ==> Fits(st.view.value, st.arrays) }

  function After<Source>(exportsOf: Source -> ExportResult, op: Op<Source>, st: State): (r: State)
    requires Sensible(st)
    ensures Sensible(r)
  {
    match op
    case Allocate(entries) => st.(arrays := st.arrays + [entries])
    case Edit(a, i, sym) =>
      if a < |st.arrays| && i < |st.arrays[a]| then st.(arrays := st.arrays[a := st.arrays[a][i := sym]]) else st
    case Install(v) => if Fits(v, st.arrays) then st.(view := Some(v)) else st
    case RemoveTable => st.(view := None)
    case ChangeSource(s) => st.(exports := exportsOf(s))
    case _ => st
  }

  /** The answers a run must give when every lookup is a linear scan of its own state. */
  ghost function Answers<Source>(fold: rune -> rune, exportsOf: Source -> ExportResult, ops: seq<Op<Source>>, st: State): seq<Answer>
    requires Sensible(st)
  {
    if ops == [] then []
    else
      (if ops[0].Lookup? then [Expected(fold, TableOf(st), st.exports, ops[0].symbol)] else [])
      + Answers(fold, exportsOf, ops[1..], After(exportsOf, ops[0], st))
  }

  /** A client of one File: the arrays it holds, and the part of them that is the table. */
  class Client<Source(==,!new)> {
    const f: File<Source>
    var arrays: seq<array<Symbol>>
    var view: Option<View>

    ghost function Footprint(): set<object?>
      reads this, f, f.symNames, f.exportNames
    {
      {this} + f.Private() + set a | a in arrays
    }

    ghost predicate Valid()
      reads this, f, f.symNames, f.exportNames, f.symNames.index, f.exportNames.index
    {
      && f.Valid() && this !in f.Private()
      && (forall a :: a in arrays ==> a !in f.Private())
      && (forall i, j :: 0 <= i < j < |arrays| ==> arrays[i] != arrays[j])
      && match view
         case None => f.symtab == None
         case Some(v) => v.which < |arrays| && f.symtab == Some(Slice(arrays[v.which], v.start, v.len))
    }

    ghost function Contents(): (c: seq<seq<Symbol>>)
      reads this, set a | a in arrays
      ensures |c| == |arrays| && forall i :: 0 <= i < |arrays| ==> c[i] == arrays[i][..]
    {
      seq(|arrays|, i requires 0 <= i < |arrays| reads this, set a | a in arrays => arrays[i][..])
    }

    ghost function Now(): (st: State)
      requires Valid()
      reads this, f, f.symNames, f.exportNames, f.symNames.index, f.exportNames.index, set a | a in arrays
      ensures Sensible(st) && TableOf(st) == f.Table()
    {
      State(Contents(), view, f.exportsOf(f.source))
    }

    /** The array behind the File's table is the first one. */
    constructor (f: File<Source>)
      requires f.Valid() && (f.symtab.Some? ==> f.symtab.value.backing !in f.Private())
      ensures Valid() && this.f == f
      ensures fresh(Footprint() - f.Private() - if f.symtab.Some? then {f.symtab.value.backing} else {})
    {
      this.f := f;
      arrays, view := [], None;
      if f.symtab.Some? {
        arrays, view := [f.symtab.value.backing], Some(View(0, f.symtab.value.start, f.symtab.value.len));
      }
    }

    /** One operation on the real structures. */
    method Perform(op: Op<Source>) returns (answer: Option<Answer>)
      requires Valid()
      modifies Footprint()
      ensures Valid() && fresh(Footprint() - old(Footprint()) - {null})
      ensures Now() == After(f.exportsOf, op, old(Now()))
      ensures answer == if op.Lookup? then Some(Expected(f.fold, TableOf(old(Now())), old(Now()).exports, op.symbol)) else None
    {
      hide Valid, Contents;
      answer := None;
      match op
      case Lookup(symbol) =>
        var a := Look(symbol);
        answer := Some(a);
      case Allocate(entries) => Keep(entries);
      case Edit(a, i, sym) => Store(a, i, sym);
      case Install(v) => Point(v);
      case RemoveTable => Remove();
      case ResetIndexes => Reset();
      case ChangeSource(s) => Change(s);
    }

    method Look(symbol: Name) returns (a: Answer)
      requires Valid()
      modifies Footprint()
      ensures Valid() && fresh(Footprint() - old(Footprint()) - {null})
      ensures Now() == old(Now()) && a == Expected(f.fold, TableOf(old(Now())), old(Now()).exports, symbol)
    {
      a := f.FindSymbolAddress(symbol);
      assert Contents() == old(Contents());
    }

    method Point(v: View)
      requires Valid()
      modifies this, f`symtab
      ensures Valid() && Footprint() == old(Footprint())
      ensures Now() == if Fits(v, old(Now()).arrays) then old(Now()).(view := Some(v)) else old(Now())
    {
      hide Lawful, LazyIndex.Valid;
      if v.which < |arrays| && v.start + v.len <= arrays[v.which].Length {
        view, f.symtab := Some(v), Some(Slice(arrays[v.which], v.start, v.len));
      }
      assert Contents() == old(Contents());
    }

    method Remove()
      requires Valid()
      modifies this, f`symtab
      ensures Valid() && Footprint() == old(Footprint()) && Now() == old(Now()).(view := None)
    {
      view, f.symtab := None, None;
      assert Contents() == old(Contents());
    }

    method Reset()
      requires Valid()
      modifies Footprint()
      ensures Valid() && fresh(Footprint() - old(Footprint()) - {null}) && Now() == old(Now())
    {
      f.ResetSymbolIndexes();
      assert Contents() == old(Contents());
    }

    method Change(source: Source)
      requires Valid()
      modifies f`source
      ensures Valid() && Footprint() == old(Footprint()) && Now() == old(Now()).(exports := f.exportsOf(source))
    {
      f.source := source;
      assert Contents() == old(Contents());
    }

    method Keep(entries: seq<Symbol>)
      requires Valid()
      modifies this
      ensures Valid() && fresh(Footprint() - old(Footprint()))
      ensures Now() == old(Now()).(arrays := old(Now()).arrays + [entries])
    {
      hide File.Valid;
      var a := new Symbol[|entries|](i requires 0 <= i < |entries| => entries[i]);
      assert a[..] == entries;
      arrays := arrays + [a];
      assert Contents() == old(Contents()) + [entries];
    }

    method Store(a: nat, i: nat, sym: Symbol)
      requires Valid()
      modifies set b | b in arrays
      ensures Valid() && Footprint() == old(Footprint())
      ensures Now() == if a < |old(Now()).arrays| && i < |old(Now()).arrays[a]|
                       then old(Now()).(arrays := old(Now()).arrays[a := old(Now()).arrays[a][i := sym]])
                       else old(Now())
    {
      if a < |arrays| && i < arrays[a].Length {
        arrays[a][i] := sym;
        assert arrays[a][..] == old(arrays[a][..])[i := sym];
        assert forall k :: 0 <= k < |arrays| && k != a ==> arrays[k] != arrays[a];
        assert Contents() == old(Contents())[a := old(Contents())[a][i := sym]];
      } else {
        assert Contents() == old(Contents());
      }
    }

    /** Over any run of lookups, edits in place, tables installed from new, kept or earlier
        arrays, resets and source changes, every answer is the linear scan's in the state of
        that moment. */
    method Serve(ops: seq<Op<Source>>) returns (answers: seq<Answer>)
      requires Valid()
      modifies Footprint()
      ensures answers == old(Answers(f.fold, f.exportsOf, ops, Now()))
    {
      if ops == [] {
        return [];
      }
      var first := Perform(ops[0]);
      var rest := Serve(ops[1..]);
      answers := (if first.Some? then [first.value] else []) + rest;
    }
  }
}
