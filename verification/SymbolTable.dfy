/** The symbol part of optimizeLinkedit in export.go: the symbol table of an exported file is
    regrouped into locals, external definitions and undefined symbols, its names are pooled, and
    the indirect symbol table is rewritten to the new indices. */
module SymbolTable {
  import opened Basics
  import opened StringPool

  datatype Symbol = Symbol(name: Name, indirectName: Name, typ: byte, sect: byte, desc: u16, value: u64)

  /** An entry of the export trie, as far as re-exports are concerned. */
  datatype Export = Export(name: Name, isReExport: bool, reExport: Name)

  /** rebuiltSymEntry; original is the index the symbol had, if it had one. */
  datatype Entry = Entry(sym: Symbol, original: Option<nat>)

  datatype Class = Local | Defined | Undefined

  /** "<redacted>" */
  const REDACTED: Name := [60, 114, 101, 100, 97, 99, 116, 101, 100, 62]

  const N_INDR_EXT: byte := 11

  /** The grouping switch on N_EXT (bit 0) and N_TYPE (bits 1 to 3). */
  function ClassOf(t: byte): Class {
    if t % 2 == 0 then Local else if t / 2 % 8 == 0 then Undefined else Defined
  }

  predicate Indirect(t: byte) { t / 2 % 8 == 5 }

  // ---- Which symbols the new table has ----

  function Extra(locals: seq<Symbol>): seq<Entry> { seq(|locals|, i requires 0 <= i < |locals| => Entry(locals[i], None)) }

  function Kept(syms: seq<Symbol>): seq<Entry> {
    if syms == [] then []
    else
      var n := |syms| - 1;
      Kept(syms[..n]) + if syms[n].name == REDACTED then [] else [Entry(syms[n], Some(n))]
  }

  function ReExported(e: Export): Entry {
    Entry(Symbol(e.name, if e.reExport == [] then e.name else e.reExport, N_INDR_EXT, 0, 0, 0), None)
  }

  function ReExports(exports: seq<Export>): seq<Entry> {
    if exports == [] then []
    else
      var n := |exports| - 1;
      ReExports(exports[..n]) + if exports[n].isReExport then [ReExported(exports[n])] else []
  }

  /** The inputs in the order they are collected. */
  function Entries(locals: seq<Symbol>, syms: seq<Symbol>, exports: seq<Export>): seq<Entry> {
    Extra(locals) + Kept(syms) + ReExports(exports)
  }

  function Bucket(c: Class, es: seq<Entry>): seq<Entry> {
    if es == [] then []
    else
      var n := |es| - 1;
      Bucket(c, es[..n]) + if ClassOf(es[n].sym.typ) == c then [es[n]] else []
  }

  function Order(es: seq<Entry>): seq<Entry> { Bucket(Local, es) + Bucket(Defined, es) + Bucket(Undefined, es) }

  // ---- A stable partition ----

  lemma {:induction false} BucketAppend(c: Class, a: seq<Entry>, b: seq<Entry>)
    ensures Bucket(c, a + b) == Bucket(c, a) + Bucket(c, b)
  {
    if b == [] {
      assert a + b == a;
    } else {
      assert (a + b)[..|a + b| - 1] == a + b[..|b| - 1];
      BucketAppend(c, a, b[..|b| - 1]);
    }
  }

  lemma {:induction false} BucketHolds(c: Class, es: seq<Entry>)
    ensures forall e :: e in Bucket(c, es) <==> e in es && ClassOf(e.sym.typ) == c
    ensures forall i :: 0 <= i < |Bucket(c, es)| ==> ClassOf(Bucket(c, es)[i].sym.typ) == c
  {
    if es != [] {
      BucketHolds(c, es[..|es| - 1]);
      assert es == es[..|es| - 1] + [es[|es| - 1]];
    }
  }

  lemma {:induction false} BucketOfOneClass(c: Class, d: Class, es: seq<Entry>)
    requires forall i :: 0 <= i < |es| ==> ClassOf(es[i].sym.typ) == d
    ensures Bucket(c, es) == if c == d then es else []
  {
    if es != [] {
      BucketOfOneClass(c, d, es[..|es| - 1]);
      assert es == es[..|es| - 1] + [es[|es| - 1]];
    }
  }

  lemma BucketSnoc(c: Class, es: seq<Entry>, e: Entry)
    ensures Bucket(c, es + [e]) == if ClassOf(e.sym.typ) == c then Bucket(c, es) + [e] else Bucket(c, es)
  {
    assert (es + [e])[..|es|] == es;
  }

  lemma {:induction false} OrderPermutes(es: seq<Entry>)
    ensures multiset(Order(es)) == multiset(es) && |Order(es)| == |es|
  {
    hide ClassOf, Bucket;
    if es == [] {
      NoBuckets();
    } else {
      var init, e := es[..|es| - 1], es[|es| - 1];
      OrderPermutes(init);
      assert es == init + [e];
      BucketSnoc(Local, init, e);
      BucketSnoc(Defined, init, e);
      BucketSnoc(Undefined, init, e);
      InsertedSomewhere(Bucket(Local, init), Bucket(Defined, init), Bucket(Undefined, init), e);
    }
  }

  lemma NoBuckets()
    ensures forall c :: Bucket(c, []) == []
  {
  }

  lemma InsertedSomewhere(l: seq<Entry>, d: seq<Entry>, u: seq<Entry>, e: Entry)
    ensures multiset(l + [e] + d + u) == multiset(l + d + u) + multiset{e}
    ensures multiset(l + (d + [e]) + u) == multiset(l + d + u) + multiset{e}
    ensures multiset(l + d + (u + [e])) == multiset(l + d + u) + multiset{e}
  {
  }

  /** The new table is a permutation of the inputs; the three ranges hold exactly the local, the
      defined and the undefined symbols; and within a class the order is that of the inputs. */
  lemma OrderIsStablePartition(es: seq<Entry>)
    ensures multiset(Order(es)) == multiset(es) && |Order(es)| == |es|
    ensures forall c :: Bucket(c, Order(es)) == Bucket(c, es)
    ensures forall i :: 0 <= i < |es| ==>
              && (ClassOf(Order(es)[i].sym.typ) == Local <==> i < |Bucket(Local, es)|)
              && (ClassOf(Order(es)[i].sym.typ) == Undefined <==> i >= |Bucket(Local, es)| + |Bucket(Defined, es)|)
  {
    hide ClassOf, Bucket;
    OrderPermutes(es);
    var l, d, u := Bucket(Local, es), Bucket(Defined, es), Bucket(Undefined, es);
    BucketHolds(Local, es);
    BucketHolds(Defined, es);
    BucketHolds(Undefined, es);
    forall c ensures Bucket(c, Order(es)) == Bucket(c, es) {
      BucketAppend(c, l + d, u);
      BucketAppend(c, l, d);
      BucketOfOneClass(c, Local, l);
      BucketOfOneClass(c, Defined, d);
      BucketOfOneClass(c, Undefined, u);
      assert [] + d == d && l + [] == l;
    }
  }

  // ---- Old and new indices ----

  /** The last slot that holds the symbol of old index k. */
  function Slot(order: seq<Entry>, k: nat): Option<nat> {
    if order == [] then None
    else
      var n := |order| - 1;
      if order[n].original == Some(k) then Some(n) else Slot(order[..n], k)
  }

  function OldToNew(order: seq<Entry>, n: nat): seq<u32> {
    seq(n, (k: nat) => match Slot(order, k) case Some(slot) => slot % U32 case None => 0)
  }

  function OldMapped(order: seq<Entry>, n: nat): seq<bool> { seq(n, (k: nat) => Slot(order, k).Some?) }

  lemma {:induction false} SlotIs(order: seq<Entry>, k: nat)
    ensures Slot(order, k).Some? <==> exists i :: 0 <= i < |order| && order[i].original == Some(k)
    ensures Slot(order, k).Some? ==> Slot(order, k).value < |order| && order[Slot(order, k).value].original == Some(k)
  {
    if order != [] {
      var n := |order| - 1;
      SlotIs(order[..n], k);
      if i :| 0 <= i < |order| && order[i].original == Some(k) && order[n].original != Some(k) {
        assert order[..n][i] == order[i];
      }
    }
  }

  lemma {:induction false} KeptHolds(syms: seq<Symbol>, e: Entry)
    ensures e in Kept(syms) <==>
              e.original.Some? && e.original.value < |syms| && e.sym == syms[e.original.value] && e.sym.name != REDACTED
    ensures multiset(Kept(syms))[e] <= 1
  {
    if syms != [] {
      KeptHolds(syms[..|syms| - 1], e);
    }
  }

  lemma {:induction false} ReExportsHold(exports: seq<Export>, e: Entry)
    ensures e in ReExports(exports) <==> exists i :: 0 <= i < |exports| && exports[i].isReExport && e == ReExported(exports[i])
    ensures e in ReExports(exports) ==> ClassOf(e.sym.typ) == Defined && Indirect(e.sym.typ) && e.original == None
  {
    if exports != [] {
      var n := |exports| - 1;
      ReExportsHold(exports[..n], e);
      if i :| 0 <= i < |exports| && exports[i].isReExport && e == ReExported(exports[i]) && i < n {
        assert exports[..n][i] == exports[i];
      }
    }
  }

  lemma OriginalEntry(locals: seq<Symbol>, syms: seq<Symbol>, exports: seq<Export>, e: Entry)
    requires e.original.Some?
    ensures e in Entries(locals, syms, exports) <==>
              e.original.value < |syms| && e.sym == syms[e.original.value] && e.sym.name != REDACTED
    ensures multiset(Entries(locals, syms, exports))[e] <= 1
  {
    hide Kept, ReExports;
    KeptHolds(syms, e);
    ReExportsHold(exports, e);
    assert e !in Extra(locals);
  }

  /** Every old index that is not redacted is mapped, to the one slot that holds its symbol; no
      other index is mapped. */
  lemma KeptIndexHoldsSameSymbol(locals: seq<Symbol>, syms: seq<Symbol>, exports: seq<Export>, k: nat)
    ensures var order := Order(Entries(locals, syms, exports));
            && (Slot(order, k).Some? <==> k < |syms| && syms[k].name != REDACTED)
            && (Slot(order, k).Some? ==> Slot(order, k).value < |order| && order[Slot(order, k).value].sym == syms[k])
            && (forall i, j :: 0 <= i < j < |order| && order[i].original == Some(k) ==> order[j].original != Some(k))
  {
    hide Order, Entries;
    var es := Entries(locals, syms, exports);
    var order := Order(es);
    OrderPermutes(es);
    SlotIs(order, k);
    forall i | 0 <= i < |order| && order[i].original == Some(k)
      ensures k < |syms| && order[i].sym == syms[k] && syms[k].name != REDACTED && multiset(order)[order[i]] <= 1 {
      assert order[i] in multiset(order);
      OriginalEntry(locals, syms, exports, order[i]);
    }
    if k < |syms| && syms[k].name != REDACTED {
      var e := Entry(syms[k], Some(k));
      OriginalEntry(locals, syms, exports, e);
      assert e in multiset(order);
      var i :| 0 <= i < |order| && order[i] == e;
      assert order[i].original == Some(k);
    }
    forall i, j | 0 <= i < j < |order| && order[i].original == Some(k) ensures order[j].original != Some(k) {
      if order[j].original == Some(k) {
        TwiceCountsTwo(order, i, j);
      }
    }
  }

  // ---- The indirect symbol table ----

  /** INDIRECT_SYMBOL_LOCAL or INDIRECT_SYMBOL_ABS is set: bit 31 or bit 30. */
  predicate Sentinel(x: u32) { x / 0x8000_0000 % 2 == 1 || x / 0x4000_0000 % 2 == 1 }

  function RemapOne(x: u32, oldToNew: seq<u32>, oldMapped: seq<bool>): Option<u32>
    requires |oldToNew| == |oldMapped|
  {
    if Sentinel(x) then Some(x)
    else if x >= |oldToNew| || !oldMapped[x] then None
    else if Sentinel(oldToNew[x]) then None
    else Some(oldToNew[x])
  }

  ghost predicate RemapsTo(indirect: seq<u32>, oldToNew: seq<u32>, oldMapped: seq<bool>, r: Option<seq<u32>>) {
    if |oldToNew| != |oldMapped| then r == None
    else
      && (r.Some? <==> forall i :: 0 <= i < |indirect| ==> RemapOne(indirect[i], oldToNew, oldMapped).Some?)
      && (r.Some? ==> |r.value| == |indirect|
                      && forall i :: 0 <= i < |indirect| ==> RemapOne(indirect[i], oldToNew, oldMapped) == Some(r.value[i]))
  }

  /** remapIndirectSymbols. */
  method RemapIndirectSymbols(indirect: seq<u32>, oldToNew: seq<u32>, oldMapped: seq<bool>) returns (r: Option<seq<u32>>)
    ensures RemapsTo(indirect, oldToNew, oldMapped, r)
  {
    hide Sentinel;
    if |oldToNew| != |oldMapped| {
      return None;
    }
    var remapped: seq<u32> := [];
    for i := 0 to |indirect|
      invariant |remapped| == i
      invariant forall j :: 0 <= j < i ==> RemapOne(indirect[j], oldToNew, oldMapped) == Some(remapped[j])
    {
      var index := indirect[i];
      if Sentinel(index) {
        remapped := remapped + [index];
      } else if index >= |oldToNew| || !oldMapped[index] {
        return None;
      } else if Sentinel(oldToNew[index]) {
        return None;
      } else {
        remapped := remapped + [oldToNew[index]];
      }
    }
    r := Some(remapped);
  }

  /** An indirect entry of the old table means this in the new one. */
  ghost predicate SameTarget(before: u32, after: u32, syms: seq<Symbol>, order: seq<Entry>) {
    if Sentinel(before) then after == before
    else !Sentinel(after) && before < |syms| && after < |order| && order[after] == Entry(syms[before], Some(before))
  }

  /** Why an indirect entry cannot be rewritten: new indices are 32 bits wide. */
  predicate Unmappable(x: u32, syms: seq<Symbol>, order: seq<Entry>) {
    !Sentinel(x) && (x >= |syms| || syms[x].name == REDACTED || (Slot(order, x).Some? && Sentinel(Slot(order, x).value % U32)))
  }

  /** The new index an entry needs is one that 32 bits can hold. */
  predicate IndexFits(x: u32, order: seq<Entry>) {
    Sentinel(x) || (Slot(order, x).Some? && Slot(order, x).value < U32)
  }

  /** The rewrite fails exactly on references to removed or absent symbols and on new indices
      that reach the sentinel bits; a rewritten entry is an unchanged sentinel or names the same
      symbol as before, exactly if its slot is below 2^32, as every slot of a table of at most
      2^32 symbols is. */
  lemma RemapKeepsTargets(locals: seq<Symbol>, syms: seq<Symbol>, exports: seq<Export>, indirect: seq<u32>, r: Option<seq<u32>>)
    requires var order := Order(Entries(locals, syms, exports));
             RemapsTo(indirect, OldToNew(order, |syms|), OldMapped(order, |syms|), r)
    ensures var order := Order(Entries(locals, syms, exports));
            && (r == None <==> exists i :: 0 <= i < |indirect| && Unmappable(indirect[i], syms, order))
            && (r.Some? ==> |r.value| == |indirect|
                            && forall i :: 0 <= i < |indirect| ==>
                                 && (SameTarget(indirect[i], r.value[i], syms, order) <==> IndexFits(indirect[i], order))
                                 && (|order| <= U32 ==> IndexFits(indirect[i], order)))
  {
    hide Order, Entries, Slot, Unmappable, SameTarget, Sentinel, RemapOne, IndexFits;
    var order := Order(Entries(locals, syms, exports));
    forall i | 0 <= i < |indirect|
      ensures Unmappable(indirect[i], syms, order) <==> RemapOne(indirect[i], OldToNew(order, |syms|), OldMapped(order, |syms|)) == None
      ensures r.Some? ==> (SameTarget(indirect[i], r.value[i], syms, order) <==> IndexFits(indirect[i], order))
      ensures r.Some? && |order| <= U32 ==> IndexFits(indirect[i], order) {
      RemapOneKeepsTarget(locals, syms, exports, indirect[i]);
    }
  }

  lemma RemapOneKeepsTarget(locals: seq<Symbol>, syms: seq<Symbol>, exports: seq<Export>, x: u32)
    ensures var order := Order(Entries(locals, syms, exports));
            var y := RemapOne(x, OldToNew(order, |syms|), OldMapped(order, |syms|));
            && (Unmappable(x, syms, order) <==> y == None)
            && (y.Some? ==> (SameTarget(x, y.value, syms, order) <==> IndexFits(x, order)))
            && (y.Some? && |order| <= U32 ==> IndexFits(x, order))
  {
    hide Order, Entries, Slot, Sentinel;
    if !Sentinel(x) {
      var order := Order(Entries(locals, syms, exports));
      KeptIndexHoldsSameSymbol(locals, syms, exports, x);
      SlotIs(order, x);
      if Slot(order, x).Some? {
        var slot := Slot(order, x).value;
        assert slot >= U32 ==> slot % U32 < slot && order[slot % U32].original != Some(x);
      }
    }
  }

  // ---- The records ----

  datatype Nlist = Nlist(name: u32, typ: byte, sect: byte, desc: u16, value: u64)

  datatype Written = Written(pool: Pool, records: seq<Nlist>)

  /** The names an entry puts into the pool. */
  function NamesOf(e: Entry): seq<Name> { [e.sym.name] + if Indirect(e.sym.typ) then [e.sym.indirectName] else [] }

  function AllNames(es: seq<Entry>): seq<Name> {
    if es == [] then [] else AllNames(es[..|es| - 1]) + NamesOf(es[|es| - 1])
  }

  /** What writeRebuiltSymbol refuses besides a full pool. */
  predicate Writable(is64: bool, e: Entry) {
    if Indirect(e.sym.typ) then e.sym.indirectName != [] else is64 || e.sym.value <= MAX_UINT32
  }

  function RecordOf(p: Pool, s: Symbol): Nlist
    requires s.name in p.offsets && (Indirect(s.typ) ==> s.indirectName in p.offsets)
  {
    Nlist(p.offsets[s.name], s.typ, s.sect, s.desc, if Indirect(s.typ) then p.offsets[s.indirectName] else s.value)
  }

  ghost predicate InPool(p: Pool, e: Entry) {
    e.sym.name in p.offsets && (Indirect(e.sym.typ) ==> e.sym.indirectName in p.offsets)
  }

  /** The pool and the records after every entry was written, unless one was refused. */
  ghost predicate Writes(is64: bool, es: seq<Entry>, w: Written) {
    && InternedAll(INITIAL, AllNames(es)) == Some(w.pool)
    && |w.records| == |es|
    && forall i :: 0 <= i < |es| ==>
         Writable(is64, es[i]) && InPool(w.pool, es[i]) && w.records[i] == RecordOf(w.pool, es[i].sym)
  }

  ghost predicate CanWrite(is64: bool, es: seq<Entry>) {
    && (forall i :: 0 <= i < |es| ==> Writable(is64, es[i]))
    && |Layout(AllNames(es))| <= MAX_UINT32
  }

  /** The string table as a reader loads it: as many bytes as the uint32 size in the command says. */
  function Loaded(strings: seq<byte>): seq<byte> { strings[..|strings| % U32] }

  /** parseSymtab on one record, its names taken as they are stored. */
  function ReadRecord(strings: seq<byte>, n: Nlist): Symbol {
    var strtab := Loaded(strings);
    Symbol(if n.name < |strtab| then CString(strtab, n.name) else [],
           if Indirect(n.typ) && n.value < |strtab| then CString(strtab, n.value) else [],
           n.typ, n.sect, n.desc, n.value)
  }

  /** A symbol as the rebuilt table gives it back: an indirect one has its target's pool offset
      for a value, and only an indirect one has a target. */
  ghost predicate ReadsAs(s: Symbol, read: Symbol) {
    && read.name == UpToNul(s.name)
    && read.indirectName == (if Indirect(s.typ) then UpToNul(s.indirectName) else [])
    && read.typ == s.typ && read.sect == s.sect && read.desc == s.desc
    && (!Indirect(s.typ) ==> read.value == s.value)
  }

  lemma {:induction false} AllNamesHold(es: seq<Entry>, i: nat)
    requires i < |es|
    ensures es[i].sym.name in AllNames(es) && (Indirect(es[i].sym.typ) ==> es[i].sym.indirectName in AllNames(es))
  {
    if i < |es| - 1 {
      AllNamesHold(es[..|es| - 1], i);
    }
  }

  lemma NameReadsBack(names: seq<Name>, pad: nat, name: Name)
    requires InternedAll(INITIAL, names).Some? && name in names
    ensures var q := InternedAll(INITIAL, names).value;
            && name in q.offsets && q.offsets[name] < |q.bytes|
            && CString(q.bytes + Zeros(pad), q.offsets[name]) == UpToNul(name)
  {
    hide CString, UpToNul;
    var i :| 0 <= i < |names| && names[i] == name;
    PoolReadsBack(names, pad, i, i);
  }

  /** Reading the rebuilt table gives the regrouped symbols back, as long as the padded pool is
      shorter than 4 GiB. */
  lemma TableReadsBack(is64: bool, es: seq<Entry>, w: Written, pad: nat, i: nat)
    requires Writes(is64, es, w) && |w.pool.bytes| + pad < U32 && i < |es|
    ensures ReadsAs(es[i].sym, ReadRecord(w.pool.bytes + Zeros(pad), w.records[i]))
  {
    hide CString, UpToNul, Indirect, Loaded, Layout, AllNames, InternedAll, Writable;
    AllNamesHold(es, i);
    var s := es[i].sym;
    ShortIsLoaded(w.pool.bytes + Zeros(pad));
    NameReadsBack(AllNames(es), pad, s.name);
    if Indirect(s.typ) {
      NameReadsBack(AllNames(es), pad, s.indirectName);
    }
  }

  lemma ShortIsLoaded(strings: seq<byte>)
    requires |strings| < U32
    ensures Loaded(strings) == strings
  {
  }

  /** Neither the name nor the target of s has anything before its first NUL. */
  predicate Nameless(s: Symbol) {
    UpToNul(s.name) == [] && (Indirect(s.typ) ==> UpToNul(s.indirectName) == [])
  }

  /** The symbols of a written table read back exactly if the distinct names leave room for a
      pointer below 4 GiB, or none of them has a name or a target: a pool padded to exactly 4 GiB
      has, as a uint32, length zero. */
  lemma RecordsReadBackExactly(is64: bool, es: seq<Entry>, w: Written)
    requires Writes(is64, es, w)
    ensures |w.records| == |es|
    ensures (forall i :: 0 <= i < |es| ==> ReadsAs(es[i].sym, ReadRecord(Padded(w.pool.bytes, is64), w.records[i])))
            <==> |Layout(AllNames(es))| <= U32 - PointerSize(is64) || forall i :: 0 <= i < |es| ==> Nameless(es[i].sym)
  {
    hide ReadsAs, ReadRecord, Nameless, Writes, Padded, Layout, AllNames;
    WrittenPool(is64, es, w);
    PaddedLength(w.pool.bytes, is64);
    if |Padded(w.pool.bytes, is64)| < U32 {
      forall i | 0 <= i < |es| ensures ReadsAs(es[i].sym, ReadRecord(Padded(w.pool.bytes, is64), w.records[i])) {
        PaddedTableReadsBack(is64, es, w, i);
      }
    } else {
      forall i | 0 <= i < |es|
        ensures ReadsAs(es[i].sym, ReadRecord(Padded(w.pool.bytes, is64), w.records[i])) <==> Nameless(es[i].sym) {
        NothingLoaded(is64, es, w, i, Padded(w.pool.bytes, is64));
      }
    }
  }

  lemma NothingLoaded(is64: bool, es: seq<Entry>, w: Written, i: nat, strings: seq<byte>)
    requires Writes(is64, es, w) && i < |es| && |strings| == U32
    ensures |w.records| == |es| && (ReadsAs(es[i].sym, ReadRecord(strings, w.records[i])) <==> Nameless(es[i].sym))
  {
    hide CString, UpToNul, Indirect;
    assert Loaded(strings) == [];
  }

  /** The same for whole records: they read back wherever the names leave that room. */
  lemma PaddedTableReadsBack(is64: bool, es: seq<Entry>, w: Written, i: nat)
    requires Writes(is64, es, w) && i < |es| && |Layout(AllNames(es))| <= U32 - PointerSize(is64)
    ensures |w.records| == |es| && ReadsAs(es[i].sym, ReadRecord(Padded(w.pool.bytes, is64), w.records[i]))
  {
    hide CString, UpToNul, Indirect, Writes, ReadsAs, ReadRecord, Layout, AllNames;
    WrittenPool(is64, es, w);
    PaddedLength(w.pool.bytes, is64);
    var p := PointerSize(is64);
    TableReadsBack(is64, es, w, (p - |w.pool.bytes| % p) % p, i);
  }

  lemma WrittenPool(is64: bool, es: seq<Entry>, w: Written)
    requires Writes(is64, es, w)
    ensures |w.records| == |es| && w.pool.bytes == Layout(AllNames(es)) && |w.pool.bytes| < U32
  {
    InterningSucceedsExactly(AllNames(es));
  }

  /** One symbol with a name of 2^32 - 3 bytes fills a pool to 4 GiB and loses its name. */
  lemma FullPoolLosesName()
    ensures var es := [Entry(Symbol(seq(U32 - 3, _ => 65), [], 0, 0, 0, 0), None)];
            exists w ::
              && Writes(true, es, w) && |Padded(w.pool.bytes, true)| == U32
              && ReadRecord(Padded(w.pool.bytes, true), w.records[0]).name == []
              && UpToNul(es[0].sym.name) == es[0].sym.name
  {
    hide Writes, Padded, ReadRecord, UpToNul;
    var name: Name := seq(U32 - 3, _ => 65);
    var w := Written(Pool([0] + name + [0], map[[] := 0, name := 1]), [Nlist(1, 0, 0, 0, 0)]);
    OneNameIsWritten(name);
    PaddedLength(w.pool.bytes, true);
    assert Loaded(Padded(w.pool.bytes, true)) == [];
    NothingRead(Padded(w.pool.bytes, true), w.records[0]);
    UpToNulKeeps(name);
  }

  lemma OneNameIsWritten(name: Name)
    requires name != [] && |name| <= U32 - 3
    ensures Writes(true, [Entry(Symbol(name, [], 0, 0, 0, 0), None)],
                   Written(Pool([0] + name + [0], map[[] := 0, name := 1]), [Nlist(1, 0, 0, 0, 0)]))
  {
    hide InternedAll, AllNames;
    InternedOne(name);
    NamesOfOne(Entry(Symbol(name, [], 0, 0, 0, 0), None));
    assert [name] + [] == [name];
  }

  lemma InternedOne(name: Name)
    requires name != [] && |name| <= U32 - 3
    ensures InternedAll(INITIAL, [name]) == Some(Pool([0] + name + [0], map[[] := 0, name := 1]))
  {
    hide Interned;
    assert [name][..0] == [];
    assert Interned(INITIAL, name) == Some(Pool([0] + name + [0], map[[] := 0, name := 1])) by { InternedFirst(name); }
  }

  lemma InternedFirst(name: Name)
    requires name != [] && |name| <= U32 - 3
    ensures Interned(INITIAL, name) == Some(Pool([0] + name + [0], map[[] := 0, name := 1]))
  {
  }

  lemma NamesOfOne(e: Entry)
    ensures AllNames([e]) == NamesOf(e)
  {
    assert [e][..0] == [];
  }

  lemma NothingRead(strings: seq<byte>, n: Nlist)
    requires Loaded(strings) == []
    ensures ReadRecord(strings, n).name == []
  {
  }
}
