/** optimizeLinkedit's symbol part as it runs: three buckets are filled, written one after the
    other through one name pool, and the load commands are updated. */
module SymbolRebuild {
  import opened Basics
  import opened StringPool
  import opened SymbolTable

  // ---- Steps of a write ----

  lemma InternedSnoc(p: Pool, names: seq<Name>, name: Name)
    ensures InternedAll(p, names + [name]) ==
            match InternedAll(p, names) case None => None case Some(q) => Interned(q, name)
  {
    assert (names + [name])[..|names|] == names;
  }

  lemma AllNamesSnoc(es: seq<Entry>, e: Entry)
    ensures AllNames(es + [e]) ==
            if Indirect(e.sym.typ) then AllNames(es) + [e.sym.name] + [e.sym.indirectName] else AllNames(es) + [e.sym.name]
  {
    assert (es + [e])[..|es|] == es;
  }

  /** One more entry was written: p is the pool after its names. */
  lemma WriteSnoc(is64: bool, es: seq<Entry>, w: Written, e: Entry, p: Pool)
    requires Writes(is64, es, w) && Writable(is64, e) && InternedAll(INITIAL, AllNames(es + [e])) == Some(p)
    requires Valid(p) && Extends(w.pool, p) && InPool(p, e)
    ensures Writes(is64, es + [e], Written(p, w.records + [RecordOf(p, e.sym)]))
  {
    hide Valid, AllNames, InternedAll, Indirect;
    forall i | 0 <= i < |es| ensures InPool(p, es[i]) && w.records[i] == RecordOf(p, es[i].sym) {
      assert InPool(w.pool, es[i]);
    }
  }

  lemma {:induction false} LayoutGrows(a: seq<Name>, b: seq<Name>)
    ensures |Layout(a)| <= |Layout(a + b)|
  {
    if b == [] {
      assert a + b == a;
    } else {
      assert (a + b)[..|a + b| - 1] == a + b[..|b| - 1];
      LayoutGrows(a, b[..|b| - 1]);
    }
  }

  lemma {:induction false} AllNamesAppend(a: seq<Entry>, b: seq<Entry>)
    ensures AllNames(a + b) == AllNames(a) + AllNames(b)
  {
    hide NamesOf;
    if b == [] {
      assert a + b == a;
    } else {
      assert (a + b)[..|a + b| - 1] == a + b[..|b| - 1];
      AllNamesAppend(a, b[..|b| - 1]);
    }
  }

  /** A prefix that cannot be written never becomes writable. */
  lemma CanWritePrefix(is64: bool, a: seq<Entry>, b: seq<Entry>)
    requires CanWrite(is64, a + b)
    ensures CanWrite(is64, a)
  {
    hide Layout, AllNames, Writable;
    AllNamesAppend(a, b);
    LayoutGrows(AllNames(a), AllNames(b));
    assert forall i :: 0 <= i < |a| ==> a[i] == (a + b)[i];
  }

  /** What was written could be written. */
  lemma WrittenCanBeWritten(is64: bool, es: seq<Entry>, w: Written)
    requires Writes(is64, es, w)
    ensures CanWrite(is64, es) && Valid(w.pool)
  {
    hide Writable, InPool, RecordOf, Valid;
    InterningSucceedsExactly(AllNames(es));
    assert Valid(INITIAL) by { InitialIsValid(); }
    InterningAllKeeps(INITIAL, AllNames(es));
  }

  lemma InitialIsValid()
    ensures Valid(INITIAL)
  {
  }

  lemma SlotSnoc(order: seq<Entry>, e: Entry, n: nat)
    ensures OldToNew(order + [e], n) ==
            if e.original.Some? && e.original.value < n then OldToNew(order, n)[e.original.value := |order| % U32] else OldToNew(order, n)
    ensures OldMapped(order + [e], n) ==
            if e.original.Some? && e.original.value < n then OldMapped(order, n)[e.original.value := true] else OldMapped(order, n)
  {
    assert (order + [e])[..|order|] == order;
  }

  // ---- The writer ----

  ghost predicate OriginalsBelow(es: seq<Entry>, n: nat) {
    forall e :: e in es && e.original.Some? ==> e.original.value < n
  }

  class SymbolWriter {
    const is64: bool
    const pool: NamePool
    const oldToNew: array<u32>
    const oldMapped: array<bool>
    var records: seq<Nlist>
    var newIndex: u32
    ghost var written: seq<Entry>

    ghost predicate Sound()
      reads this, pool, oldToNew, oldMapped
    {
      && Writes(is64, written, Written(pool.Value(), records))
      && oldToNew.Length == oldMapped.Length
      && newIndex == |written| % U32
      && oldToNew[..] == OldToNew(written, oldToNew.Length)
      && oldMapped[..] == OldMapped(written, oldMapped.Length)
    }

    constructor (is64: bool, n: nat)
      ensures Sound() && written == [] && this.is64 == is64 && oldToNew.Length == n
      ensures fresh(pool) && fresh(oldToNew) && fresh(oldMapped)
    {
      this.is64 := is64;
      pool := new NamePool();
      oldToNew := new u32[n](_ => 0);
      oldMapped := new bool[n](_ => false);
      records, newIndex, written := [], 0, [];
    }

    /** The pool part of writeRebuiltSymbol, and its checks. */
    method Write(e: Entry) returns (record: Option<Nlist>)
      requires Writes(is64, written, Written(pool.Value(), records))
      modifies pool
      ensures record.Some? <==> CanWrite(is64, written + [e])
      ensures record.Some? ==> Writes(is64, written + [e], Written(pool.Value(), records + [record.value]))
    {
      hide Writes, CanWrite, Interned, InternedAll, Valid, Indirect, AllNames;
      ghost var was := pool.Value();
      StartedWrite(is64, written, Written(was, records), e);
      var name := pool.Intern(e.sym.name);
      if name == None {
        return None;
      }
      var value := e.sym.value;
      if Indirect(e.sym.typ) {
        if e.sym.indirectName == [] {
          return None;
        }
        var target := pool.Intern(e.sym.indirectName);
        if target == None {
          return None;
        }
        value := target.value;
      }
      if !is64 && value > MAX_UINT32 {
        return None;
      }
      record := Some(Nlist(name.value, e.sym.typ, e.sym.sect, e.sym.desc, value));
      WriteSnoc(is64, written, Written(was, records), e, pool.Value());
    }

    /** The closure writeSym. */
    method WriteSym(e: Entry) returns (ok: bool)
      requires Sound() && (e.original.Some? ==> e.original.value < oldToNew.Length)
      modifies this, pool, oldToNew, oldMapped
      ensures ok <==> CanWrite(is64, old(written) + [e])
      ensures ok ==> Sound() && written == old(written) + [e]
    {
      hide Writes, CanWrite, OldToNew, OldMapped;
      var record := Write(e);
      if record == None {
        return false;
      }
      SlotSnoc(written, e, oldToNew.Length);
      if e.original.Some? {
        oldToNew[e.original.value] := newIndex;
        oldMapped[e.original.value] := true;
      }
      records := records + [record.value];
      newIndex := (newIndex + 1) % U32;
      written := written + [e];
      return true;
    }

    method WriteBucket(es: seq<Entry>) returns (ok: bool)
      requires Sound() && OriginalsBelow(es, oldToNew.Length)
      modifies this, pool, oldToNew, oldMapped
      ensures ok <==> CanWrite(is64, old(written) + es)
      ensures ok ==> Sound() && written == old(written) + es
    {
      hide CanWrite, Sound;
      assert written + [] == written;
      for i := 0 to |es|
        invariant Sound() && written == old(written) + es[..i]
      {
        ghost var was := written;
        ok := WriteSym(es[i]);
        assert was + [es[i]] == old(written) + es[..i + 1];
        if !ok {
          assert (was + [es[i]]) + es[i + 1..] == old(written) + es;
          if CanWrite(is64, old(written) + es) {
            CanWritePrefix(is64, was + [es[i]], es[i + 1..]);
          }
          return;
        }
      }
      assert es[..|es|] == es;
      SoundCanBeWritten();
      ok := true;
    }

    lemma SoundCanBeWritten()
      requires Sound()
      ensures CanWrite(is64, written)
    {
      hide Writes, CanWrite;
      WrittenCanBeWritten(is64, written, Written(pool.Value(), records));
    }
  }

  /** Interning an entry's names extends a written table's pool as Writes demands, and an entry
      that is refused makes the whole table unwritable. */
  lemma StartedWrite(is64: bool, es: seq<Entry>, w: Written, e: Entry)
    requires Writes(is64, es, w)
    ensures Valid(w.pool)
    ensures CanWrite(is64, es + [e]) <==> Writable(is64, e) && InternedAll(INITIAL, AllNames(es + [e])).Some?
    ensures InternedAll(INITIAL, AllNames(es + [e])) ==
            match Interned(w.pool, e.sym.name)
            case None => None
            case Some(p) => if Indirect(e.sym.typ) then Interned(p, e.sym.indirectName) else Some(p)
  {
    hide Writable, Interned, AllNames, Layout, Indirect, Valid;
    WrittenCanBeWritten(is64, es, w);
    AllNamesSnoc(es, e);
    InternedSnoc(INITIAL, AllNames(es), e.sym.name);
    InternedSnoc(INITIAL, AllNames(es) + [e.sym.name], e.sym.indirectName);
    InterningSucceedsExactly(AllNames(es + [e]));
    assert forall i :: 0 <= i < |es| ==> (es + [e])[i] == es[i];
    assert (es + [e])[|es|] == e;
  }

  // ---- Filling the buckets ----

  class Buckets {
    var localSyms: seq<Entry>
    var extdefSyms: seq<Entry>
    var undefSyms: seq<Entry>

    ghost predicate Hold(es: seq<Entry>)
      reads this
    {
      localSyms == Bucket(Local, es) && extdefSyms == Bucket(Defined, es) && undefSyms == Bucket(Undefined, es)
    }

    constructor ()
      ensures Hold([])
    {
      localSyms, extdefSyms, undefSyms := [], [], [];
    }

    method Add(e: Entry, ghost es: seq<Entry>)
      requires Hold(es)
      modifies this
      ensures Hold(es + [e])
    {
      hide Bucket;
      BucketSnoc(Local, es, e);
      BucketSnoc(Defined, es, e);
      BucketSnoc(Undefined, es, e);
      if e.sym.typ % 2 == 0 {
        localSyms := localSyms + [e];
      } else if e.sym.typ / 2 % 8 == 0 {
        undefSyms := undefSyms + [e];
      } else {
        extdefSyms := extdefSyms + [e];
      }
    }

    /** The three collecting loops. */
    method Collect(locals: seq<Symbol>, syms: seq<Symbol>, exports: seq<Export>)
      requires Hold([])
      modifies this
      ensures Hold(Entries(locals, syms, exports))
    {
      hide Hold, Kept, ReExports;
      assert Extra(locals[..0]) == [];
      for i := 0 to |locals|
        invariant Hold(Extra(locals[..i]))
      {
        Add(Entry(locals[i], None), Extra(locals[..i]));
        assert Extra(locals[..i]) + [Entry(locals[i], None)] == Extra(locals[..i + 1]);
      }
      assert locals[..|locals|] == locals;
      assert Extra(locals) + Kept(syms[..0]) == Extra(locals) by { KeptOfNone(); }
      for i := 0 to |syms|
        invariant Hold(Extra(locals) + Kept(syms[..i]))
      {
        KeptSnoc(syms, i);
        if syms[i].name != REDACTED {
          Add(Entry(syms[i], Some(i)), Extra(locals) + Kept(syms[..i]));
          assert Extra(locals) + Kept(syms[..i]) + [Entry(syms[i], Some(i))] == Extra(locals) + Kept(syms[..i + 1]);
        }
      }
      assert syms[..|syms|] == syms;
      ghost var kept := Extra(locals) + Kept(syms);
      assert kept + ReExports(exports[..0]) == kept by { KeptOfNone(); }
      for i := 0 to |exports|
        invariant Hold(kept + ReExports(exports[..i]))
      {
        ReExportsSnoc(exports, i);
        if exports[i].isReExport {
          var targetName := exports[i].reExport;
          if targetName == [] {
            targetName := exports[i].name;
          }
          AddReExport(Symbol(exports[i].name, targetName, N_INDR_EXT, 0, 0, 0), kept + ReExports(exports[..i]));
          assert kept + ReExports(exports[..i]) + [ReExported(exports[i])] == kept + ReExports(exports[..i + 1]);
        }
      }
      assert exports[..|exports|] == exports;
    }

    /** Re-exports go to the external definitions whatever their type says. */
    method AddReExport(s: Symbol, ghost es: seq<Entry>)
      requires Hold(es) && s.typ == N_INDR_EXT
      modifies this
      ensures Hold(es + [Entry(s, None)])
    {
      hide Bucket;
      BucketSnoc(Local, es, Entry(s, None));
      BucketSnoc(Defined, es, Entry(s, None));
      BucketSnoc(Undefined, es, Entry(s, None));
      extdefSyms := extdefSyms + [Entry(s, None)];
    }
  }

  lemma KeptOfNone()
    ensures Kept([]) == [] && ReExports([]) == []
  {
  }

  lemma KeptSnoc(syms: seq<Symbol>, i: nat)
    requires i < |syms|
    ensures Kept(syms[..i + 1]) == if syms[i].name == REDACTED then Kept(syms[..i]) else Kept(syms[..i]) + [Entry(syms[i], Some(i))]
  {
    assert syms[..i + 1][..i] == syms[..i];
  }

  lemma ReExportsSnoc(exports: seq<Export>, i: nat)
    requires i < |exports|
    ensures ReExports(exports[..i + 1]) ==
            if exports[i].isReExport then ReExports(exports[..i]) + [ReExported(exports[i])] else ReExports(exports[..i])
  {
    assert exports[..i + 1][..i] == exports[..i];
  }

  /** Every old index in a bucket is one of the old table. */
  lemma OriginalsInRange(locals: seq<Symbol>, syms: seq<Symbol>, exports: seq<Export>)
    ensures forall c :: OriginalsBelow(Bucket(c, Entries(locals, syms, exports)), |syms|)
  {
    hide Entries, Bucket;
    var es := Entries(locals, syms, exports);
    forall c, e | e in Bucket(c, es) && e.original.Some? ensures e.original.value < |syms| {
      BucketHolds(c, es);
      OriginalEntry(locals, syms, exports, e);
    }
  }

  // ---- The rebuilt tables ----

  /** What goes into __LINKEDIT. */
  datatype Linkedit = Linkedit(records: seq<Nlist>, indirect: seq<u32>, strings: seq<byte>)

  /** The tables are those of the regrouped symbols, or nothing could be written. */
  ghost predicate Rebuilds(is64: bool, order: seq<Entry>, n: nat, indirect: seq<u32>, out: Option<Linkedit>) {
    match out
    case None => !CanWrite(is64, order) || RemapsTo(indirect, OldToNew(order, n), OldMapped(order, n), None)
    case Some(led) =>
      && CanWrite(is64, order)
      && RemapsTo(indirect, OldToNew(order, n), OldMapped(order, n), Some(led.indirect))
      && exists w :: Writes(is64, order, w) && w.records == led.records && led.strings == Padded(w.pool.bytes, is64)
  }

  lemma CountsAdd(a: nat, b: nat, c: nat)
    ensures (a % U32 + b % U32 + c % U32) % U32 == (a + b + c) % U32
  {
  }

  /** The counts LC_DYSYMTAB and LC_SYMTAB carry. */
  class SymbolCommands {
    const hasSymtab: bool
    var syms: seq<Symbol>
    var indirectSyms: seq<u32>
    var nsyms: u32
    var strsize: u32
    var nlocalsym: u32
    var iextdefsym: u32
    var nextdefsym: u32
    var iundefsym: u32
    var nundefsym: u32
    var nindirectsyms: u32

    constructor (hasSymtab: bool, syms: seq<Symbol>, indirectSyms: seq<u32>)
      requires !hasSymtab ==> syms == []
    {
      this.hasSymtab, this.syms, this.indirectSyms := hasSymtab, syms, indirectSyms;
      nsyms, strsize, nlocalsym, iextdefsym, nextdefsym, iundefsym, nundefsym, nindirectsyms := 0, 0, 0, 0, 0, 0, 0, 0;
    }

    /** The three ranges of the commands are those of the classes in the new table; on failure
        nothing changes. */
    method OptimizeSymbols(is64: bool, locals: seq<Symbol>, exports: seq<Export>) returns (out: Option<Linkedit>)
      requires !hasSymtab ==> syms == []
      modifies this
      ensures syms == old(syms)
      ensures Rebuilds(is64, Order(Entries(locals, syms, exports)), |syms|, old(indirectSyms), out)
      ensures out == None ==> unchanged(this)
      ensures out.Some? ==>
                var es := Entries(locals, syms, exports);
                && indirectSyms == out.value.indirect && nindirectsyms == |indirectSyms| % U32
                && nlocalsym == |Bucket(Local, es)| % U32 && iextdefsym == nlocalsym
                && nextdefsym == |Bucket(Defined, es)| % U32 && nundefsym == |Bucket(Undefined, es)| % U32
                && iundefsym == (|Bucket(Local, es)| + |Bucket(Defined, es)|) % U32
                && (hasSymtab ==> nsyms == |es| % U32 && strsize == |out.value.strings| % U32)
    {
      hide Entries, Bucket, Rebuilds;
      ghost var es := Entries(locals, syms, exports);
      var buckets := new Buckets();
      buckets.Collect(locals, syms, exports);
      OrderPermutes(es);
      OriginalsInRange(locals, syms, exports);
      var l, d, u := buckets.localSyms, buckets.extdefSyms, buckets.undefSyms;
      out := Serialize(is64, l, d, u, |syms|, indirectSyms);
      if out == None {
        return;
      }
      Update(|l|, |d|, |u|, out.value);
    }

    /** Counts wrap as uint32 does. */
    method Update(l: nat, d: nat, u: nat, led: Linkedit)
      modifies this
      ensures syms == old(syms) && indirectSyms == led.indirect && nindirectsyms == |led.indirect| % U32
      ensures nlocalsym == l % U32 && iextdefsym == l % U32 && nextdefsym == d % U32
      ensures iundefsym == (l + d) % U32 && nundefsym == u % U32
      ensures hasSymtab ==> nsyms == (l + d + u) % U32 && strsize == |led.strings| % U32
    {
      indirectSyms := led.indirect;
      if hasSymtab {
        CountsAdd(l, d, u);
        nsyms := (l % U32 + d % U32 + u % U32) % U32;
        strsize := |led.strings| % U32;
      }
      CountsAdd(l, d, 0);
      nlocalsym, iextdefsym, nextdefsym := l % U32, l % U32, d % U32;
      iundefsym, nundefsym := (l % U32 + d % U32) % U32, u % U32;
      nindirectsyms := |indirectSyms| % U32;
    }
  }

  /** Locals, external definitions, undefined symbols: the order LC_DYSYMTAB asks for. */
  method WriteAll(writer: SymbolWriter, l: seq<Entry>, d: seq<Entry>, u: seq<Entry>) returns (ok: bool)
    requires writer.Sound() && writer.written == []
    requires OriginalsBelow(l, writer.oldToNew.Length) && OriginalsBelow(d, writer.oldToNew.Length)
    requires OriginalsBelow(u, writer.oldToNew.Length)
    modifies writer, writer.pool, writer.oldToNew, writer.oldMapped
    ensures ok <==> CanWrite(writer.is64, l + d + u)
    ensures ok ==> writer.Sound() && writer.written == l + d + u
  {
    hide SymbolWriter.Sound, CanWrite, OriginalsBelow;
    assert [] + l == l;
    ok := writer.WriteBucket(l);
    if !ok {
      assert l + (d + u) == l + d + u;
      if CanWrite(writer.is64, l + d + u) {
        CanWritePrefix(writer.is64, l, d + u);
      }
      return;
    }
    ok := writer.WriteBucket(d);
    if !ok {
      if CanWrite(writer.is64, l + d + u) {
        CanWritePrefix(writer.is64, l + d, u);
      }
      return;
    }
    ok := writer.WriteBucket(u);
  }

  /** The records, the indirect table and the padded names. */
  method Serialize(is64: bool, l: seq<Entry>, d: seq<Entry>, u: seq<Entry>, n: nat, indirect: seq<u32>)
    returns (out: Option<Linkedit>)
    requires OriginalsBelow(l, n) && OriginalsBelow(d, n) && OriginalsBelow(u, n)
    ensures Rebuilds(is64, l + d + u, n, indirect, out)
  {
    hide CanWrite, Writes, RemapsTo, OldToNew, OldMapped, OriginalsBelow;
    var writer := new SymbolWriter(is64, n);
    var ok := WriteAll(writer, l, d, u);
    if !ok {
      return None;
    }
    var remapped := RemapIndirectSymbols(indirect, writer.oldToNew[..], writer.oldMapped[..]);
    if remapped == None {
      return None;
    }
    ghost var w := Written(writer.pool.Value(), writer.records);
    writer.pool.Align(is64);
    out := Some(Linkedit(writer.records, remapped.value, writer.pool.bytes));
    assert Writes(is64, l + d + u, w) && w.records == out.value.records;
  }

  // ---- What a reader of the new file sees ----

  /** The rebuild fails exactly on a table that cannot be written and on an indirect entry that
      cannot be rewritten. Through the new file, if the names leave room for a pointer below
      4 GiB, every record reads as the symbol the regrouped order puts there, and every indirect
      entry is the unchanged sentinel or, where its slot fits 32 bits, leads to a record that
      reads as the symbol it led to before. */
  lemma RebuiltFileKeepsSymbols(is64: bool, locals: seq<Symbol>, syms: seq<Symbol>, exports: seq<Export>,
                                indirect: seq<u32>, out: Option<Linkedit>)
    requires Rebuilds(is64, Order(Entries(locals, syms, exports)), |syms|, indirect, out)
    ensures var order := Order(Entries(locals, syms, exports));
            out == None <==> !CanWrite(is64, order) || exists i :: 0 <= i < |indirect| && Unmappable(indirect[i], syms, order)
    ensures var order := Order(Entries(locals, syms, exports));
            out.Some? && |Layout(AllNames(order))| <= U32 - PointerSize(is64) ==>
              var led := out.value;
              && |led.records| == |order| && |led.indirect| == |indirect|
              && (forall i :: 0 <= i < |order| ==> ReadsAs(order[i].sym, ReadRecord(led.strings, led.records[i])))
              && (forall i :: 0 <= i < |indirect| ==>
                    if Sentinel(indirect[i]) then led.indirect[i] == indirect[i]
                    else (IndexFits(indirect[i], order) || |order| <= U32) ==>
                      && indirect[i] < |syms| && led.indirect[i] < |order| && !Sentinel(led.indirect[i])
                      && ReadsAs(syms[indirect[i]], ReadRecord(led.strings, led.records[led.indirect[i]])))
  {
    hide Order, Entries, CanWrite, Unmappable, RemapsTo, Writes, ReadsAs, ReadRecord, Sentinel, OldToNew, OldMapped, Layout, AllNames,
         IndexFits, Padded;
    var order := Order(Entries(locals, syms, exports));
    if out.Some? {
      var led := out.value;
      RemapKeepsTargets(locals, syms, exports, indirect, Some(led.indirect));
      if |Layout(AllNames(order))| <= U32 - PointerSize(is64) {
        var w :| Writes(is64, order, w) && w.records == led.records && led.strings == Padded(w.pool.bytes, is64);
        WrittenPool(is64, order, w);
        forall i | 0 <= i < |order| ensures ReadsAs(order[i].sym, ReadRecord(led.strings, led.records[i])) {
          PaddedTableReadsBack(is64, order, w, i);
        }
        forall i | 0 <= i < |indirect| ensures Sentinel(indirect[i]) ==> led.indirect[i] == indirect[i] {
          if Sentinel(indirect[i]) {
            SentinelFits(indirect[i], order);
          }
        }
      }
    } else if CanWrite(is64, order) {
      RemapKeepsTargets(locals, syms, exports, indirect, None);
    }
  }

  lemma SentinelFits(x: u32, order: seq<Entry>)
    requires Sentinel(x)
    ensures IndexFits(x, order)
  {
  }
}
