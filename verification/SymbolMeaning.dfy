/** What the entries of a rebuilt symbol table are: the bits that class them, where each input
    stands, and what a re-export becomes. */
module SymbolMeaning {
  import opened Basics
  import opened StringPool
  import opened SymbolTable
  import opened SymbolRebuild

  // ---- The bits of n_type ----

  /** N_EXT is bit 0 and N_TYPE bits 1 to 3; an undefined symbol has none of the latter, and an
      indirect one has bits 1 and 3 of them. */
  lemma ClassIsInBits(t: byte)
    ensures ClassOf(t) == Local <==> t % 2 == 0
    ensures ClassOf(t) == Undefined <==> t % 2 == 1 && t / 2 % 2 == 0 && t / 4 % 2 == 0 && t / 8 % 2 == 0
    ensures Indirect(t) <==> t / 2 % 2 == 1 && t / 4 % 2 == 0 && t / 8 % 2 == 1
  {
    ThreeBits(t / 2);
    assert t / 4 == t / 2 / 2 && t / 8 == t / 2 / 4;
  }

  lemma ThreeBits(n: byte)
    ensures n % 8 == n % 2 + 2 * (n / 2 % 2) + 4 * (n / 4 % 2)
  {
    var q, r := n / 8, n % 8;
    assert n / 2 == 4 * q + r / 2 && n / 4 == 2 * q + r / 4 && n == 8 * q + r;
    assert r == r % 2 + 2 * (r / 2 % 2) + 4 * (r / 4 % 2);
  }

  /** Local, external, undefined and indirect symbols as they occur. */
  lemma ClassesOfCommonTypes()
    ensures ClassOf(0x0E) == Local && ClassOf(0x0F) == Defined && ClassOf(0x01) == Undefined && ClassOf(0x0B) == Defined
    ensures Indirect(0x0A) && Indirect(0x0B) && !Indirect(0x0F) && !Indirect(0x01)
  {
  }

  /** A record of the file: n_value has the width of a pointer. */
  function Stored(is64: bool, n: Nlist): Nlist { n.(value := if is64 then n.value else n.value % U32) }

  /** A table is refused exactly where a pointer-wide n_value would not be the symbol's, an
      indirect symbol has no target, or the names pass uint32; one that is written loses nothing. */
  lemma WidthLosesNothing(is64: bool, es: seq<Entry>, w: Written)
    ensures CanWrite(is64, es) <==>
              && |Layout(AllNames(es))| < U32
              && forall i :: 0 <= i < |es| ==>
                   if Indirect(es[i].sym.typ) then |es[i].sym.indirectName| > 0
                   else is64 || es[i].sym.value % U32 == es[i].sym.value
    ensures Writes(is64, es, w) ==> forall i :: 0 <= i < |es| ==> Stored(is64, w.records[i]) == w.records[i]
  {
    hide Layout, AllNames, InternedAll, Indirect;
  }

  /** An indirect entry is a sentinel exactly if one of its two top bits is set. */
  lemma SentinelIsTopBits(x: u32)
    ensures Sentinel(x) <==> x >= 0x4000_0000
  {
  }

  lemma RedactedIs()
    ensures |REDACTED| == |"<redacted>"| && forall i :: 0 <= i < |REDACTED| ==> REDACTED[i] as char == "<redacted>"[i]
  {
  }

  // ---- Where each input stands ----

  /** How many of the first symbols are kept. */
  function KeptBefore(syms: seq<Symbol>, k: nat): nat
    requires k <= |syms|
  {
    if k == 0 then 0 else KeptBefore(syms, k - 1) + if syms[k - 1].name == REDACTED then 0 else 1
  }

  function ReExportsBefore(exports: seq<Export>, k: nat): nat
    requires k <= |exports|
  {
    if k == 0 then 0 else ReExportsBefore(exports, k - 1) + if exports[k - 1].isReExport then 1 else 0
  }

  lemma {:induction false} KeptCount(syms: seq<Symbol>, n: nat)
    requires n <= |syms|
    ensures |Kept(syms[..n])| == KeptBefore(syms, n)
  {
    hide Kept;
    if n == 0 {
      KeptOfNone();
      assert syms[..0] == [];
    } else {
      KeptCount(syms, n - 1);
      KeptSnoc(syms, n - 1);
    }
  }

  lemma {:induction false} KeptStands(syms: seq<Symbol>, n: nat, k: nat)
    requires k < n <= |syms| && syms[k].name != REDACTED
    ensures KeptBefore(syms, k) < |Kept(syms[..n])| && Kept(syms[..n])[KeptBefore(syms, k)] == Entry(syms[k], Some(k))
    decreases n
  {
    hide Kept, KeptBefore;
    KeptSnoc(syms, n - 1);
    KeptCount(syms, n - 1);
    if k < n - 1 {
      KeptStands(syms, n - 1, k);
    }
  }

  lemma {:induction false} ReExportsCount(exports: seq<Export>, n: nat)
    requires n <= |exports|
    ensures |ReExports(exports[..n])| == ReExportsBefore(exports, n)
  {
    hide ReExports;
    if n == 0 {
      KeptOfNone();
      assert exports[..0] == [];
    } else {
      ReExportsCount(exports, n - 1);
      ReExportsSnoc(exports, n - 1);
    }
  }

  lemma {:induction false} ReExportStands(exports: seq<Export>, n: nat, k: nat)
    requires k < n <= |exports| && exports[k].isReExport
    ensures ReExportsBefore(exports, k) < |ReExports(exports[..n])|
    ensures ReExports(exports[..n])[ReExportsBefore(exports, k)] ==
            Entry(Symbol(exports[k].name, if exports[k].reExport == [] then exports[k].name else exports[k].reExport, 0x0B, 0, 0, 0), None)
    decreases n
  {
    hide ReExports, ReExportsBefore;
    ReExportsSnoc(exports, n - 1);
    ReExportsCount(exports, n - 1);
    if k < n - 1 {
      ReExportStands(exports, n - 1, k);
    }
  }

  /** The entries before they are grouped: every extra symbol, then every symbol that is not
      redacted with its old index, then every re-export as an indirect external symbol that names
      its target, or itself; each in the order of its list, and nothing else. */
  lemma EntriesStand(locals: seq<Symbol>, syms: seq<Symbol>, exports: seq<Export>)
    ensures var es, l, k := Entries(locals, syms, exports), |locals|, KeptBefore(syms, |syms|);
            && |es| == l + k + ReExportsBefore(exports, |exports|)
            && (forall i :: 0 <= i < l ==> es[i] == Entry(locals[i], None))
            && (forall i :: 0 <= i < |syms| && syms[i].name != REDACTED ==>
                  l + KeptBefore(syms, i) < |es| && es[l + KeptBefore(syms, i)] == Entry(syms[i], Some(i)))
            && (forall i :: 0 <= i < |exports| && exports[i].isReExport ==>
                  && l + k + ReExportsBefore(exports, i) < |es|
                  && es[l + k + ReExportsBefore(exports, i)] ==
                     Entry(Symbol(exports[i].name, if exports[i].reExport == [] then exports[i].name else exports[i].reExport, 0x0B, 0, 0, 0), None))
  {
    hide Kept, ReExports, KeptBefore, ReExportsBefore;
    KeptCount(syms, |syms|);
    ReExportsCount(exports, |exports|);
    assert syms[..|syms|] == syms && exports[..|exports|] == exports;
    var es, l, k := Entries(locals, syms, exports), |locals|, KeptBefore(syms, |syms|);
    forall i | 0 <= i < |syms| && syms[i].name != REDACTED
      ensures l + KeptBefore(syms, i) < |es| && es[l + KeptBefore(syms, i)] == Entry(syms[i], Some(i)) {
      KeptStands(syms, |syms|, i);
    }
    forall i | 0 <= i < |exports| && exports[i].isReExport
      ensures l + k + ReExportsBefore(exports, i) < |es|
      ensures es[l + k + ReExportsBefore(exports, i)] ==
              Entry(Symbol(exports[i].name, if exports[i].reExport == [] then exports[i].name else exports[i].reExport, 0x0B, 0, 0, 0), None) {
      ReExportStands(exports, |exports|, i);
    }
  }

  // ---- A re-export in the new file ----

  /** Every re-export of the export trie has a record among the external definitions of the new
      file that reads as a symbol of its name, leading to its target. */
  lemma ReExportIsWritten(is64: bool, locals: seq<Symbol>, syms: seq<Symbol>, exports: seq<Export>, indirect: seq<u32>,
                          led: Linkedit, k: nat) returns (i: nat)
    requires Rebuilds(is64, Order(Entries(locals, syms, exports)), |syms|, indirect, Some(led))
    requires |Layout(AllNames(Order(Entries(locals, syms, exports))))| <= U32 - PointerSize(is64)
    requires k < |exports| && exports[k].isReExport
    ensures var es := Entries(locals, syms, exports);
            |Bucket(Local, es)| <= i < |Bucket(Local, es)| + |Bucket(Defined, es)|
    ensures i < |led.records| && led.records[i].typ == 0x0B
    ensures var read := ReadRecord(led.strings, led.records[i]);
            && read.name == UpToNul(exports[k].name)
            && read.indirectName == UpToNul(if exports[k].reExport == [] then exports[k].name else exports[k].reExport)
  {
    hide Entries, Order, Bucket, Rebuilds, Layout, AllNames, ReadRecord, UpToNul;
    var es := Entries(locals, syms, exports);
    var order := Order(es);
    EntriesStand(locals, syms, exports);
    var e := Entry(Symbol(exports[k].name, if exports[k].reExport == [] then exports[k].name else exports[k].reExport, 0x0B, 0, 0, 0), None);
    assert e in es;
    OrderIsStablePartition(es);
    assert e in multiset(order);
    i :| 0 <= i < |order| && order[i] == e;
    ClassesOfCommonTypes();
    RebuiltFileKeepsSymbols(is64, locals, syms, exports, indirect, Some(led));
    assert ReadsAs(order[i].sym, ReadRecord(led.strings, led.records[i]));
    SameType(led.strings, led.records[i]);
  }

  lemma SameType(strings: seq<byte>, n: Nlist)
    ensures ReadRecord(strings, n).typ == n.typ
  {
  }
}
