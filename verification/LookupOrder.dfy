/** The order in which FindSymbolAddress prefers matches, as symindex_ref.go documents it: a
    ranking of all matches, of which the lookup gives the first. */
module LookupOrder {
  import opened Basics
  import opened CaseFold
  import opened SymbolIndex

  /** A name that matches: by case folding only or exactly, in the export list or in the symbol
      table, at a position. */
  datatype Match = Match(folded: bool, exported: bool, at: nat)

  ghost predicate IsMatch(fold: rune -> rune, syms: seq<Symbol>, items: seq<Export>, symbol: Name, m: Match) {
    && m.at < (if m.exported then |items| else |syms|)
    && var name := if m.exported then items[m.at].name else syms[m.at].name;
       if m.folded then EqualFold(fold, name, symbol) else name == symbol
  }

  /** Exact matches come before folded ones, then symbols before exports, then lower positions. */
  predicate Before(a: Match, b: Match) {
    if a.folded != b.folded then b.folded
    else if a.exported != b.exported then b.exported
    else a.at < b.at
  }

  ghost predicate Least(fold: rune -> rune, syms: seq<Symbol>, items: seq<Export>, symbol: Name, m: Match) {
    IsMatch(fold, syms, items, symbol, m) && forall n :: IsMatch(fold, syms, items, symbol, n) ==> !Before(n, m)
  }

  function AddressOf(syms: seq<Symbol>, items: seq<Export>, m: Match): u64
    requires m.at < (if m.exported then |items| else |syms|)
  {
    if m.exported then items[m.at].address else syms[m.at].value
  }

  ghost predicate LeastIsAt(fold: rune -> rune, syms: seq<Symbol>, items: seq<Export>, symbol: Name, a: u64) {
    exists m :: Least(fold, syms, items, symbol, m) && AddressOf(syms, items, m) == a
  }

  ghost predicate NoMatch(fold: rune -> rune, syms: seq<Symbol>, items: seq<Export>, symbol: Name) {
    forall m :: !IsMatch(fold, syms, items, symbol, m)
  }

  /** Two matches cannot both be least. */
  lemma OneIsLeast(fold: rune -> rune, syms: seq<Symbol>, items: seq<Export>, symbol: Name, m: Match, n: Match)
    requires Least(fold, syms, items, symbol, m) && Least(fold, syms, items, symbol, n)
    ensures m == n
  {
    hide EqualFold;
  }

  /** The first positions found by the scans, as matches. */
  lemma FirstsAreLeast(fold: rune -> rune, syms: seq<Symbol>, items: seq<Export>, symbol: Name)
    ensures var s, e := FirstExact(SymbolNames(syms), symbol), FirstExact(ExportNames(items), symbol);
            var sf, ef := FirstFold(fold, SymbolNames(syms), symbol), FirstFold(fold, ExportNames(items), symbol);
            if s.Some? then s.value < |syms| && Least(fold, syms, items, symbol, Match(false, false, s.value))
            else if e.Some? then e.value < |items| && Least(fold, syms, items, symbol, Match(false, true, e.value))
            else if sf.Some? then sf.value < |syms| && Least(fold, syms, items, symbol, Match(true, false, sf.value))
            else if ef.Some? then ef.value < |items| && Least(fold, syms, items, symbol, Match(true, true, ef.value))
            else NoMatch(fold, syms, items, symbol)
  {
    hide EqualFold;
  }

  /** A lookup in a file with a symbol table gives the address of the least match, and reports
      that there is none exactly if nothing matches. If the exports cannot be read, only the
      symbol table counts, and without a match there the failure is reported. */
  lemma LookupPrefersLeast(fold: rune -> rune, syms: seq<Symbol>, exports: ExportResult, symbol: Name, a: u64)
    ensures var items := match exports case Exported(items) => items case _ => [];
            var answer := Expected(fold, Some(syms), exports, symbol);
            && (answer == Address(a) <==> LeastIsAt(fold, syms, items, symbol, a))
            && (answer == NotFound <==> !exports.ReadFailed? && NoMatch(fold, syms, items, symbol))
            && (answer == ExportsFailed <==> exports.ReadFailed? && NoMatch(fold, syms, items, symbol))
            && answer != MissingSymtab
  {
    hide Least, NoMatch, FirstExact, FirstFold, SymbolNames, ExportNames;
    var items := match exports case Exported(items) => items case _ => [];
    FirstsAreLeast(fold, syms, items, symbol);
    assert ExportNames([]) == [] && FirstExact([], symbol) == None && FirstFold(fold, [], symbol) == None by { NothingFirst(fold, symbol); }
    var answer := Expected(fold, Some(syms), exports, symbol);
    if m :| Least(fold, syms, items, symbol, m) {
      LeastMatches(fold, syms, items, symbol, m);
      forall n | Least(fold, syms, items, symbol, n) ensures n == m {
        OneIsLeast(fold, syms, items, symbol, n, m);
      }
    }
  }

  lemma LeastMatches(fold: rune -> rune, syms: seq<Symbol>, items: seq<Export>, symbol: Name, m: Match)
    requires Least(fold, syms, items, symbol, m)
    ensures m.at < (if m.exported then |items| else |syms|) && !NoMatch(fold, syms, items, symbol)
  {
    hide EqualFold;
  }

  lemma NothingFirst(fold: rune -> rune, symbol: Name)
    ensures ExportNames([]) == [] && FirstExact([], symbol) == None && FirstFold(fold, [], symbol) == None
  {
  }

  /** Without a symbol table nothing is looked up. */
  lemma NoTableNoLookup(fold: rune -> rune, exports: ExportResult, symbol: Name)
    ensures Expected(fold, None, exports, symbol) == MissingSymtab
  {
  }

  /** _f finds the export _F. */
  lemma FoldedExportIsFound()
    ensures Expected(SwapCase, Some([]), Exported([Export([0x5F, 0x46], 0x1000)]), [0x5F, 0x66]) == Address(0x1000)
  {
    hide Expected, IsFoldKey;
    var items := [Export([0x5F, 0x46], 0x1000)];
    var name, symbol: Name := [0x5F, 0x46], [0x5F, 0x66];
    SwapCaseIsLawful();
    AsciiKey(SwapCase, name, name);
    AsciiKey(SwapCase, symbol, name);
    KeysDecideEqualFold(SwapCase, name, symbol, name, name);
    var m := Match(true, true, 0);
    assert IsMatch(SwapCase, [], items, symbol, m);
    forall n | IsMatch(SwapCase, [], items, symbol, n) ensures !Before(n, m) {
    }
    assert Least(SwapCase, [], items, symbol, m);
    LookupPrefersLeast(SwapCase, [], Exported(items), symbol, 0x1000);
  }
}
