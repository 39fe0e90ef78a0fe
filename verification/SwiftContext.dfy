/** getContextDescUncached of swift.go: resolving a Swift context descriptor and its parent
    chain through a cursor. It is the definition the memo in SwiftMemo has to reproduce. */
module SwiftContext {
  import opened Basics

  /** maxSwiftContextDepth. */
  const MAX_DEPTH: nat := 1024

  /** Everything a lookup depends on besides the cursor: the section bytes, the address
      conversion, and the helpers that read through ReadAtAddr or cached tables. callerCode
      says that a PointerResolver or a custom address converter is installed. */
  datatype World = World(
    data: seq<byte>,
    offsetOf: u64 -> Option<int>,          // VMAddr2Offet, as the int64 that Seek receives
    pointerAt: u64 -> Option<u64>,         // GetPointerAtAddress
    bindName: u64 -> Option<string>,       // GetBindName
    symbolName: u64 -> Option<string>,     // first non-debug name of FindAddressSymbols
    cstring: u64 -> Option<string>,        // GetCString
    callerCode: bool)

  datatype Context = Context(flags: u32, parentOffset: int, nameOffset: int, name: string, parent: string)

  const EMPTY: Context := Context(0, 0, 0, "", "")

  datatype Error =
    | NoPointer(addr: u64) | NoSeek(addr: u64) | NoDescriptor(addr: u64) | NoName(addr: u64)
    | Cycle(addr: u64) | TooDeep(addr: u64) | InParent(inner: Error)

  /** A lookup's result and where it leaves the cursor. */
  datatype Lookup = Found(ctx: Context, pos: nat) | Failed(error: Error, pos: nat)

  // ---- Reading a descriptor ----

  function Word32(data: seq<byte>, off: nat): (r: u32)
    requires off + 4 <= |data|
  {
    (data[off] as int) + 256 * (data[off + 1] as int) + 65536 * (data[off + 2] as int) + 16777216 * (data[off + 3] as int)
  }

  /** A relative offset, as a signed 32-bit number. */
  function Signed32(w: u32): int { if w < 0x8000_0000 then w else w - U32 }

  /** RelativeDirectPointer.GetAddress for a field at addr. */
  function RelativeAddress(addr: int, rel: int): (r: u64) { (addr + rel) % U64 }

  /** Three little-endian words at the cursor; a short read stops at the end of the data. */
  function DescriptorAt(data: seq<byte>, off: nat): Option<Context> {
    if off + 12 > |data| then None
    else Some(Context(Word32(data, off), Signed32(Word32(data, off + 4)), Signed32(Word32(data, off + 8)), "", ""))
  }

  function AfterRead(data: seq<byte>, off: nat): nat {
    if off + 12 <= |data| then off + 12 else if off < |data| then |data| else off
  }

  /** The kinds whose name is read: module, protocol, class, struct, enum. */
  predicate Named(flags: u32) { flags % 32 in {0, 3, 16, 17, 18} }

  // ---- The lookup ----

  /** getContextDescChain from a cursor at pos; chain holds the descriptors of the children. */
  function Chain(w: World, addr: u64, chain: seq<u64>, pos: nat): Lookup
    decreases MAX_DEPTH - |chain|
  {
    match Target(w, addr)
    case Name(n) => Found(EMPTY.(name := n), pos)
    case NoTarget => Failed(NoPointer(addr - 1), pos)
    case At(ptr) => if ptr == 0 then Found(EMPTY, pos) else ChainAt(w, ptr, chain, pos)
  }

  datatype Pointer = At(ptr: u64) | Name(name: string) | NoTarget

  /** The descriptor address an odd address stands for, or a bind name in its place. */
  function Target(w: World, addr: u64): Pointer {
    if addr % 2 == 0 then At(addr)
    else
      match w.pointerAt(addr - 1)
      case Some(ptr) => At(ptr)
      case None => (match w.bindName(addr - 1) case Some(n) => Name(n) case None => NoTarget)
  }

  function ChainAt(w: World, ptr: u64, chain: seq<u64>, pos: nat): Lookup
    requires ptr != 0
    decreases MAX_DEPTH - |chain|, 0
  {
    match SeekTarget(w, ptr)
    case None => (
      match FallbackName(w, ptr)
      case Some(n) => Found(EMPTY.(name := n), pos)
      case None => Failed(NoSeek(ptr), pos))
    case Some(off) =>
      var after := AfterRead(w.data, off);
      match DescriptorAt(w.data, off)
      case None => (
        match w.bindName(ptr)
        case Some(n) => Found(EMPTY.(name := n), after)
        case None => Failed(NoDescriptor(ptr), after))
      case Some(ctx) =>
        if ctx.parentOffset == 0 then WithName(w, ptr, ctx, after)
        else if ptr in chain then Failed(Cycle(ptr), after)
        else if |chain| >= MAX_DEPTH then Failed(TooDeep(ptr), after)
        else
          match Chain(w, RelativeAddress(ptr + 4, ctx.parentOffset), chain + [ptr], after)
          case Failed(e, end) => Failed(InParent(e), end)
          case Found(parent, end) => WithName(w, ptr, ctx.(parent := QualifiedName(parent)), end)
  }

  /** SeekToAddr: the new cursor position, unless the address does not convert or converts to
      a negative offset. */
  function SeekTarget(w: World, ptr: u64): Option<nat> {
    var off := w.offsetOf(ptr);
    if off.Some? && off.value >= 0 then Some(off.value) else None
  }

  function FallbackName(w: World, ptr: u64): Option<string> {
    if w.bindName(ptr).Some? then w.bindName(ptr) else w.symbolName(ptr)
  }

  /** The dotted name of a parent context, as the child records it. */
  function QualifiedName(parent: Context): string {
    if parent.parent != "" then if parent.name != "" then parent.parent + "." + parent.name else parent.parent
    else parent.name
  }

  function WithName(w: World, ptr: u64, ctx: Context, pos: nat): Lookup {
    if Named(ctx.flags) && ctx.nameOffset != 0 then
      match w.cstring(RelativeAddress(ptr + 8, ctx.nameOffset))
      case Some(n) => Found(ctx.(name := n), pos)
      case None => Failed(NoName(ptr), pos)
    else Found(ctx, pos)
  }

  function Uncached(w: World, addr: u64, pos: nat): Lookup { Chain(w, addr, [], pos) }

  /** A cursor over the section. library: it is the library's own reader. */
  class Cursor {
    var pos: nat
    const library: bool

    constructor (library: bool)
      ensures pos == 0 && this.library == library
    {
      pos, this.library := 0, library;
    }

    method SeekToAddr(w: World, addr: u64) returns (ok: bool)
      modifies this
      ensures ok <==> SeekTarget(w, addr).Some?
      ensures pos == if ok then SeekTarget(w, addr).value else old(pos)
    {
      var off := w.offsetOf(addr);
      ok := off.Some? && off.value >= 0;
      if ok {
        pos := off.value;
      }
    }

    /** TargetModuleContextDescriptor.Read at the current position. */
    method ReadDescriptor(w: World) returns (ctx: Option<Context>)
      modifies this
      ensures ctx == DescriptorAt(w.data, old(pos)) && pos == AfterRead(w.data, old(pos))
    {
      ctx := DescriptorAt(w.data, pos);
      pos := AfterRead(w.data, pos);
    }
  }

  /** What a lookup returns to its caller. */
  datatype Answer = Ok(ctx: Context) | Err(error: Error)

  function AnswerOf(l: Lookup): Answer {
    match l case Found(ctx, _) => Ok(ctx) case Failed(e, _) => Err(e)
  }

  /** getContextDescChain: it terminates on every metadata graph, its recursion bounded by the
      depth limit. */
  method GetContextDescChain(w: World, cr: Cursor, addr: u64, chain: seq<u64>) returns (a: Answer)
    modifies cr
    ensures a == AnswerOf(Chain(w, addr, chain, old(cr.pos))) && cr.pos == Chain(w, addr, chain, old(cr.pos)).pos
    decreases MAX_DEPTH - |chain|
  {
    var ptr: u64 := addr;
    if addr % 2 == 1 {
      var slot := addr - 1;
      var p := w.pointerAt(slot);
      if p == None {
        var bind := w.bindName(slot);
        return if bind.Some? then Ok(EMPTY.(name := bind.value)) else Err(NoPointer(slot));
      }
      ptr := p.value;
    }
    if ptr == 0 {
      return Ok(EMPTY);
    }
    a := ReadContextAt(w, cr, ptr, chain);
  }

  method ReadContextAt(w: World, cr: Cursor, ptr: u64, chain: seq<u64>) returns (a: Answer)
    requires ptr != 0
    modifies cr
    ensures a == AnswerOf(ChainAt(w, ptr, chain, old(cr.pos))) && cr.pos == ChainAt(w, ptr, chain, old(cr.pos)).pos
    decreases MAX_DEPTH - |chain|, 0
  {
    hide DescriptorAt, AfterRead;
    var ok := cr.SeekToAddr(w, ptr);
    if !ok {
      var bind := w.bindName(ptr);
      if bind.Some? {
        return Ok(EMPTY.(name := bind.value));
      }
      var sym := w.symbolName(ptr);
      return if sym.Some? then Ok(EMPTY.(name := sym.value)) else Err(NoSeek(ptr));
    }
    var read := cr.ReadDescriptor(w);
    if read == None {
      var bind := w.bindName(ptr);
      return if bind.Some? then Ok(EMPTY.(name := bind.value)) else Err(NoDescriptor(ptr));
    }
    var ctx := read.value;
    if ctx.parentOffset != 0 {
      if ptr in chain {
        return Err(Cycle(ptr));
      }
      if |chain| >= MAX_DEPTH {
        return Err(TooDeep(ptr));
      }
      var parent := GetContextDescChain(w, cr, RelativeAddress(ptr + 4, ctx.parentOffset), chain + [ptr]);
      if parent.Err? {
        return Err(InParent(parent.error));
      }
      ctx := ctx.(parent := QualifiedName(parent.ctx));
    }
    if Named(ctx.flags) && ctx.nameOffset != 0 {
      var n := w.cstring(RelativeAddress(ptr + 8, ctx.nameOffset));
      if n == None {
        return Err(NoName(ptr));
      }
      ctx := ctx.(name := n.value);
    }
    a := Ok(ctx);
  }

  // ---- The cursor's final position ----

  /** A lookup returns the same from every start, and either leaves every cursor where it was
      or brings every cursor to one position. */
  lemma StartDoesNotMatter(w: World, addr: u64, chain: seq<u64>, p: nat, q: nat)
    ensures AnswerOf(Chain(w, addr, chain, p)) == AnswerOf(Chain(w, addr, chain, q))
    ensures (Chain(w, addr, chain, p).pos == p && Chain(w, addr, chain, q).pos == q)
            || Chain(w, addr, chain, p).pos == Chain(w, addr, chain, q).pos
  {
    hide AfterRead, DescriptorAt;
  }

  // ---- Parent is the dotted path of the ancestors ----

  function Join(names: seq<string>): string {
    if names == [] then ""
    else if |names| == 1 then names[0]
    else Join(names[..|names| - 1]) + "." + names[|names| - 1]
  }

  function NonEmpty(names: seq<string>): seq<string> {
    if names == [] then []
    else NonEmpty(names[..|names| - 1]) + if names[|names| - 1] != "" then [names[|names| - 1]] else []
  }

  datatype Step = Step(parent: u64, after: nat)

  /** Where the descriptor at ptr says its parent is, if it has one. */
  function Up(w: World, ptr: u64): Option<Step> {
    match SeekTarget(w, ptr)
    case None => None
    case Some(off) =>
      match DescriptorAt(w.data, off)
      case None => None
      case Some(ctx) =>
        if ctx.parentOffset == 0 then None
        else Some(Step(RelativeAddress(ptr + 4, ctx.parentOffset), AfterRead(w.data, off)))
  }

  /** The names of the contexts a successful lookup passes through, outermost first, its own
      last. */
  function Ancestry(w: World, addr: u64, chain: seq<u64>): seq<string>
    requires Chain(w, addr, chain, 0).Found?
    decreases MAX_DEPTH - |chain|
  {
    var self := [Chain(w, addr, chain, 0).ctx.name];
    var target := Target(w, addr);
    if target.At? && target.ptr != 0 && Up(w, target.ptr).Some? then
      var step := Up(w, target.ptr).value;
      ParentIsFound(w, target.ptr, chain, 0);
      StartDoesNotMatter(w, step.parent, chain + [target.ptr], 0, step.after);
      Ancestry(w, step.parent, chain + [target.ptr]) + self
    else self
  }

  lemma ParentIsFound(w: World, ptr: u64, chain: seq<u64>, pos: nat)
    requires ptr != 0 && Up(w, ptr).Some? && ChainAt(w, ptr, chain, pos).Found?
    ensures |chain| < MAX_DEPTH
    ensures var parent := Chain(w, Up(w, ptr).value.parent, chain + [ptr], Up(w, ptr).value.after);
            parent.Found? && ChainAt(w, ptr, chain, pos).ctx.parent == QualifiedName(parent.ctx)
  {
    hide AfterRead, DescriptorAt, QualifiedName, RelativeAddress;
  }

  lemma ParentlessIsBare(w: World, ptr: u64, chain: seq<u64>, pos: nat)
    requires ptr != 0 && Up(w, ptr).None? && ChainAt(w, ptr, chain, pos).Found?
    ensures ChainAt(w, ptr, chain, pos).ctx.parent == ""
  {
    hide AfterRead, RelativeAddress;
  }

  lemma {:induction false} NonEmptyNames(names: seq<string>)
    ensures forall i :: 0 <= i < |NonEmpty(names)| ==> NonEmpty(names)[i] != ""
  {
    if names != [] {
      NonEmptyNames(names[..|names| - 1]);
    }
  }

  lemma JoinIsEmpty(names: seq<string>)
    requires forall i :: 0 <= i < |names| ==> names[i] != ""
    ensures Join(names) == "" <==> names == []
  {
  }

  lemma JoinSnoc(names: seq<string>, last: string)
    ensures Join(names + [last]) == if names == [] then last else Join(names) + "." + last
  {
    assert (names + [last])[..|names|] == names;
  }

  /** On success Parent is the dot-join of the ancestors' non-empty names, outermost first. */
  lemma {:induction false} ParentIsDottedPath(w: World, addr: u64, chain: seq<u64>, pos: nat)
    requires Chain(w, addr, chain, pos).Found?
    ensures Chain(w, addr, chain, 0).Found?
    ensures var path := Ancestry(w, addr, chain);
            && path != [] && path[|path| - 1] == Chain(w, addr, chain, pos).ctx.name
            && Chain(w, addr, chain, pos).ctx.parent == Join(NonEmpty(path[..|path| - 1]))
    decreases MAX_DEPTH - |chain|
  {
    hide Join, NonEmpty, ChainAt, Up, QualifiedName;
    StartDoesNotMatter(w, addr, chain, 0, pos);
    NothingJoins();
    var target := Target(w, addr);
    if target.At? && target.ptr != 0 && Up(w, target.ptr).Some? {
      var ptr, step := target.ptr, Up(w, target.ptr).value;
      ParentIsFound(w, ptr, chain, pos);
      ParentIsDottedPath(w, step.parent, chain + [ptr], step.after);
      var outer := Ancestry(w, step.parent, chain + [ptr]);
      var parent := Chain(w, step.parent, chain + [ptr], step.after).ctx;
      assert Ancestry(w, addr, chain)[..|outer|] == outer;
      QualifiedJoins(outer[..|outer| - 1], parent);
      assert outer == outer[..|outer| - 1] + [parent.name];
    } else {
      assert Ancestry(w, addr, chain)[..0] == [];
      if target.At? && target.ptr != 0 {
        ParentlessIsBare(w, target.ptr, chain, pos);
      }
    }
  }

  lemma NothingJoins()
    ensures Join(NonEmpty([])) == ""
  {
  }

  lemma QualifiedJoins(outer: seq<string>, parent: Context)
    requires parent.parent == Join(NonEmpty(outer))
    ensures QualifiedName(parent) == Join(NonEmpty(outer + [parent.name]))
  {
    hide Join;
    assert (outer + [parent.name])[..|outer|] == outer;
    NonEmptyNames(outer);
    JoinIsEmpty(NonEmpty(outer));
    JoinSnoc(NonEmpty(outer), parent.name);
    assert NonEmpty(outer) + [] == NonEmpty(outer);
  }

  /** The recursion is bounded: a successful lookup passes through at most MAX_DEPTH + 1
      contexts. */
  lemma {:induction false} AncestryIsBounded(w: World, addr: u64, chain: seq<u64>)
    requires Chain(w, addr, chain, 0).Found? && |chain| <= MAX_DEPTH
    ensures |Ancestry(w, addr, chain)| <= MAX_DEPTH + 1 - |chain|
    decreases MAX_DEPTH - |chain|
  {
    hide ChainAt, Up;
    var target := Target(w, addr);
    if target.At? && target.ptr != 0 && Up(w, target.ptr).Some? {
      var step := Up(w, target.ptr).value;
      ParentIsFound(w, target.ptr, chain, 0);
      StartDoesNotMatter(w, step.parent, chain + [target.ptr], 0, step.after);
      AncestryIsBounded(w, step.parent, chain + [target.ptr]);
    }
  }

  // ---- The cycle and depth guards are exact ----

  /** Without the guards, the parents of addr would be resolved in at most n calls. */
  predicate Ends(w: World, addr: u64, n: nat)
    decreases n
  {
    n > 0
    && var target := Target(w, addr);
       if target.At? && target.ptr != 0 && Up(w, target.ptr).Some? then Ends(w, Up(w, target.ptr).value.parent, n - 1)
       else true
  }

  function Innermost(e: Error): Error { if e.InParent? then Innermost(e.inner) else e }

  /** The lookup was stopped by the cycle or the depth check. */
  predicate Guarded(l: Lookup) { l.Failed? && (Innermost(l.error).Cycle? || Innermost(l.error).TooDeep?) }

  /** Each descriptor's parent is the next one, and the last one's parent is at addr. */
  ghost predicate Leads(w: World, chain: seq<u64>, addr: u64) {
    && (forall i :: 0 <= i < |chain| ==> chain[i] != 0 && Up(w, chain[i]).Some?)
    && (forall i, j :: 0 <= i < |chain| && j == i + 1 < |chain| ==> Target(w, Up(w, chain[i]).value.parent) == At(chain[j]))
    && (chain != [] ==> Up(w, chain[|chain| - 1]).value.parent == addr)
  }

  /** Resolving the chain from its element i on comes to addr, one call for each. */
  lemma {:induction false} EndsAlong(w: World, chain: seq<u64>, addr: u64, i: nat, from: u64, n: nat)
    requires Leads(w, chain, addr) && i < |chain| && Target(w, from) == At(chain[i]) && Ends(w, from, n)
    ensures n >= |chain| - i && Ends(w, addr, n - (|chain| - i))
    decreases |chain| - i
  {
    hide Up, Target;
    var parent := Up(w, chain[i]).value.parent;
    assert Ends(w, parent, n - 1);
    if i < |chain| - 1 {
      EndsAlong(w, chain, addr, i + 1, Up(w, chain[i]).value.parent, n - 1);
    }
  }

  /** An address that stands for a descriptor already on the chain never ends. */
  lemma {:induction false} RevisitNeverEnds(w: World, chain: seq<u64>, addr: u64, n: nat)
    requires Leads(w, chain, addr) && Target(w, addr).At? && Target(w, addr).ptr in chain
    ensures !Ends(w, addr, n)
    decreases n
  {
    hide Leads, Ends, Target;
    if Ends(w, addr, n) {
      var i :| 0 <= i < |chain| && chain[i] == Target(w, addr).ptr;
      EndsAlong(w, chain, addr, i, addr, n);
      RevisitNeverEnds(w, chain, addr, n - (|chain| - i));
    }
  }

  lemma LeadsOn(w: World, chain: seq<u64>, addr: u64, ptr: u64)
    requires Leads(w, chain, addr) && Target(w, addr) == At(ptr) && ptr != 0 && Up(w, ptr).Some?
    ensures Leads(w, chain + [ptr], Up(w, ptr).value.parent)
  {
    hide Up, Target;
    var longer := chain + [ptr];
    assert forall i :: 0 <= i < |chain| ==> longer[i] == chain[i];
    forall i, j | 0 <= i < |longer| && j == i + 1 < |longer|
      ensures Target(w, Up(w, longer[i]).value.parent) == At(longer[j]) {
      assert j == |chain| ==> chain[i] == chain[|chain| - 1];
    }
  }

  /** One level of a lookup through a descriptor that has a parent. */
  lemma LevelIs(w: World, ptr: u64, chain: seq<u64>, pos: nat)
    requires ptr != 0
    ensures Up(w, ptr).None? ==> !Guarded(ChainAt(w, ptr, chain, pos))
    ensures Up(w, ptr).Some? ==>
              var l := ChainAt(w, ptr, chain, pos);
              if ptr in chain then l.Failed? && l.error == Cycle(ptr)
              else if |chain| >= MAX_DEPTH then l.Failed? && l.error == TooDeep(ptr)
              else
                var parent := Chain(w, Up(w, ptr).value.parent, chain + [ptr], Up(w, ptr).value.after);
                if parent.Failed? then l.Failed? && l.error == InParent(parent.error) else !Guarded(l)
  {
    hide AfterRead, RelativeAddress, QualifiedName;
  }

  /** The guards stop a lookup exactly if its parents would not be resolved within the depth
      limit, and a reported cycle is one: without the guards the lookup would never end. */
  lemma {:induction false} GuardsAreExact(w: World, addr: u64, chain: seq<u64>, pos: nat)
    requires Leads(w, chain, addr) && |chain| <= MAX_DEPTH
    ensures Guarded(Chain(w, addr, chain, pos)) <==> !Ends(w, addr, MAX_DEPTH + 1 - |chain|)
    ensures var l := Chain(w, addr, chain, pos);
            l.Failed? && Innermost(l.error).Cycle? ==> forall n: nat :: !Ends(w, addr, n)
    decreases MAX_DEPTH - |chain|
  {
    hide ChainAt, Up, Leads;
    var target := Target(w, addr);
    if target.At? && target.ptr != 0 {
      var ptr := target.ptr;
      LevelIs(w, ptr, chain, pos);
      if Up(w, ptr).Some? {
        if ptr in chain {
          forall n: nat ensures !Ends(w, addr, n) {
            RevisitNeverEnds(w, chain, addr, n);
          }
        } else if |chain| < MAX_DEPTH {
          LeadsOn(w, chain, addr, ptr);
          GuardsAreExact(w, Up(w, ptr).value.parent, chain + [ptr], Up(w, ptr).value.after);
        }
      }
    }
  }

  // ---- When a cycle is reported as one ----

  /** The n-th descriptor with a parent on the way up from addr. */
  function Nth(w: World, addr: u64, n: nat): Option<u64>
    decreases n
  {
    var target := Target(w, addr);
    if target.At? && target.ptr != 0 && Up(w, target.ptr).Some? then
      if n == 0 then Some(target.ptr) else Nth(w, Up(w, target.ptr).value.parent, n - 1)
    else None
  }

  /** The n-th descriptor has been met before, below addr or on the way up from it. */
  ghost predicate Revisits(w: World, addr: u64, chain: seq<u64>, n: nat) {
    Nth(w, addr, n).Some? && (Nth(w, addr, n).value in chain || exists m: nat :: m < n && Nth(w, addr, m) == Nth(w, addr, n))
  }

  ghost predicate RevisitsWithin(w: World, addr: u64, chain: seq<u64>, limit: nat) {
    exists n: nat :: n <= limit && Revisits(w, addr, chain, n)
  }

  lemma NthStep(w: World, addr: u64, ptr: u64, n: nat)
    requires Target(w, addr) == At(ptr) && ptr != 0 && Up(w, ptr).Some?
    ensures Nth(w, addr, 0) == Some(ptr) && Nth(w, addr, n + 1) == Nth(w, Up(w, ptr).value.parent, n)
  {
    hide Up, Target;
  }

  /** Revisiting from one level further up is revisiting from here, one descriptor later. */
  lemma RevisitsStep(w: World, addr: u64, chain: seq<u64>, ptr: u64, limit: nat)
    requires Target(w, addr) == At(ptr) && ptr != 0 && Up(w, ptr).Some? && ptr !in chain
    ensures RevisitsWithin(w, addr, chain, limit + 1) <==> RevisitsWithin(w, Up(w, ptr).value.parent, chain + [ptr], limit)
    ensures !RevisitsWithin(w, addr, chain, 0)
  {
    hide Up, Target, Nth;
    var parent := Up(w, ptr).value.parent;
    NthStep(w, addr, ptr, 0);
    if n: nat :| n <= limit + 1 && Revisits(w, addr, chain, n) {
      NthStep(w, addr, ptr, n - 1);
      if m: nat :| m < n && Nth(w, addr, m) == Nth(w, addr, n) && m > 0 {
        NthStep(w, addr, ptr, m - 1);
      }
      assert Revisits(w, parent, chain + [ptr], n - 1);
    }
    if n: nat :| n <= limit && Revisits(w, parent, chain + [ptr], n) {
      NthStep(w, addr, ptr, n);
      if m: nat :| m < n && Nth(w, parent, m) == Nth(w, parent, n) {
        NthStep(w, addr, ptr, m);
        assert m + 1 < n + 1 && Nth(w, addr, m + 1) == Nth(w, addr, n + 1);
      }
      assert Revisits(w, addr, chain, n + 1);
    }
  }

  /** A lookup reports a cycle exactly if some descriptor comes up a second time among the first
      MAX_DEPTH + 1 with a parent, and is too deep exactly if there are that many and none does. */
  lemma {:induction false} CycleReportedExactly(w: World, addr: u64, chain: seq<u64>, pos: nat)
    requires |chain| <= MAX_DEPTH
    ensures var l := Chain(w, addr, chain, pos);
            l.Failed? && Innermost(l.error).Cycle? <==> RevisitsWithin(w, addr, chain, MAX_DEPTH - |chain|)
    ensures var l := Chain(w, addr, chain, pos);
            l.Failed? && Innermost(l.error).TooDeep? <==>
              Nth(w, addr, MAX_DEPTH - |chain|).Some? && !RevisitsWithin(w, addr, chain, MAX_DEPTH - |chain|)
    decreases MAX_DEPTH - |chain|
  {
    hide ChainAt, Up, Nth, RevisitsWithin, Revisits;
    var target := Target(w, addr);
    if target.At? && target.ptr != 0 {
      var ptr := target.ptr;
      LevelIs(w, ptr, chain, pos);
      if Up(w, ptr).Some? {
        var step := Up(w, ptr).value;
        if ptr in chain {
          RevisitsNow(w, addr, chain, ptr, MAX_DEPTH - |chain|);
        } else if |chain| >= MAX_DEPTH {
          RevisitsStep(w, addr, chain, ptr, 0);
          NthStep(w, addr, ptr, 0);
        } else {
          CycleReportedExactly(w, step.parent, chain + [ptr], step.after);
          RevisitsStep(w, addr, chain, ptr, MAX_DEPTH - |chain| - 1);
          NthStep(w, addr, ptr, MAX_DEPTH - |chain| - 1);
        }
      } else {
        NothingAbove(w, addr, chain, MAX_DEPTH - |chain|);
      }
    } else {
      NothingAbove(w, addr, chain, MAX_DEPTH - |chain|);
    }
  }

  lemma RevisitsNow(w: World, addr: u64, chain: seq<u64>, ptr: u64, limit: nat)
    requires Target(w, addr) == At(ptr) && ptr != 0 && Up(w, ptr).Some? && ptr in chain
    ensures RevisitsWithin(w, addr, chain, limit)
  {
    NthStep(w, addr, ptr, 0);
    assert Revisits(w, addr, chain, 0);
  }

  lemma NothingAbove(w: World, addr: u64, chain: seq<u64>, limit: nat)
    requires var target := Target(w, addr); !target.At? || target.ptr == 0 || Up(w, target.ptr).None?
    ensures !RevisitsWithin(w, addr, chain, limit) && Nth(w, addr, limit).None?
  {
    hide Up, Target;
  }

  // ---- A cycle that is too deep ----

  /** One descriptor whose parent lies 8 bytes further on, found at every address. */
  function LadderData(): seq<byte> { [0, 0, 0, 0, 4, 0, 0, 0, 0, 0, 0, 0] }

  function Ladder(): World {
    World(LadderData(), _ => Some(0), _ => None, _ => None, _ => None, _ => None, false)
  }

  lemma LadderUp(ptr: u64)
    ensures Up(Ladder(), ptr).Some? && Up(Ladder(), ptr).value.parent == (ptr + 8) % U64
  {
    var data := LadderData();
    assert Word32(data, 0) == 0 && Word32(data, 4) == 4 && Word32(data, 8) == 0;
    assert DescriptorAt(data, 0) == Some(Context(0, 4, 0, "", ""));
  }

  lemma {:induction false} LadderNth(addr: u64, n: nat)
    requires addr % 8 == 4
    ensures Nth(Ladder(), addr, n) == Some((addr + 8 * n) % U64) && !Ends(Ladder(), addr, n)
    decreases n
  {
    hide Up, Ladder;
    LadderUp(addr);
    assert Target(Ladder(), addr) == At(addr);
    if n > 0 {
      var parent: u64 := (addr + 8) % U64;
      RungAbove(addr, n);
      LadderNth(parent, n - 1);
    }
  }

  lemma RungAbove(addr: u64, n: nat)
    requires addr % 8 == 4 && n > 0
    ensures (addr + 8) % U64 % 8 == 4 && ((addr + 8) % U64 + 8 * (n - 1)) % U64 == (addr + 8 * n) % U64
  {
    if addr + 8 < U64 {
      assert (addr + 8) % U64 == addr + 8;
    } else {
      var up := addr + 8 - U64;
      assert (addr + 8) % U64 == up;
      assert up == addr + 8 - 8 * 0x2000_0000_0000_0000;
      OneTurn(up + 8 * (n - 1));
    }
  }

  lemma OneTurn(x: nat)
    ensures x % U64 == (x + U64) % U64
  {
  }

  /** From address 4 the parents of this world form a cycle, of 2^61 descriptors, and never end;
      yet the lookup is reported as too deep. */
  lemma LongCycleIsTooDeep(pos: nat)
    ensures exists n: nat :: n > 0 && Nth(Ladder(), 4, n) == Nth(Ladder(), 4, 0)
    ensures forall n: nat :: !Ends(Ladder(), 4, n)
    ensures var l := Uncached(Ladder(), 4, pos); l.Failed? && Innermost(l.error).TooDeep?
  {
    hide Nth, Ends, Ladder, Chain;
    LadderNth(4, 0);
    LadderNth(4, U64 / 8);
    forall n: nat ensures Nth(Ladder(), 4, n) == Some((4 + 8 * n) % U64) && !Ends(Ladder(), 4, n) {
      LadderNth(4, n);
    }
    forall n: nat | n <= MAX_DEPTH ensures !Revisits(Ladder(), 4, [], n) {
      forall m: nat | m < n ensures Nth(Ladder(), 4, m) != Nth(Ladder(), 4, n) {
      }
    }
    CycleReportedExactly(Ladder(), 4, [], pos);
  }
}
